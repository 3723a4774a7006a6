/**
 Frame descriptors as bytes: what a compiler writes for a function is what the unwinder reads. The
 record is two words, then the begin and the range of the function in the format of its CIE.
 */
module FdeLayout {
  import opened Options
  import opened FdeModel
  import opened FdeObject
  import opened FdeRegistry
  import Powers

  type Byte = b: nat | b < 256

  // ----- little endian -----

  /** The unsigned number that bytes stand for, least significant first. */
  function Number(bytes: seq<Byte>): nat {
    if bytes == [] then 0 else bytes[0] + 256 * Number(bytes[1..])
  }

  function Bytes(v: nat, size: nat): (bytes: seq<Byte>)
    ensures |bytes| == size
  {
    if size == 0 then [] else [v % 256] + Bytes(v / 256, size - 1)
  }

  function Power(size: nat): (p: nat)
    ensures p > 0
  {
    if size == 0 then 1 else 256 * Power(size - 1)
  }

  lemma {:induction false} NumberOfBytes(v: nat, size: nat, more: seq<Byte>)
    requires v < Power(size)
    ensures Number(Bytes(v, size) + more) == v + Power(size) * Number(more)
  {
    if size == 0 {
      assert Bytes(v, size) + more == more;
    } else {
      var s := Bytes(v, size) + more;
      assert s[0] == v % 256 && s[1..] == Bytes(v / 256, size - 1) + more;
      NumberOfBytes(v / 256, size - 1, more);
      Distributes(v / 256, Power(size - 1), Number(more));
    }
  }

  lemma Distributes(a: nat, p: nat, n: nat)
    ensures 256 * (a + p * n) == 256 * a + 256 * p * n
  {
  }

  // ----- the record -----

  function Size(format: Format): nat {
    match format
    case UData2 | SData2 => 2
    case AbsPtr | UData4 | SData4 => 4
    case UData8 | SData8 => 8
  }

  /** The numbers a field of the format can hold. */
  predicate Holds(format: Format, v: int) {
    match format
    case AbsPtr | UData4 => 0 <= v < 0x1_0000_0000
    case UData2 => 0 <= v < 0x1_0000
    case UData8 => 0 <= v < 0x1_0000_0000_0000_0000
    case SData2 => -0x8000 <= v < 0x8000
    case SData4 => -0x8000_0000 <= v < 0x8000_0000
    case SData8 => -0x8000_0000_0000_0000 <= v < 0x8000_0000_0000_0000
  }

  /** A field: a negative number is written in two's complement. */
  function Field(format: Format, v: int): (bytes: seq<Byte>)
    requires Holds(format, v)
    ensures |bytes| == Size(format)
  {
    Powers256();
    Bytes(if v < 0 then v + Power(Size(format)) else v, Size(format))
  }

  /** What precedes the begin field: the length of the record and the distance to its CIE. */
  function Header(length: nat, cieDelta: nat): seq<Byte> {
    Bytes(length, 4) + Bytes(cieDelta, 4)
  }

  function Record(length: nat, cieDelta: nat, format: Format, begin: int, range: int, more: seq<Byte>): seq<Byte>
    requires Holds(format, begin) && Holds(format, range)
  {
    Header(length, cieDelta) + Field(format, begin) + Field(format, range) + more
  }

  /** The FDE a record at `addr` is: its payload starts at the begin field. */
  function FdeOf(addr: nat, cie: Cie, record: seq<Byte>): Fde
    requires |record| >= |Header(0, 0)|
  {
    Fde(addr, cie, Number(record[|Header(0, 0)|..]))
  }

  /** What a begin is relative to: nothing, the place where it is stored, or a base of the object. */
  function Origin(application: Application, bases: Bases, addr: nat): nat {
    match application
    case Absolute => 0
    case PcRel => addr + |Header(0, 0)|
    case TextRel => bases.text
    case DataRel => bases.data
  }

  // ----- reading it back -----

  lemma Powers256()
    ensures Power(2) == 0x1_0000 && Power(4) == 0x1_0000_0000 && Power(8) == 0x1_0000_0000_0000_0000
  {
    assert Power(2) == 256 * Power(1) && Power(4) == 256 * Power(3);
  }

  lemma ModulusIsPower(format: Format)
    ensures Modulus(format) == Power(Size(format))
  {
    hide Power;
    Powers256();
  }

  /** The number written at the start of memory, as an unsigned one. */
  function Pattern(format: Format, v: int): (u: nat)
    requires Holds(format, v)
    ensures u < Modulus(format)
  {
    if v < 0 then v + Modulus(format) else v
  }

  lemma FieldNumber(format: Format, v: int, more: seq<Byte>)
    requires Holds(format, v)
    ensures var memory := Number(Field(format, v) + more);
            memory % Modulus(format) == Pattern(format, v) && memory / Modulus(format) == Number(more)
  {
    hide Power, Modulus, Number, Bytes;
    ModulusIsPower(format);
    var m, u, n := Modulus(format), Pattern(format, v), Number(more);
    NumberOfBytes(u, Size(format), more);
    Powers.DivisionIs(u + m * n, m, n, u);
  }

  /** A field reads as the number written, wrapped to an address. */
  lemma FieldReads(format: Format, v: int, more: seq<Byte>)
    requires Holds(format, v)
    ensures ReadRaw(format, Number(Field(format, v) + more)) == v % ADDRESS_SPACE
  {
    hide Number, Field;
    FieldNumber(format, v, more);
  }

  /**
   The round trip: a function at `b` of `n` bytes, written relative to its origin as a displacement
   that the format holds and that is not zero as an address, is read as exactly that function. It
   covers a pc exactly if it was not removed and the pc lies in it.
   */
  lemma RoundTrip(length: nat, cieDelta: nat, cie: Cie, bases: Bases, addr: nat, b: nat, n: nat,
                  displacement: int, more: seq<Byte>, pc: nat)
    requires cie.encoding.Enc? && b < ADDRESS_SPACE && pc < ADDRESS_SPACE && b + n <= ADDRESS_SPACE
    requires (Origin(cie.encoding.application, bases, addr) + displacement) % ADDRESS_SPACE == b
    requires Holds(cie.encoding.format, displacement) && displacement % ADDRESS_SPACE != 0
    requires Holds(cie.encoding.format, n)
    ensures var record := Record(length, cieDelta, cie.encoding.format, displacement, n, more);
            var f := FdeOf(addr, cie, record);
            var removed := b % (if Size(cie.encoding.format) == 2 then 0x1_0000 else ADDRESS_SPACE) == 0;
            && Begin(bases, f) == b && Length(f) == n % ADDRESS_SPACE
            && (n < ADDRESS_SPACE ==> (Covers(bases, f, pc) <==> !removed && b <= pc < b + n))
  {
    hide Number, Field, Bytes, ReadRaw, Decode, DecodeRange, FdeOf, Record, Origin;
    ReadsBack(length, cieDelta, cie, bases, addr, n, displacement, more);
    var f := FdeOf(addr, cie, Record(length, cieDelta, cie.encoding.format, displacement, n, more));
    if n < ADDRESS_SPACE {
      CoversIsInterval(bases, f, pc);
    }
  }

  lemma ReadsBack(length: nat, cieDelta: nat, cie: Cie, bases: Bases, addr: nat, n: nat,
                  displacement: int, more: seq<Byte>)
    requires cie.encoding.Enc? && Holds(cie.encoding.format, n)
    requires Holds(cie.encoding.format, displacement) && displacement % ADDRESS_SPACE != 0
    ensures var record := Record(length, cieDelta, cie.encoding.format, displacement, n, more);
            && |record| >= |Header(0, 0)|
            && var f := FdeOf(addr, cie, record);
               && f.cie == cie && Length(f) == n % ADDRESS_SPACE
               && Begin(bases, f) == (Origin(cie.encoding.application, bases, addr) + displacement) % ADDRESS_SPACE
  {
    hide Number, Field, Bytes, ReadRaw;
    var format := cie.encoding.format;
    RecordFields(length, cieDelta, format, displacement, n, more);
    FieldReads(format, displacement, Field(format, n) + more);
    FieldNumber(format, displacement, Field(format, n) + more);
    FieldReads(format, n, more);
    Wraps(displacement, Origin(cie.encoding.application, bases, addr));
  }

  lemma RecordFields(length: nat, cieDelta: nat, format: Format, begin: int, range: int, more: seq<Byte>)
    requires Holds(format, begin) && Holds(format, range)
    ensures var record := Record(length, cieDelta, format, begin, range, more);
            && |record| >= |Header(0, 0)|
            && record[|Header(0, 0)|..] == Field(format, begin) + (Field(format, range) + more)
  {
    hide Bytes, Field;
    var header, begins, ranges := Header(length, cieDelta), Field(format, begin), Field(format, range);
    assert |header| == |Header(0, 0)|;
    assert header + begins + ranges + more == header + (begins + (ranges + more));
  }

  lemma Wraps(displacement: int, origin: nat)
    ensures (displacement % ADDRESS_SPACE + origin) % ADDRESS_SPACE == (origin + displacement) % ADDRESS_SPACE
  {
  }

  /** A displacement that is zero as an address stays zero: the function was removed, and covers nothing. */
  lemma ZeroIsRemoved(length: nat, cieDelta: nat, cie: Cie, bases: Bases, addr: nat, n: nat,
                      displacement: int, more: seq<Byte>, pc: nat)
    requires cie.encoding.Enc? && Holds(cie.encoding.format, n)
    requires Holds(cie.encoding.format, displacement) && displacement % ADDRESS_SPACE == 0
    ensures var record := Record(length, cieDelta, cie.encoding.format, displacement, n, more);
            !Covers(bases, FdeOf(addr, cie, record), pc)
  {
    hide Number, Field, Bytes, ReadRaw;
    var format := cie.encoding.format;
    RecordFields(length, cieDelta, format, displacement, n, more);
    FieldReads(format, displacement, Field(format, n) + more);
  }

  /** So a lookup anywhere in a function finds the FDE that was written for it, and reports where it begins. */
  lemma FoundAsWritten(u: Unit, length: nat, cieDelta: nat, cie: Cie, addr: nat, b: nat, n: nat,
                       displacement: int, more: seq<Byte>, pc: nat)
    requires cie.encoding.Enc? && b <= pc < b + n <= ADDRESS_SPACE && n < ADDRESS_SPACE
    requires (Origin(cie.encoding.application, u.bases, addr) + displacement) % ADDRESS_SPACE == b
    requires Holds(cie.encoding.format, displacement) && displacement % ADDRESS_SPACE != 0
    requires Holds(cie.encoding.format, n)
    requires b % (if Size(cie.encoding.format) == 2 then 0x1_0000 else ADDRESS_SPACE) != 0
    requires var f := FdeOf(addr, cie, Record(length, cieDelta, cie.encoding.format, displacement, n, more));
             Sound(u) && f in AllFdes(u.source)
    ensures var f := FdeOf(addr, cie, Record(length, cieDelta, cie.encoding.format, displacement, n, more));
            Owns(u, pc, Hit(f, u.bases, b))
  {
    hide FdeOf, Record, Origin, Live, Begin, Length;
    ReadsBack(length, cieDelta, cie, u.bases, addr, n, displacement, more);
    RoundTrip(length, cieDelta, cie, u.bases, addr, b, n, displacement, more, pc);
    var f := FdeOf(addr, cie, Record(length, cieDelta, cie.encoding.format, displacement, n, more));
    var answer := Answer(u, pc);
    assert answer.Some?;
    CoverIsUnique(u.bases, LiveOf(u.bases, AllFdes(u.source)), f, answer.value, pc);
  }
}
