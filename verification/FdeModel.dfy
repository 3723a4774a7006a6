/**
 Frame descriptors as the unwinder sees them: a common information entry (CIE) fixes how the
 addresses of its frame descriptors (FDEs) are encoded, and an FDE is decoded relative to the
 bases of the object that carries it. Addresses are 32-bit words.
 */
module FdeModel {
  import opened Options

  const ADDRESS_SPACE := 0x1_0000_0000

  /** The all-ones address: what an object's pc_begin holds before any live FDE was seen. */
  const TOP := 0xFFFF_FFFF

  /** The fixed-size value formats. */
  datatype Format = AbsPtr | UData2 | UData4 | UData8 | SData2 | SData4 | SData8

  datatype Application = Absolute | PcRel | TextRel | DataRel

  datatype Encoding = Omit | Enc(format: Format, application: Application)

  const ABSPTR := Enc(AbsPtr, Absolute)

  datatype Cie = Cie(addr: nat, encoding: Encoding)

  /** `addr` is where the FDE lies; `payload` is the memory from its pc_begin field on, little endian. */
  datatype Fde = Fde(addr: nat, cie: Cie, payload: nat)

  /** One record of an .eh_frame section; the record of length zero that ends it is the end of the sequence. */
  datatype Entry = CieEntry | FdeEntry(fde: Fde)

  /** The text and data bases of an object. */
  datatype Bases = Bases(text: nat, data: nat)

  /** What was registered: one .eh_frame section, or a null-terminated table of sections. */
  datatype Source = Single(addr: nat, entries: seq<Entry>) | Table(addr: nat, lists: seq<seq<Entry>>)

  // ----- decoding -----

  function Modulus(format: Format): (m: nat)
    ensures m > 0
  {
    match format
    case UData2 | SData2 => 0x1_0000
    case AbsPtr | UData4 | SData4 => 0x1_0000_0000
    case UData8 | SData8 => 0x1_0000_0000_0000_0000
  }

  predicate Signed(format: Format) {
    format in {SData2, SData4, SData8}
  }

  /** The raw value of the given format at the start of `memory`, converted to a pointer-sized word. */
  function ReadRaw(format: Format, memory: nat): (raw: nat)
    ensures raw < ADDRESS_SPACE
  {
    var v := memory % Modulus(format);
    if Signed(format) && v >= Modulus(format) / 2 then (v - Modulus(format)) % ADDRESS_SPACE else v % ADDRESS_SPACE
  }

  /** base_from_object, except that a pc-relative value is relative to where it is stored. */
  function Base(e: Encoding, bases: Bases, f: Fde): nat
    requires e.Enc?
  {
    match e.application
    case Absolute => 0
    case PcRel => f.addr + 8
    case TextRel => bases.text
    case DataRel => bases.data
  }

  /** read_encoded_value_with_base: a zero raw value stays zero, whatever the base. */
  function Decode(e: Encoding, bases: Bases, f: Fde): (pc: nat)
    requires e.Enc?
    ensures pc < ADDRESS_SPACE
  {
    var raw := ReadRaw(e.format, f.payload);
    if raw == 0 then 0 else (raw + Base(e, bases, f)) % ADDRESS_SPACE
  }

  /** The range follows the begin address, in the same format and never relative to a base. */
  function DecodeRange(e: Encoding, f: Fde): (n: nat)
    requires e.Enc?
    ensures n < ADDRESS_SPACE
  {
    ReadRaw(e.format, f.payload / Modulus(e.format))
  }

  /** A removed link-once function has zero in the representable bits of its address. */
  predicate NonNull(e: Encoding, pc: nat)
    requires e.Enc?
  {
    if e.format in {UData2, SData2} then pc % 0x1_0000 != 0 else pc != 0
  }

  // ----- an FDE read under the encoding of its own CIE -----

  function Begin(bases: Bases, f: Fde): (pc: nat)
    requires f.cie.encoding.Enc?
    ensures pc < ADDRESS_SPACE
  {
    Decode(f.cie.encoding, bases, f)
  }

  function Length(f: Fde): nat
    requires f.cie.encoding.Enc?
  {
    DecodeRange(f.cie.encoding, f)
  }

  function End(bases: Bases, f: Fde): nat
    requires f.cie.encoding.Enc?
  {
    Begin(bases, f) + Length(f)
  }

  predicate Live(bases: Bases, f: Fde)
    requires f.cie.encoding.Enc?
  {
    NonNull(f.cie.encoding, Begin(bases, f))
  }

  /** `pc` lies in the range of the live FDE `f`; the subtraction wraps. */
  predicate Covers(bases: Bases, f: Fde, pc: nat)
    requires f.cie.encoding.Enc?
  {
    Live(bases, f) && (pc - Begin(bases, f)) % ADDRESS_SPACE < Length(f)
  }

  // ----- an FDE read the way an object's flags say -----

  /** The flags of an object that select how its FDEs are read, with its bases. */
  datatype Mode = Mode(mixed: bool, encoding: Encoding, bases: Bases)

  function EncodingOf(m: Mode, f: Fde): Encoding {
    if m.mixed then f.cie.encoding else m.encoding
  }

  /** Plain pointers are loaded directly, everything else is decoded. */
  function ReadAs(e: Encoding, bases: Bases, f: Fde): nat {
    if e == ABSPTR then f.payload % ADDRESS_SPACE
    else if e.Omit? then 0
    else Decode(e, bases, f)
  }

  function RangeAs(e: Encoding, f: Fde): nat {
    if e == ABSPTR then f.payload / ADDRESS_SPACE % ADDRESS_SPACE
    else if e.Omit? then 0
    else DecodeRange(e, f)
  }

  predicate LiveAs(e: Encoding, pc: nat) {
    if e == ABSPTR then pc != 0 else e.Enc? && NonNull(e, pc)
  }

  function ReadBegin(m: Mode, f: Fde): nat {
    ReadAs(EncodingOf(m, f), m.bases, f)
  }

  function ReadRange(m: Mode, f: Fde): nat {
    RangeAs(EncodingOf(m, f), f)
  }

  /** The flags agree with the CIE of every FDE in `s`. */
  ghost predicate Suits(m: Mode, s: seq<Fde>) {
    forall f :: f in s ==> EncodingOf(m, f) == f.cie.encoding
  }

  /** Under suitable flags every reader sees an FDE exactly as its own CIE describes it. */
  lemma ReadsOwnEncoding(m: Mode, s: seq<Fde>, f: Fde)
    requires WellEncoded(s) && Suits(m, s) && f in s
    ensures ReadBegin(m, f) == Begin(m.bases, f) && ReadRange(m, f) == Length(f)
    ensures LiveAs(EncodingOf(m, f), ReadBegin(m, f)) <==> Live(m.bases, f)
  {
  }

  // ----- the FDEs of a section and of a registered source -----

  function Fdes(entries: seq<Entry>): (s: seq<Fde>)
  {
    if entries == [] then []
    else
      var rest := Fdes(entries[..|entries| - 1]);
      match entries[|entries| - 1]
      case CieEntry => rest
      case FdeEntry(f) => rest + [f]
  }

  function FdesOfLists(lists: seq<seq<Entry>>): seq<Fde>
  {
    if lists == [] then [] else FdesOfLists(lists[..|lists| - 1]) + Fdes(lists[|lists| - 1])
  }

  function AllFdes(source: Source): seq<Fde>
  {
    match source
    case Single(_, entries) => Fdes(entries)
    case Table(_, lists) => FdesOfLists(lists)
  }

  /** Every CIE names an encoding that can be decoded. */
  ghost predicate WellEncoded(s: seq<Fde>) {
    forall f :: f in s ==> f.cie.encoding.Enc?
  }

  /** The live FDEs among `s`, in order. */
  function LiveOf(bases: Bases, s: seq<Fde>): (live: seq<Fde>)
    requires WellEncoded(s)
    ensures |live| <= |s|
    ensures forall f :: f in live <==> f in s && Live(bases, f)
  {
    if s == [] then []
    else
      var rest := LiveOf(bases, s[..|s| - 1]);
      var f := s[|s| - 1];
      assert s == s[..|s| - 1] + [f];
      if Live(bases, f) then rest + [f] else rest
  }

  lemma {:induction false} FdesConcat(a: seq<Entry>, b: seq<Entry>)
    ensures Fdes(a + b) == Fdes(a) + Fdes(b)
  {
    if b == [] {
      assert a + b == a;
    } else {
      assert (a + b)[..|a + b| - 1] == a + b[..|b| - 1];
      FdesConcat(a, b[..|b| - 1]);
    }
  }

  /** One more record of a section. */
  lemma FdesStep(entries: seq<Entry>, i: nat)
    requires i < |entries|
    ensures Fdes(entries[..i + 1])
            == if entries[i].FdeEntry? then Fdes(entries[..i]) + [entries[i].fde] else Fdes(entries[..i])
    ensures forall f :: f in Fdes(entries[..i + 1]) ==> f in Fdes(entries)
  {
    hide Fdes;
    FdesLast(entries[..i], entries[i]);
    assert entries[..i] + [entries[i]] == entries[..i + 1];
    FdesConcat(entries[..i + 1], entries[i + 1..]);
    assert entries == entries[..i + 1] + entries[i + 1..];
  }

  lemma FdesLast(front: seq<Entry>, last: Entry)
    ensures Fdes(front + [last]) == if last.FdeEntry? then Fdes(front) + [last.fde] else Fdes(front)
  {
    var s := front + [last];
    assert s[..|s| - 1] == front && s[|s| - 1] == last;
  }

  lemma LiveOfStep(bases: Bases, s: seq<Fde>, f: Fde)
    requires WellEncoded(s) && f.cie.encoding.Enc? && WellEncoded(s + [f])
    ensures LiveOf(bases, s + [f]) == if Live(bases, f) then LiveOf(bases, s) + [f] else LiveOf(bases, s)
  {
    assert (s + [f])[..|s|] == s;
  }

  lemma WellEncodedParts(a: seq<Fde>, b: seq<Fde>)
    requires WellEncoded(a) && WellEncoded(b)
    ensures WellEncoded(a + b)
    ensures b != [] ==> b[|b| - 1].cie.encoding.Enc? && WellEncoded(b[..|b| - 1])
  {
  }

  lemma {:induction false} LiveOfConcat(bases: Bases, a: seq<Fde>, b: seq<Fde>)
    requires WellEncoded(a) && WellEncoded(b)
    ensures WellEncoded(a + b)
    ensures LiveOf(bases, a + b) == LiveOf(bases, a) + LiveOf(bases, b)
  {
    WellEncodedParts(a, b);
    hide WellEncoded, Live;
    if b == [] {
      assert a + b == a;
    } else {
      var front, f := b[..|b| - 1], b[|b| - 1];
      assert b == front + [f] && a + b == (a + front) + [f];
      LiveOfConcat(bases, a, front);
      hide LiveOf;
      LiveOfStep(bases, front, f);
      LiveOfStep(bases, a + front, f);
    }
  }

  /** The least address of a live FDE, or TOP when there is none. */
  function MinBegin(bases: Bases, s: seq<Fde>): (m: nat)
    requires WellEncoded(s)
    ensures m <= TOP
    ensures forall f :: f in s && Live(bases, f) ==> m <= Begin(bases, f)
    ensures m == TOP || exists f :: f in s && Live(bases, f) && Begin(bases, f) == m
  {
    if s == [] then TOP
    else
      var rest := MinBegin(bases, s[..|s| - 1]);
      var f := s[|s| - 1];
      assert s == s[..|s| - 1] + [f];
      if Live(bases, f) && Begin(bases, f) < rest then Begin(bases, f) else rest
  }

  // ----- separation -----

  ghost predicate Apart(bases: Bases, f: Fde, g: Fde)
    requires f.cie.encoding.Enc? && g.cie.encoding.Enc?
  {
    End(bases, f) <= Begin(bases, g) || End(bases, g) <= Begin(bases, f)
  }

  /** Every range is nonempty and ends no later than `limit`, and no two ranges overlap. */
  ghost predicate Separated(bases: Bases, s: seq<Fde>, limit: nat)
    requires WellEncoded(s)
  {
    && (forall f :: f in s ==> Length(f) > 0 && End(bases, f) <= limit)
    && (forall f, g :: f in s && g in s && f != g ==> Apart(bases, f, g))
  }

  /** The index-free reference: the first live FDE, in section order, that covers `pc`. */
  function NaiveFind(bases: Bases, s: seq<Fde>, pc: nat): (r: Option<Fde>)
    requires WellEncoded(s)
    ensures r.Some? ==> r.value in s && Covers(bases, r.value, pc)
    ensures r.None? ==> forall f :: f in s ==> !Covers(bases, f, pc)
  {
    if s == [] then None
    else if Covers(bases, s[0], pc) then Some(s[0])
    else NaiveFind(bases, s[1..], pc)
  }

  lemma {:induction false} NaiveFindConcat(bases: Bases, a: seq<Fde>, b: seq<Fde>, pc: nat)
    requires WellEncoded(a) && WellEncoded(b) && WellEncoded(a + b)
    ensures var r := NaiveFind(bases, a, pc);
            NaiveFind(bases, a + b, pc) == if r.Some? then r else NaiveFind(bases, b, pc)
  {
    if a == [] {
      assert a + b == b;
    } else {
      assert (a + b)[1..] == a[1..] + b;
      NaiveFindConcat(bases, a[1..], b, pc);
    }
  }

  /** Dead FDEs cover nothing, so leaving them out does not change the answer. */
  lemma {:induction false} NaiveFindLive(bases: Bases, s: seq<Fde>, pc: nat)
    requires WellEncoded(s)
    ensures NaiveFind(bases, LiveOf(bases, s), pc) == NaiveFind(bases, s, pc)
  {
    hide Live, Begin, Length;
    if s != [] {
      var front, f := s[..|s| - 1], s[|s| - 1];
      assert s == front + [f];
      NaiveFindLive(bases, front, pc);
      NaiveFindConcat(bases, front, [f], pc);
      LiveOfStep(bases, front, f);
      if Live(bases, f) {
        NaiveFindConcat(bases, LiveOf(bases, front), [f], pc);
      }
    }
  }

  /** Where ranges do not wrap, covering is membership of an interval. */
  lemma CoversIsInterval(bases: Bases, f: Fde, pc: nat)
    requires f.cie.encoding.Enc? && pc < ADDRESS_SPACE && End(bases, f) <= ADDRESS_SPACE
    ensures Covers(bases, f, pc) <==> Live(bases, f) && Begin(bases, f) <= pc < End(bases, f)
  {
    var d := pc - Begin(bases, f);
    if d >= 0 {
      assert d % ADDRESS_SPACE == d;
    } else {
      assert d % ADDRESS_SPACE == d + ADDRESS_SPACE;
    }
  }

  /** Separated ranges leave at most one candidate for each pc, so every correct search returns the same FDE. */
  lemma CoverIsUnique(bases: Bases, s: seq<Fde>, f: Fde, g: Fde, pc: nat)
    requires WellEncoded(s) && Separated(bases, s, ADDRESS_SPACE) && pc < ADDRESS_SPACE
    requires f in s && g in s && Covers(bases, f, pc) && Covers(bases, g, pc)
    ensures f == g
  {
    CoversIsInterval(bases, f, pc);
    CoversIsInterval(bases, g, pc);
    assert f != g ==> Apart(bases, f, g);
  }
}
