/**
 The two ways to look a program counter up in one object: a linear scan over its sections, and a
 binary search over its sorted vector.
 */
module FdeSearch {
  import opened Options
  import opened FdeModel
  import opened FdeSort

  /** fde_compare under the given flags. */
  function Compare(m: Mode): Order {
    (c: Cell) => if c.Elem? then ReadBegin(m, c.fde) else 0
  }

  function Elems(s: seq<Fde>): seq<Cell> {
    seq(|s|, i requires 0 <= i < |s| => Elem(s[i]))
  }

  // ----- linear_search_fdes -----

  lemma FdesFirst(entries: seq<Entry>)
    requires entries != []
    ensures Fdes(entries) == if entries[0].FdeEntry? then [entries[0].fde] + Fdes(entries[1..]) else Fdes(entries[1..])
  {
    NoFdes();
    hide Fdes;
    FdesConcat(entries[..1], entries[1..]);
    assert entries == entries[..1] + entries[1..];
    FdesLast([], entries[0]);
    assert entries[..1] == [] + [entries[0]];
  }

  lemma NoFdes()
    ensures Fdes([]) == []
  {
  }

  /** Scans one section, reading each FDE as the flags say; the answer is the reference one. */
  method LinearSearchFdes(m: Mode, entries: seq<Entry>, pc: nat) returns (r: Option<Fde>)
    requires WellEncoded(Fdes(entries)) && Suits(m, Fdes(entries))
    ensures r == NaiveFind(m.bases, Fdes(entries), pc)
  {
    hide ReadAs, RangeAs, LiveAs, Begin, Length, Live, Fdes;
    var lastCie: Option<Cie> := None;
    var encoding := m.encoding;
    for i := 0 to |entries|
      invariant lastCie.Some? ==> encoding == lastCie.value.encoding
      invariant !m.mixed ==> encoding == m.encoding
      invariant WellEncoded(Fdes(entries[i..])) && Suits(m, Fdes(entries[i..]))
      invariant NaiveFind(m.bases, Fdes(entries[i..]), pc) == NaiveFind(m.bases, Fdes(entries), pc)
    {
      FdesFirst(entries[i..]);
      assert entries[i..][1..] == entries[i + 1..];
      if entries[i].FdeEntry? {
        var f := entries[i].fde;
        if m.mixed && Some(f.cie) != lastCie {
          lastCie, encoding := Some(f.cie), f.cie.encoding;
        }
        ReadsOwnEncoding(m, Fdes(entries[i..]), f);
        assert Fdes(entries[i..])[0] == f && Fdes(entries[i..])[1..] == Fdes(entries[i + 1..]);
        var begin := ReadAs(encoding, m.bases, f);
        if LiveAs(encoding, begin) && (pc - begin) % ADDRESS_SPACE < RangeAs(encoding, f) {
          return Some(f);
        }
      }
    }
    assert entries[|entries|..] == [];
    NoFdes();
    r := None;
  }

  // ----- binary search -----

  /** `vec` is a sorted permutation of the live FDEs `live`. */
  ghost predicate Indexes(m: Mode, vec: seq<Cell>, live: seq<Fde>) {
    Sorted(Compare(m), vec) && multiset(vec) == multiset(Elems(live))
  }

  lemma IndexElements(m: Mode, vec: seq<Cell>, live: seq<Fde>)
    requires Indexes(m, vec, live)
    ensures forall c :: c in vec ==> c.Elem? && c.fde in live
    ensures forall f :: f in live ==> Elem(f) in vec
  {
    forall c | c in vec ensures c.Elem? && c.fde in live {
      assert c in multiset(vec);
      assert c in Elems(live);
    }
    forall f | f in live ensures Elem(f) in vec {
      var i :| 0 <= i < |live| && live[i] == f;
      assert Elems(live)[i] == Elem(f);
      assert Elem(f) in multiset(Elems(live));
    }
  }

  /** The probe sequence of the binary search between `lo` and `hi`; the end of a range wraps. */
  function BinaryFind(m: Mode, vec: seq<Cell>, pc: nat, lo: nat, hi: nat): Option<Fde>
    requires lo <= hi <= |vec|
    requires forall c :: c in vec ==> c.Elem?
    decreases hi - lo
  {
    if lo == hi then None
    else
      var i := (lo + hi) / 2;
      var f := vec[i].fde;
      if pc < ReadBegin(m, f) then BinaryFind(m, vec, pc, lo, i)
      else if pc >= (ReadBegin(m, f) + ReadRange(m, f)) % ADDRESS_SPACE then BinaryFind(m, vec, pc, i + 1, hi)
      else Some(f)
  }

  /** A sorted, separated vector of live FDEs, read correctly by the flags `m`. */
  ghost predicate Searchable(m: Mode, vec: seq<Cell>, live: seq<Fde>) {
    && WellEncoded(live) && Suits(m, live) && Separated(m.bases, live, ADDRESS_SPACE)
    && (forall f :: f in live ==> Live(m.bases, f))
    && Indexes(m, vec, live)
  }

  /** The FDE at `c` does not cover `pc` in a way the search can see. */
  ghost predicate Missed(m: Mode, c: Cell, pc: nat)
  {
    c.Elem? && c.fde.cie.encoding.Enc? && (Covers(m.bases, c.fde, pc) ==> End(m.bases, c.fde) == ADDRESS_SPACE)
  }

  /** A probe that goes left or right discards no FDE that covers pc, but for one that ends the address space. */
  lemma ProbeDiscards(m: Mode, vec: seq<Cell>, live: seq<Fde>, pc: nat, i: nat, j: nat)
    requires Searchable(m, vec, live) && i < |vec| && j < |vec| && pc < ADDRESS_SPACE && vec[i].Elem?
    requires var f := vec[i].fde;
             || (i <= j && pc < ReadBegin(m, f))
             || (j <= i && ReadBegin(m, f) <= pc && (ReadBegin(m, f) + ReadRange(m, f)) % ADDRESS_SPACE <= pc)
    ensures Missed(m, vec[j], pc)
  {
    hide Decode, DecodeRange, NonNull;
    IndexElements(m, vec, live);
    var f, g := vec[i].fde, vec[j].fde;
    ReadsOwnEncoding(m, live, f);
    ReadsOwnEncoding(m, live, g);
    CoversIsInterval(m.bases, g, pc);
    assert i < j ==> Compare(m)(vec[i]) <= Compare(m)(vec[j]);
    assert j < i ==> Compare(m)(vec[j]) <= Compare(m)(vec[i]);
    assert f != g ==> Apart(m.bases, f, g);
  }

  /** A probe that stops returns an FDE that covers pc. */
  lemma ProbeHits(m: Mode, vec: seq<Cell>, live: seq<Fde>, pc: nat, i: nat)
    requires Searchable(m, vec, live) && i < |vec| && pc < ADDRESS_SPACE && vec[i].Elem?
    requires ReadBegin(m, vec[i].fde) <= pc < (ReadBegin(m, vec[i].fde) + ReadRange(m, vec[i].fde)) % ADDRESS_SPACE
    ensures Found(m, live, pc, vec[i].fde)
  {
    hide Decode, DecodeRange, NonNull;
    IndexElements(m, vec, live);
    ReadsOwnEncoding(m, live, vec[i].fde);
    CoversIsInterval(m.bases, vec[i].fde, pc);
  }

  ghost predicate Found(m: Mode, live: seq<Fde>, pc: nat, f: Fde) {
    f in live && f.cie.encoding.Enc? && Covers(m.bases, f, pc) && End(m.bases, f) < ADDRESS_SPACE
  }

  lemma {:induction false} BinaryFindCovers(m: Mode, vec: seq<Cell>, live: seq<Fde>, pc: nat, lo: nat, hi: nat)
    requires Searchable(m, vec, live) && lo <= hi <= |vec| && pc < ADDRESS_SPACE
    requires forall c :: c in vec ==> c.Elem?
    requires forall j :: 0 <= j < |vec| && !(lo <= j < hi) ==> Missed(m, vec[j], pc)
    ensures var r := BinaryFind(m, vec, pc, lo, hi);
            && (r.Some? ==> Found(m, live, pc, r.value))
            && (r.None? ==> forall j :: 0 <= j < |vec| ==> Missed(m, vec[j], pc))
    decreases hi - lo
  {
    hide ReadBegin, ReadRange, Searchable, Missed, Found;
    if lo < hi {
      var i := (lo + hi) / 2;
      var f := vec[i].fde;
      if pc < ReadBegin(m, f) {
        forall j | i <= j < |vec| ensures Missed(m, vec[j], pc) {
          ProbeDiscards(m, vec, live, pc, i, j);
        }
        BinaryFindCovers(m, vec, live, pc, lo, i);
      } else if pc >= (ReadBegin(m, f) + ReadRange(m, f)) % ADDRESS_SPACE {
        forall j | 0 <= j <= i ensures Missed(m, vec[j], pc) {
          ProbeDiscards(m, vec, live, pc, i, j);
        }
        BinaryFindCovers(m, vec, live, pc, i + 1, hi);
      } else {
        ProbeHits(m, vec, live, pc, i);
      }
    }
  }

  /** The search over the sorted index of `live`: what it returns covers `pc`, and it misses only what ends memory. */
  method BinarySearchFdes(m: Mode, vec: seq<Cell>, pc: nat, ghost live: seq<Fde>) returns (r: Option<Fde>)
    requires forall c :: c in vec ==> c.Elem?
    ensures r == BinaryFind(m, vec, pc, 0, |vec|)
    ensures Searchable(m, vec, live) && pc < ADDRESS_SPACE && r.Some? ==> Found(m, live, pc, r.value)
    ensures Searchable(m, vec, live) && pc < ADDRESS_SPACE && r.None? ==>
              forall j :: 0 <= j < |vec| ==> Missed(m, vec[j], pc)
  {
    hide Searchable, Found, Missed, ReadBegin, ReadRange;
    if Searchable(m, vec, live) && pc < ADDRESS_SPACE {
      BinaryFindCovers(m, vec, live, pc, 0, |vec|);
    }
    var lo, hi := 0, |vec|;
    while lo < hi
      invariant lo <= hi <= |vec|
      invariant BinaryFind(m, vec, pc, lo, hi) == BinaryFind(m, vec, pc, 0, |vec|)
    {
      var i := (lo + hi) / 2;
      var f := vec[i].fde;
      if pc < ReadBegin(m, f) {
        hi := i;
      } else if pc >= (ReadBegin(m, f) + ReadRange(m, f)) % ADDRESS_SPACE {
        lo := i + 1;
      } else {
        return Some(f);
      }
    }
    r := None;
  }

  ghost predicate Agrees(m: Mode, vec: seq<Cell>, live: seq<Fde>, pc: nat)
    requires WellEncoded(live) && forall c :: c in vec ==> c.Elem?
  {
    BinaryFind(m, vec, pc, 0, |vec|) == NaiveFind(m.bases, live, pc)
  }

  /** Unless an FDE ends exactly at the top of the address space, the index answers like the naive scan. */
  lemma BinaryAgrees(m: Mode, vec: seq<Cell>, live: seq<Fde>, pc: nat)
    requires Searchable(m, vec, live) && pc < ADDRESS_SPACE && forall c :: c in vec ==> c.Elem?
    requires forall f :: f in live && Covers(m.bases, f, pc) ==> End(m.bases, f) < ADDRESS_SPACE
    ensures Agrees(m, vec, live, pc)
  {
    BinaryFindCovers(m, vec, live, pc, 0, |vec|);
    IndexElements(m, vec, live);
    var r, n := BinaryFind(m, vec, pc, 0, |vec|), NaiveFind(m.bases, live, pc);
    if r.Some? && n.Some? {
      CoverIsUnique(m.bases, live, r.value, n.value, pc);
    }
  }

  /**
   The exact condition for the sorted index to answer like the naive scan for every pc: no FDE ends
   at the top of the address space, where pc_begin + pc_range wraps to zero.
   */
  lemma BinaryAgreesIff(m: Mode, vec: seq<Cell>, live: seq<Fde>)
    requires Searchable(m, vec, live) && forall c :: c in vec ==> c.Elem?
    ensures (forall pc :: 0 <= pc < ADDRESS_SPACE ==> Agrees(m, vec, live, pc))
            <==> (forall f :: f in live ==> End(m.bases, f) < ADDRESS_SPACE)
  {
    if f :| f in live && End(m.bases, f) == ADDRESS_SPACE {
      var pc := Begin(m.bases, f);
      CoversIsInterval(m.bases, f, pc);
      BinaryFindCovers(m, vec, live, pc, 0, |vec|);
      assert NaiveFind(m.bases, live, pc).Some?;
      if BinaryFind(m, vec, pc, 0, |vec|).Some? {
        CoverIsUnique(m.bases, live, f, BinaryFind(m, vec, pc, 0, |vec|).value, pc);
      }
      assert !Agrees(m, vec, live, pc);
    } else {
      forall pc | 0 <= pc < ADDRESS_SPACE ensures Agrees(m, vec, live, pc) {
        BinaryAgrees(m, vec, live, pc);
      }
    }
  }

  /** A one-byte function at the very top of memory is found by the scan and missed by the index. */
  lemma TopFunctionIsMissed()
    ensures var f := Fde(64, Cie(16, ABSPTR), TOP + ADDRESS_SPACE);
            var m := Mode(false, ABSPTR, Bases(0, 0));
            && WellEncoded([f]) && Separated(m.bases, [f], ADDRESS_SPACE)
            && NaiveFind(m.bases, [f], TOP) == Some(f)
            && BinaryFind(m, [Elem(f)], TOP, 0, 1) == None
  {
    var f := Fde(64, Cie(16, ABSPTR), TOP + ADDRESS_SPACE);
    assert f.payload % ADDRESS_SPACE == TOP && f.payload / ADDRESS_SPACE == 1;
    assert [f][0] == f;
  }
}
