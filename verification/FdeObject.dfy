/**
 A registered object: classification of its FDEs, building of its sorted index, and search. The
 index is built when memory allows; a search must give the same answer either way.
 */
module FdeObject {
  import opened Options
  import opened FdeModel
  import opened FdeSort
  import opened FdeSearch

  /** The object's union: the registered source, or the sorted vector that replaced it and remembers it. */
  datatype Data = Raw(source: Source) | Sort(vec: seq<Cell>, origData: Source)

  /** What a registration hands over for good: the source and the bases it is read with. */
  datatype Unit = Unit(source: Source, bases: Bases)

  /** The width of the object's count field. */
  const COUNT_LIMIT := 0x20_0000

  // ----- what classification must find out about the FDEs `s` -----

  ghost predicate Summarises(m: Mode, pcBegin: nat, s: seq<Fde>)
    requires WellEncoded(s)
  {
    && pcBegin == MinBegin(m.bases, s)
    && (s == [] ==> m.encoding == Omit && !m.mixed)
    && (s != [] ==> m.encoding == s[0].cie.encoding)
    && (m.mixed <==> exists f :: f in s && f.cie.encoding != m.encoding)
  }

  /** The flags found by classification tell every reader how to read every FDE. */
  lemma SummarySuits(m: Mode, pcBegin: nat, s: seq<Fde>)
    requires WellEncoded(s) && Summarises(m, pcBegin, s)
    ensures Suits(m, s)
  {
  }

  lemma SummaryStep(m: Mode, pcBegin: nat, s: seq<Fde>, f: Fde)
    requires WellEncoded(s) && f.cie.encoding.Enc? && Summarises(m, pcBegin, s)
    ensures WellEncoded(s + [f])
    ensures var first := m.encoding == Omit;
            var m' := Mode(m.mixed || (!first && m.encoding != f.cie.encoding),
                           if first then f.cie.encoding else m.encoding, m.bases);
            var b := Begin(m.bases, f);
            Summarises(m', if Live(m.bases, f) && b < pcBegin then b else pcBegin, s + [f])
  {
    hide Begin, NonNull;
    assert (s + [f])[..|s + [f]| - 1] == s;
    assert forall g :: g in s + [f] <==> g in s || g == f;
    if s != [] {
      assert s[0] in s;
      assert (s + [f])[0] == s[0];
    }
  }

  lemma NothingYet(bases: Bases, done: seq<Fde>, pc: nat)
    requires WellEncoded(done)
    ensures Fdes([]) == [] && FdesOfLists([]) == [] && done + [] == done
    ensures WellEncoded([]) && LiveOf(bases, []) == [] && NaiveFind(bases, [], pc) == None
  {
  }

  lemma WellEncodedStep(all: seq<Fde>, done: seq<Fde>, here: seq<Fde>, f: Fde)
    requires WellEncoded(all) && WellEncoded(done) && WellEncoded(here) && forall g :: g in here + [f] ==> g in all
    ensures f.cie.encoding.Enc? && WellEncoded(here + [f]) && WellEncoded(done + (here + [f]))
  {
    assert f in here + [f];
  }

  /** Classifying an already classified object again changes nothing. */
  lemma SummaryIdempotent(m: Mode, pcBegin: nat, s: seq<Fde>)
    requires WellEncoded(s) && WellEncoded(s + s) && Summarises(m, pcBegin, s + s)
    ensures Summarises(m, pcBegin, s)
  {
    assert forall g :: g in s + s <==> g in s;
    var b := MinBegin(m.bases, s);
  }

  // ----- add_fdes -----

  lemma ElemsStep(s: seq<Fde>, f: Fde)
    ensures Elems(s + [f]) == Elems(s) + [Elem(f)]
  {
  }

  /** Appends the live FDEs of one section to the accumulator, which classification has made large enough. */
  method AddFdes(m: Mode, entries: seq<Entry>, linear: array<Cell>, start: nat) returns (n: nat)
    requires WellEncoded(Fdes(entries)) && Suits(m, Fdes(entries))
    requires start + |LiveOf(m.bases, Fdes(entries))| <= linear.Length
    modifies linear
    ensures n == start + |LiveOf(m.bases, Fdes(entries))|
    ensures linear[..n] == old(linear[..start]) + Elems(LiveOf(m.bases, Fdes(entries)))
  {
    hide Fdes, LiveOf, ReadAs, LiveAs, RangeAs, Live, Begin, Length, WellEncoded, Suits, Elems;
    var lastCie: Option<Cie> := None;
    var e := m.encoding;
    ghost var here := [];
    n := start;
    NothingYet(m.bases, [], 0);
    NoElems();
    for i := 0 to |entries|
      invariant here == Fdes(entries[..i]) && WellEncoded(here)
      invariant lastCie.Some? ==> e == lastCie.value.encoding
      invariant !m.mixed ==> e == m.encoding
      invariant n == start + |LiveOf(m.bases, here)| <= linear.Length
      invariant linear[..n] == old(linear[..start]) + Elems(LiveOf(m.bases, here))
    {
      if entries[i].FdeEntry? {
        var f := entries[i].fde;
        AppendStep(m, entries, i);
        if m.mixed && Some(f.cie) != lastCie {
          lastCie, e := Some(f.cie), f.cie.encoding;
        }
        if LiveAs(e, ReadAs(e, m.bases, f)) {
          linear[n] := Elem(f);
          n := n + 1;
          assert linear[..n] == linear[..n - 1] + [Elem(f)];
        }
        here := here + [f];
      } else {
        FdesStep(entries, i);
      }
    }
    assert entries[..|entries|] == entries;
  }

  /** One more FDE: it is appended exactly if it is live, and there is room for it. */
  lemma AppendStep(m: Mode, entries: seq<Entry>, i: nat)
    requires WellEncoded(Fdes(entries)) && Suits(m, Fdes(entries)) && i < |entries| && entries[i].FdeEntry?
    requires WellEncoded(Fdes(entries[..i]))
    ensures var f, here := entries[i].fde, Fdes(entries[..i]);
            var live := LiveAs(EncodingOf(m, f), ReadAs(EncodingOf(m, f), m.bases, f));
            && Fdes(entries[..i + 1]) == here + [f] && WellEncoded(here + [f])
            && |LiveOf(m.bases, here)| + (if live then 1 else 0) == |LiveOf(m.bases, here + [f])|
            && |LiveOf(m.bases, here + [f])| <= |LiveOf(m.bases, Fdes(entries))|
            && Elems(LiveOf(m.bases, here + [f]))
               == if live then Elems(LiveOf(m.bases, here)) + [Elem(f)] else Elems(LiveOf(m.bases, here))
  {
    hide Fdes, LiveOf, ReadAs, LiveAs, RangeAs, Live, Begin, Length, WellEncoded, Suits, Elems;
    var f, here, all := entries[i].fde, Fdes(entries[..i]), Fdes(entries);
    FdesStep(entries, i);
    WellEncodedStep(all, [], here, f);
    LiveOfStep(m.bases, here, f);
    LivePrefix(m.bases, entries, i + 1);
    ElemsStep(LiveOf(m.bases, here), f);
    assert f in here + [f];
    ReadsOwnEncoding(m, all, f);
  }

  lemma NoElems()
    ensures Elems([]) == []
  {
  }

  lemma LivePrefix(bases: Bases, entries: seq<Entry>, i: nat)
    requires i <= |entries| && WellEncoded(Fdes(entries)) && WellEncoded(Fdes(entries[..i]))
    ensures |LiveOf(bases, Fdes(entries[..i]))| <= |LiveOf(bases, Fdes(entries))|
  {
    hide LiveOf, Fdes;
    FdesConcat(entries[..i], entries[i..]);
    assert entries == entries[..i] + entries[i..];
    assert forall f :: f in Fdes(entries[i..]) ==> f in Fdes(entries);
    LiveOfConcat(bases, Fdes(entries[..i]), Fdes(entries[i..]));
  }

  class Object {
    var pcBegin: nat
    var bases: Bases
    var data: Data
    var sorted: bool
    var fromArray: bool
    var mixed: bool
    var encoding: Encoding
    var count: nat

    constructor () {
      pcBegin, bases, data, sorted := 0, Bases(0, 0), Raw(Single(0, [])), false;
      fromArray, mixed, encoding, count := false, false, Omit, 0;
    }

    /** What was registered, whether or not a sorted vector has taken its place since. */
    ghost function Source(): Source
      reads this
    {
      if data.Raw? then data.source else data.origData
    }

    ghost function All(): seq<Fde>
      reads this
    {
      AllFdes(Source())
    }

    function Flags(): Mode
      reads this
    {
      Mode(mixed, encoding, bases)
    }

    ghost function Registered(): Unit
      reads this
    {
      Unit.Unit(Source(), bases)
    }

    ghost predicate WellFormed()
      reads this
    {
      sorted == data.Sort? && fromArray == Source().Table? && WellEncoded(All())
    }

    /** Registered and not looked at yet. */
    ghost predicate Fresh()
      reads this
    {
      WellFormed() && !sorted && count == 0 && Summarises(Flags(), pcBegin, [])
    }

    ghost function LiveFdes(): seq<Fde>
      requires WellFormed()
      reads this
    {
      LiveOf(bases, All())
    }

    /** Looked at: flags, address and count describe the FDEs, and a vector, if there is one, indexes them. */
    ghost predicate Classified()
      reads this
    {
      && WellFormed() && Summarises(Flags(), pcBegin, All())
      && (count == |LiveFdes()| || count == 0)
      && (sorted ==> Indexes(Flags(), data.vec, LiveFdes()))
    }

    /** Fills in the object that a caller registers. */
    method Reset(source: Source, bases: Bases)
      requires WellEncoded(AllFdes(source))
      modifies this
      ensures Fresh() && Registered() == Unit.Unit(source, bases)
    {
      pcBegin, this.bases, data := TOP, bases, Raw(source);
      sorted, fromArray, mixed, encoding, count := false, source.Table?, false, Omit, 0;
    }

    method ClassifyObjectOverFdes(entries: seq<Entry>, ghost done: seq<Fde>) returns (n: nat)
      requires WellEncoded(done) && WellEncoded(Fdes(entries)) && Summarises(Flags(), pcBegin, done)
      modifies this`pcBegin, this`mixed, this`encoding
      ensures WellEncoded(done + Fdes(entries)) && Summarises(Flags(), pcBegin, done + Fdes(entries))
      ensures n == |LiveOf(bases, Fdes(entries))|
    {
      hide Fdes, LiveOf, Summarises, Decode, NonNull, WellEncoded;
      var lastCie: Option<Cie> := None;
      var e := ABSPTR;
      n := 0;
      ghost var here: seq<Fde> := [];
      NothingYet(bases, done, 0);
      for i := 0 to |entries|
        invariant here == Fdes(entries[..i]) && WellEncoded(here) && WellEncoded(done + here)
        invariant lastCie.Some? ==> e == lastCie.value.encoding && encoding != Omit && (encoding == e || mixed)
        invariant Summarises(Flags(), pcBegin, done + here) && n == |LiveOf(bases, here)|
      {
        FdesStep(entries, i);
        if entries[i].FdeEntry? {
          var f := entries[i].fde;
          WellEncodedStep(Fdes(entries), done, here, f);
          SummaryStep(Flags(), pcBegin, done + here, f);
          assert done + here + [f] == done + (here + [f]);
          LiveOfStep(bases, here, f);
          if Some(f.cie) != lastCie {
            lastCie, e := Some(f.cie), f.cie.encoding;
            if encoding == Omit {
              encoding := e;
            } else if encoding != e {
              mixed := true;
            }
          }
          var begin := Decode(e, bases, f);
          if NonNull(e, begin) {
            n := n + 1;
            if begin < pcBegin {
              pcBegin := begin;
            }
          }
          here := here + [f];
        }
      }
      assert entries[..|entries|] == entries;
    }

    /** Classifies every section of the object. */
    method ClassifyAll(ghost done: seq<Fde>) returns (n: nat)
      requires WellFormed() && data.Raw? && WellEncoded(done) && Summarises(Flags(), pcBegin, done)
      modifies this`pcBegin, this`mixed, this`encoding
      ensures WellEncoded(done + All()) && Summarises(Flags(), pcBegin, done + All())
      ensures n == |LiveFdes()|
    {
      hide Summarises, LiveOf, WellEncoded, Fdes, FdesOfLists;
      if fromArray {
        var lists := data.source.lists;
        n := 0;
        NothingYet(bases, done, 0);
        for p := 0 to |lists|
          invariant WellEncoded(FdesOfLists(lists[..p])) && WellEncoded(done + FdesOfLists(lists[..p]))
          invariant Summarises(Flags(), pcBegin, done + FdesOfLists(lists[..p]))
          invariant n == |LiveOf(bases, FdesOfLists(lists[..p]))|
        {
          ghost var here := FdesOfLists(lists[..p]);
          ListsStep(lists, p);
          SectionEncoded(lists, p);
          var k := ClassifyObjectOverFdes(lists[p], done + here);
          assert done + here + Fdes(lists[p]) == done + (here + Fdes(lists[p]));
          LiveOfConcat(bases, here, Fdes(lists[p]));
          n := n + k;
        }
        assert lists[..|lists|] == lists;
      } else {
        n := ClassifyObjectOverFdes(data.source.entries, done);
      }
    }

    /** Accumulates the live FDEs of every section of the object. */
    method AddAll(linear: array<Cell>) returns (n: nat)
      requires WellFormed() && data.Raw? && Suits(Flags(), All()) && linear.Length == |LiveFdes()|
      modifies linear
      ensures n == |LiveFdes()| && linear[..n] == Elems(LiveFdes())
    {
      hide LiveOf, WellEncoded, Fdes, FdesOfLists, Suits, Elems;
      if fromArray {
        var lists := data.source.lists;
        n := 0;
        NothingYet(bases, [], 0);
        NoElems();
        for p := 0 to |lists|
          invariant WellEncoded(FdesOfLists(lists[..p]))
          invariant n == |LiveOf(bases, FdesOfLists(lists[..p]))| <= linear.Length
          invariant linear[..n] == Elems(LiveOf(bases, FdesOfLists(lists[..p])))
        {
          ghost var here := FdesOfLists(lists[..p]);
          ListsStep(lists, p);
          SectionEncoded(lists, p);
          SectionSuits(Flags(), lists, p);
          LiveOfConcat(bases, here, Fdes(lists[p]));
          ElemsConcat(LiveOf(bases, here), LiveOf(bases, Fdes(lists[p])));
          LiveListsPrefix(bases, lists, p + 1);
          n := AddFdes(Flags(), lists[p], linear, n);
        }
        assert lists[..|lists|] == lists;
      } else {
        n := AddFdes(Flags(), data.source.entries, linear, 0);
      }
    }

    /**
     Classifies the object if that was not done before and, if memory allows, replaces its source by a
     sorted vector. The number announced to the sort is the number accumulated, so no abort fires.
     */
    method InitObject() returns (aborted: bool)
      requires !sorted && (Fresh() || Classified())
      modifies this
      ensures !aborted && Classified() && Source() == old(Source()) && bases == old(bases)
    {
      aborted := false;
      var n := count;
      if n == 0 {
        n := Classify();
      }
      var linearMemory, erraticMemory := *, *;
      if n == 0 || !linearMemory {
        return;
      }
      aborted := BuildVector(n, erraticMemory);
    }

    method Classify() returns (n: nat)
      requires !sorted && (Fresh() || Classified())
      modifies this`pcBegin, this`mixed, this`encoding, this`count
      ensures Classified() && n == |LiveFdes()|
    {
      hide Summarises, LiveOf, AllFdes;
      ghost var done := if Fresh() then [] else All();
      n := ClassifyAll(done);
      if done == [] {
        assert [] + All() == All();
      } else {
        SummaryIdempotent(Flags(), pcBegin, All());
      }
      count := n % COUNT_LIMIT;
      if count != n {
        count := 0;
      }
    }

    method BuildVector(n: nat, erraticMemory: bool) returns (aborted: bool)
      requires !sorted && Classified() && n == |LiveFdes()|
      modifies this`data, this`sorted
      ensures !aborted && sorted && Classified() && Source() == old(Source())
    {
      hide Summarises, LiveOf, WellEncoded, AllFdes, Suits, Sorted, Elems;
      SummarySuits(Flags(), pcBegin, All());
      var linear := new Cell[n];
      var erratic: array?<Cell> := null;
      if erraticMemory {
        erratic := new Cell[n];
      }
      var k := AddAll(linear);
      aborted := EndFdeSort(Compare(Flags()), linear, k, erratic, n);
      data := Sort(linear[..n], data.source);
      sorted := true;
    }

    /** Looks `pc` up, by index or by scan; either way the answer is the reference one. */
    method SearchObject(pc: nat) returns (r: Option<Fde>)
      requires pc < ADDRESS_SPACE && (Fresh() || Classified()) && Separated(bases, LiveFdes(), TOP)
      modifies this
      ensures Classified() && Source() == old(Source()) && bases == old(bases)
      ensures r == NaiveFind(bases, All(), pc)
    {
      hide NaiveFind, LiveOf, WellEncoded, AllFdes, Summarises, Separated, Indexes;
      if !sorted {
        var _ := InitObject();
        if pc < pcBegin {
          BelowEveryFde(Flags(), pcBegin, All(), pc);
          return None;
        }
      }
      r := SearchClassified(pc);
    }

    method SearchClassified(pc: nat) returns (r: Option<Fde>)
      requires pc < ADDRESS_SPACE && Classified() && Separated(bases, LiveFdes(), TOP)
      ensures r == NaiveFind(bases, All(), pc)
    {
      hide NaiveFind, LiveOf, WellEncoded, Summarises, Separated, Indexes, Fdes, FdesOfLists, Suits;
      SummarySuits(Flags(), pcBegin, All());
      if sorted {
        IndexAnswers(Flags(), data.vec, All(), pc);
        r := BinarySearchFdes(Flags(), data.vec, pc, LiveFdes());
      } else if fromArray {
        r := LinearSearchTable(Flags(), data.source.lists, pc);
      } else {
        r := LinearSearchFdes(Flags(), data.source.entries, pc);
      }
    }
  }

  lemma BelowEveryFde(m: Mode, pcBegin: nat, s: seq<Fde>, pc: nat)
    requires WellEncoded(s) && Summarises(m, pcBegin, s) && Separated(m.bases, LiveOf(m.bases, s), TOP)
    requires pc < pcBegin
    ensures NaiveFind(m.bases, s, pc) == None
  {
    forall f | f in s ensures !Covers(m.bases, f, pc) {
      if Live(m.bases, f) {
        CoversIsInterval(m.bases, f, pc);
      }
    }
  }

  lemma IndexAnswers(m: Mode, vec: seq<Cell>, s: seq<Fde>, pc: nat)
    requires WellEncoded(s) && Suits(m, s) && pc < ADDRESS_SPACE
    requires Separated(m.bases, LiveOf(m.bases, s), TOP) && Indexes(m, vec, LiveOf(m.bases, s))
    ensures forall c :: c in vec ==> c.Elem?
    ensures BinaryFind(m, vec, pc, 0, |vec|) == NaiveFind(m.bases, s, pc)
  {
    hide Live, Begin, Length, Indexes, BinaryFind, NaiveFind;
    var live := LiveOf(m.bases, s);
    IndexElements(m, vec, live);
    BinaryAgrees(m, vec, live, pc);
    NaiveFindLive(m.bases, s, pc);
  }

  method LinearSearchTable(m: Mode, lists: seq<seq<Entry>>, pc: nat) returns (r: Option<Fde>)
    requires WellEncoded(FdesOfLists(lists)) && Suits(m, FdesOfLists(lists))
    ensures r == NaiveFind(m.bases, FdesOfLists(lists), pc)
  {
    hide NaiveFind, LiveOf, WellEncoded, Fdes, FdesOfLists, Suits;
    NothingYet(m.bases, [], pc);
    for p := 0 to |lists|
      invariant WellEncoded(FdesOfLists(lists[..p])) && NaiveFind(m.bases, FdesOfLists(lists[..p]), pc) == None
    {
      SectionEncoded(lists, p);
      SectionSuits(m, lists, p);
      ListsStep(lists, p);
      NaiveFindConcat(m.bases, FdesOfLists(lists[..p]), Fdes(lists[p]), pc);
      r := LinearSearchFdes(m, lists[p], pc);
      if r.Some? {
        FoundInPrefix(m.bases, lists, p + 1, pc);
        return;
      }
    }
    assert lists[..|lists|] == lists;
    r := None;
  }

  lemma FoundInPrefix(bases: Bases, lists: seq<seq<Entry>>, p: nat, pc: nat)
    requires p <= |lists| && WellEncoded(FdesOfLists(lists)) && WellEncoded(FdesOfLists(lists[..p]))
    requires NaiveFind(bases, FdesOfLists(lists[..p]), pc).Some?
    ensures NaiveFind(bases, FdesOfLists(lists), pc) == NaiveFind(bases, FdesOfLists(lists[..p]), pc)
  {
    hide NaiveFind, FdesOfLists;
    ListsPrefix(lists, p);
    var rest :| FdesOfLists(lists) == FdesOfLists(lists[..p]) + rest;
    assert forall f :: f in rest ==> f in FdesOfLists(lists);
    NaiveFindConcat(bases, FdesOfLists(lists[..p]), rest, pc);
  }

  lemma ListsStep(lists: seq<seq<Entry>>, p: nat)
    requires p < |lists|
    ensures FdesOfLists(lists[..p + 1]) == FdesOfLists(lists[..p]) + Fdes(lists[p])
  {
    assert lists[..p + 1][..p] == lists[..p];
  }

  lemma {:induction false} ListsPrefix(lists: seq<seq<Entry>>, p: nat)
    requires p <= |lists|
    ensures exists rest :: FdesOfLists(lists) == FdesOfLists(lists[..p]) + rest
    decreases |lists| - p
  {
    if p == |lists| {
      assert lists[..p] == lists;
      assert FdesOfLists(lists) == FdesOfLists(lists[..p]) + [];
    } else {
      ListsPrefix(lists, p + 1);
      var rest :| FdesOfLists(lists) == FdesOfLists(lists[..p + 1]) + rest;
      ListsStep(lists, p);
      assert FdesOfLists(lists) == FdesOfLists(lists[..p]) + (Fdes(lists[p]) + rest);
    }
  }

  lemma SectionEncoded(lists: seq<seq<Entry>>, p: nat)
    requires p < |lists| && WellEncoded(FdesOfLists(lists))
    ensures WellEncoded(FdesOfLists(lists[..p])) && WellEncoded(Fdes(lists[p]))
    ensures WellEncoded(FdesOfLists(lists[..p + 1]))
  {
    ListsPrefix(lists, p + 1);
    var rest :| FdesOfLists(lists) == FdesOfLists(lists[..p + 1]) + rest;
    ListsStep(lists, p);
  }

  lemma SectionSuits(m: Mode, lists: seq<seq<Entry>>, p: nat)
    requires p < |lists| && Suits(m, FdesOfLists(lists))
    ensures Suits(m, Fdes(lists[p]))
  {
    ListsPrefix(lists, p + 1);
    var rest :| FdesOfLists(lists) == FdesOfLists(lists[..p + 1]) + rest;
    ListsStep(lists, p);
  }

  lemma LiveListsPrefix(bases: Bases, lists: seq<seq<Entry>>, p: nat)
    requires p <= |lists| && WellEncoded(FdesOfLists(lists)) && WellEncoded(FdesOfLists(lists[..p]))
    ensures |LiveOf(bases, FdesOfLists(lists[..p]))| <= |LiveOf(bases, FdesOfLists(lists))|
  {
    hide LiveOf, FdesOfLists;
    ListsPrefix(lists, p);
    var rest :| FdesOfLists(lists) == FdesOfLists(lists[..p]) + rest;
    assert forall f :: f in rest ==> f in FdesOfLists(lists);
    LiveOfConcat(bases, FdesOfLists(lists[..p]), rest);
  }

  lemma ElemsConcat(a: seq<Fde>, b: seq<Fde>)
    ensures Elems(a + b) == Elems(a) + Elems(b)
  {
  }
}
