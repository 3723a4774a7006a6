/**
 The registry of unwind information: objects are pushed on the unseen list when they register, and
 moved to the seen list, which is kept in descending order of pc_begin, by the first lookup that
 reaches them.
 */
module FdeRegistry {
  import opened Options
  import opened FdeModel
  import opened FdeObject

  // ----- what callers must guarantee about the units they register -----

  /** Decodable, and its live FDEs are nonempty, do not overlap, and end below the top of memory. */
  ghost predicate Sound(u: Unit) {
    WellEncoded(AllFdes(u.source)) && Separated(u.bases, LiveOf(u.bases, AllFdes(u.source)), TOP)
  }

  ghost function Low(u: Unit): nat
    requires Sound(u)
  {
    MinBegin(u.bases, AllFdes(u.source))
  }

  ghost predicate Below(u: Unit, v: Unit)
    requires Sound(u) && Sound(v)
  {
    forall f :: f in AllFdes(u.source) && Live(u.bases, f) ==> End(u.bases, f) <= Low(v)
  }

  /** The code of one unit lies entirely below the other's, and their keys differ. */
  ghost predicate Compatible(u: Unit, v: Unit) {
    Sound(u) && Sound(v) && (Below(u, v) || Below(v, u)) && u.source.addr != v.source.addr
  }

  /** An empty section is not registered; a table always is. */
  predicate Accepted(u: Unit) {
    u.source.Table? || (u.source.addr != 0 && u.source.entries != [])
  }

  /** `word` is the first word of the memory registered: the length of a record, or a pointer of the table. */
  predicate FirstWord(source: Source, word: nat) {
    word != 0 <==> (if source.Table? then source.lists != [] else source.entries != [])
  }

  predicate EmptyTable(source: Source) {
    source.Table? && source.lists == []
  }

  ghost function Answer(u: Unit, pc: nat): Option<Fde>
    requires Sound(u)
  {
    NaiveFind(u.bases, AllFdes(u.source), pc)
  }

  lemma AnswerLies(u: Unit, pc: nat)
    requires Sound(u) && pc < ADDRESS_SPACE && Answer(u, pc).Some?
    ensures var f := Answer(u, pc).value;
            && f in AllFdes(u.source) && f.cie.encoding.Enc? && Live(u.bases, f)
            && Low(u) <= Begin(u.bases, f) <= pc < End(u.bases, f) <= TOP
  {
    var f := Answer(u, pc).value;
    CoversIsInterval(u.bases, f, pc);
    assert f in LiveOf(u.bases, AllFdes(u.source));
  }

  /** The seen unit with the highest pc_begin not above pc is the only one that can answer. */
  lemma OthersMiss(u: Unit, v: Unit, pc: nat)
    requires Compatible(u, v) && pc < ADDRESS_SPACE && Low(v) <= Low(u) <= pc
    ensures Answer(v, pc) == None
  {
    if Answer(v, pc).Some? {
      AnswerLies(v, pc);
    }
  }

  /** Two compatible units never both answer. */
  lemma OneAnswers(u: Unit, v: Unit, pc: nat)
    requires Compatible(u, v) && pc < ADDRESS_SPACE && Answer(u, pc).Some?
    ensures Answer(v, pc) == None
  {
    AnswerLies(u, pc);
    if Answer(v, pc).Some? {
      AnswerLies(v, pc);
    }
  }

  // ----- the two lists -----

  /** What _Unwind_Find_FDE reports: the FDE, the bases of its object and the start of its function. */
  datatype Hit = Hit(fde: Fde, bases: Bases, func: nat)

  ghost function HitOf(u: Unit, f: Fde): Hit
    requires f.cie.encoding.Enc?
  {
    Hit(f, u.bases, Begin(u.bases, f))
  }

  /** The unit has an FDE for `pc`, reported as `h`. */
  ghost predicate Owns(u: Unit, pc: nat, h: Hit) {
    Sound(u) && h.fde.cie.encoding.Enc? && Answer(u, pc) == Some(h.fde) && h == HitOf(u, h.fde)
  }

  ghost predicate Mute(u: Unit, pc: nat) {
    Sound(u) && Answer(u, pc) == None
  }

  lemma SoundIsEncoded(u: Unit)
    requires Sound(u)
    ensures WellEncoded(AllFdes(u.source))
  {
  }

  lemma CompatibleSymmetric(u: Unit, v: Unit)
    ensures Compatible(u, v) <==> Compatible(v, u)
  {
  }

  ghost predicate Distinct(s: seq<Object>) {
    forall i, j :: 0 <= i < j < |s| ==> s[i] != s[j]
  }

  ghost predicate Descends(s: seq<Object>)
    reads s
  {
    forall i, j :: 0 <= i < j < |s| ==> s[i].pcBegin >= s[j].pcBegin
  }

  class Registry {
    var unseen: seq<Object>
    var seen: seq<Object>

    ghost predicate Valid()
      reads this, unseen, seen
    {
      Separate() && UnseenFresh() && SeenClassified() && Descending() && AllCompatible() && AllAccepted()
    }

    ghost predicate AllAccepted()
      reads this, unseen, seen
    {
      forall o :: o in Objects() ==> Accepted(o.Registered())
    }

    /** No object is listed twice. */
    ghost predicate Separate()
      reads this
    {
      Distinct(unseen) && Distinct(seen) && forall o :: o in unseen ==> o !in seen
    }

    ghost predicate UnseenFresh()
      reads this, unseen
    {
      forall o :: o in unseen ==> o.Fresh() && Sound(o.Registered())
    }

    ghost predicate SeenClassified()
      reads this, seen
    {
      forall o :: o in seen ==> o.Classified() && Sound(o.Registered())
    }

    ghost predicate Descending()
      reads this, seen
    {
      Descends(seen)
    }

    ghost predicate AllCompatible()
      reads this, unseen, seen
    {
      forall o, p :: o in Objects() && p in Objects() && o != p ==> Compatible(o.Registered(), p.Registered())
    }

    ghost function Objects(): set<Object>
      reads this
    {
      (set o | o in unseen) + (set o | o in seen)
    }

    constructor ()
      ensures Valid() && Objects() == {}
    {
      unseen, seen := [], [];
    }

    /** Pushes an object that the caller provides on the unseen list, unless its section is empty. */
    method RegisterFrameInfo(ob: Object, source: Source, bases: Bases)
      requires Valid() && ob !in Objects() && source.Single?
      requires Sound(Unit(source, bases))
      requires forall o :: o in Objects() ==> Compatible(o.Registered(), Unit(source, bases))
      modifies this`unseen, ob
      ensures Valid() && seen == old(seen)
      ensures source.addr == 0 || source.entries == [] ==> Objects() == old(Objects()) && unchanged(ob)
      ensures source.addr != 0 && source.entries != [] ==>
                Objects() == old(Objects()) + {ob} && ob.Registered() == Unit(source, bases)
    {
      if source.addr == 0 || source.entries == [] {
        return;
      }
      Push(ob, source, bases);
    }

    /** As above for a table of sections, which is never checked for being empty. */
    method RegisterFrameInfoTable(ob: Object, source: Source, bases: Bases)
      requires Valid() && ob !in Objects() && source.Table?
      requires Sound(Unit(source, bases))
      requires forall o :: o in Objects() ==> Compatible(o.Registered(), Unit(source, bases))
      modifies this`unseen, ob
      ensures Valid() && seen == old(seen)
      ensures Objects() == old(Objects()) + {ob} && ob.Registered() == Unit(source, bases)
    {
      Push(ob, source, bases);
    }

    method Push(ob: Object, source: Source, bases: Bases)
      requires Valid() && ob !in Objects() && Sound(Unit(source, bases)) && Accepted(Unit(source, bases))
      requires forall o :: o in Objects() ==> Compatible(o.Registered(), Unit(source, bases))
      modifies this`unseen, ob
      ensures Valid() && seen == old(seen)
      ensures Objects() == old(Objects()) + {ob} && ob.Registered() == Unit(source, bases)
    {
      hide Sound, Compatible, Object.Fresh, Object.Classified, Object.Registered, AllFdes, WellEncoded;
      SoundIsEncoded(Unit(source, bases));
      ghost var objects := Objects();
      forall o | o in objects ensures Compatible(Unit(source, bases), o.Registered()) {
        CompatibleSymmetric(Unit(source, bases), o.Registered());
      }
      ob.Reset(source, bases);
      assert forall o :: o in objects ==> o.Registered() == old(o.Registered());
      unseen := [ob] + unseen;
      assert Objects() == objects + {ob} && ob !in objects;
    }

    // ----- lookup -----

    /** `ob` answers `pc` with the hit `h`. */
    ghost predicate Answers(ob: Object, pc: nat, h: Hit)
      reads ob
    {
      Owns(ob.Registered(), pc, h)
    }

    ghost predicate Silent(ob: Object, pc: nat)
      reads ob
    {
      Mute(ob.Registered(), pc)
    }

    method SearchOne(ob: Object, pc: nat) returns (r: Option<Hit>)
      requires Sound(ob.Registered()) && (ob.Fresh() || ob.Classified()) && pc < ADDRESS_SPACE
      modifies ob
      ensures ob.Classified() && ob.Registered() == old(ob.Registered())
      ensures Sound(ob.Registered()) && ob.pcBegin == Low(ob.Registered())
      ensures if r.Some? then Answers(ob, pc, r.value) else Silent(ob, pc)
    {
      hide LiveOf, AllFdes, NaiveFind, WellEncoded, Separated, MinBegin, ReadAs, Begin, Suits;
      var f := ob.SearchObject(pc);
      if f.None? {
        return None;
      }
      SummarySuits(ob.Flags(), ob.pcBegin, ob.All());
      ReadsOwnEncoding(ob.Flags(), ob.All(), f.value);
      SoundIsEncoded(ob.Registered());
      AnswerLies(ob.Registered(), pc);
      r := Some(Hit(f.value, ob.bases, ReadBegin(ob.Flags(), f.value)));
    }

    lemma ClassifiedLow(ob: Object)
      requires ob.Classified() && Sound(ob.Registered())
      ensures ob.pcBegin == Low(ob.Registered())
    {
    }

    lemma BelowIsSilent(ob: Object, pc: nat)
      requires ob.Classified() && Sound(ob.Registered()) && pc < ob.pcBegin && pc < ADDRESS_SPACE
      ensures Silent(ob, pc)
    {
      ClassifiedLow(ob);
      if Answer(ob.Registered(), pc).Some? {
        AnswerLies(ob.Registered(), pc);
      }
    }

    /** When the first candidate is silent, so is every seen object. */
    lemma CandidateDecides(i: nat, pc: nat)
      requires Valid() && pc < ADDRESS_SPACE && i <= |seen|
      requires forall j :: 0 <= j < i ==> pc < seen[j].pcBegin
      requires i < |seen| ==> seen[i].pcBegin <= pc && Silent(seen[i], pc)
      ensures forall o :: o in seen ==> Silent(o, pc)
    {
      hide Sound, Compatible, Object.Fresh, Object.Classified, Object.Registered, Answer, Silent, Low;
      forall j | 0 <= j < |seen| ensures Silent(seen[j], pc) {
        if j < i {
          BelowIsSilent(seen[j], pc);
        } else if j > i {
          ClassifiedLow(seen[i]);
          ClassifiedLow(seen[j]);
          OtherIsSilent(seen[i], seen[j], pc);
        }
      }
    }

    lemma OtherIsSilent(ob: Object, other: Object, pc: nat)
      requires Compatible(ob.Registered(), other.Registered()) && pc < ADDRESS_SPACE
      requires Low(other.Registered()) <= Low(ob.Registered()) <= pc
      ensures Silent(other, pc)
    {
      OthersMiss(ob.Registered(), other.Registered(), pc);
    }

    /** Searching a seen object leaves the registry as it was. */
    method SearchAt(i: nat, pc: nat) returns (r: Option<Hit>)
      requires Valid() && pc < ADDRESS_SPACE && i < |seen|
      modifies seen[i]
      ensures Valid() && forall j :: 0 <= j < |seen| ==> seen[j].pcBegin == old(seen[j].pcBegin)
      ensures forall o :: o in Objects() ==> o.Registered() == old(o.Registered())
      ensures if r.Some? then Answers(seen[i], pc, r.value) else Silent(seen[i], pc)
    {
      hide Sound, Compatible, Object.Fresh, Object.Classified, Object.Registered, Answers, Silent, Low;
      ClassifiedLow(seen[i]);
      r := SearchOne(seen[i], pc);
    }

    /** Tries the first seen object whose pc_begin is not above `pc`, and no other. */
    method SearchSeen(pc: nat) returns (r: Option<Hit>)
      requires Valid() && pc < ADDRESS_SPACE
      modifies seen
      ensures Valid()
      ensures forall o :: o in Objects() ==> o.Registered() == old(o.Registered())
      ensures r.Some? ==> exists o :: o in seen && Answers(o, pc, r.value)
      ensures r.None? ==> forall o :: o in seen ==> Silent(o, pc)
    {
      hide Registry.Valid, Object.Registered, Answers, Silent;
      for i := 0 to |seen|
        invariant unchanged(seen) && Valid()
        invariant forall j :: 0 <= j < i ==> pc < seen[j].pcBegin
      {
        if pc >= seen[i].pcBegin {
          r := SearchAt(i, pc);
          if r.None? {
            CandidateDecides(i, pc);
          }
          return;
        }
      }
      CandidateDecides(|seen|, pc);
      r := None;
    }

    /** Where an object with the given pc_begin belongs in the seen list. */
    method Place(pcBegin: nat) returns (k: nat)
      requires Descends(seen)
      ensures k <= |seen|
      ensures forall j :: 0 <= j < k ==> seen[j].pcBegin >= pcBegin
      ensures forall j :: k <= j < |seen| ==> seen[j].pcBegin < pcBegin
    {
      k := 0;
      while k < |seen| && seen[k].pcBegin >= pcBegin
        invariant k <= |seen|
        invariant forall j :: 0 <= j < k ==> seen[j].pcBegin >= pcBegin
      {
        k := k + 1;
      }
    }

    /** Searches the first unseen object and moves it to its place among the seen ones. */
    method SearchNext(pc: nat) returns (r: Option<Hit>)
      requires Valid() && pc < ADDRESS_SPACE && unseen != []
      modifies this, unseen[0]
      ensures Valid() && Objects() == old(Objects()) && unseen == old(unseen[1..])
      ensures forall o :: o in Objects() ==> o.Registered() == old(o.Registered())
      ensures forall o :: o in seen <==> o in old(seen) || o == old(unseen[0])
      ensures if r.Some? then Answers(old(unseen[0]), pc, r.value) else Silent(old(unseen[0]), pc)
    {
      hide Sound, Compatible, Object.Fresh, Object.Classified, Object.Registered, Answers, Silent, Low;
      ghost var ob := unseen[0];
      assert unseen == [ob] + unseen[1..];
      r := SearchOne(unseen[0], pc);
      assert forall o :: o in Objects() ==> o.Registered() == old(o.Registered());
      MoveFirst();
    }

    /** Moves the first unseen object, which has been classified, to its place among the seen ones. */
    method MoveFirst()
      requires unseen != [] && Separate() && SeenClassified() && Descending() && AllCompatible() && AllAccepted()
      requires forall o :: o in unseen[1..] ==> o.Fresh() && Sound(o.Registered())
      requires unseen[0].Classified() && Sound(unseen[0].Registered())
      modifies this
      ensures Valid() && Objects() == old(Objects()) && unseen == old(unseen[1..])
      ensures forall o :: o in seen <==> o in old(seen) || o == old(unseen[0])
    {
      hide Sound, Compatible, Accepted, Object.Fresh, Object.Classified, Object.Registered, Descends, Distinct;
      var ob := unseen[0];
      HeadSplits(unseen);
      var k := Place(ob.pcBegin);
      InsertSplits(seen, k, ob);
      unseen, seen := unseen[1..], seen[..k] + [ob] + seen[k..];
      assert Objects() == old(Objects());
    }

    /**
     _Unwind_Find_FDE: reports a hit exactly when some registered object has an FDE for `pc`, and
     neither loses nor alters any registration.
     */
    method FindFde(pc: nat) returns (r: Option<Hit>)
      requires Valid() && pc < ADDRESS_SPACE
      modifies this, Objects()
      ensures Valid() && Objects() == old(Objects())
      ensures forall o :: o in Objects() ==> o.Registered() == old(o.Registered())
      ensures r.Some? ==> exists o :: o in Objects() && Answers(o, pc, r.value)
      ensures r.None? ==> forall o :: o in Objects() ==> Silent(o, pc)
    {
      hide Registry.Valid, Object.Registered, Answers, Silent;
      r := SearchSeen(pc);
      if r.Some? {
        return;
      }
      while unseen != []
        invariant Valid() && Objects() == old(Objects())
        invariant forall o :: o in Objects() ==> o.Registered() == old(o.Registered())
        invariant forall o :: o in seen ==> Silent(o, pc)
        decreases |unseen|
      {
        ghost var ob, rest := unseen[0], unseen[1..];
        assert unseen == [ob] + rest && ob in Objects();
        r := SearchNext(pc);
        if r.Some? {
          return;
        }
      }
      r := None;
    }

    // ----- deregistration -----

    /** The key an object was registered under, read from whichever union member is current. */
    function KeyOf(ob: Object): (key: nat)
      reads ob
      ensures key == ob.Registered().source.addr
    {
      if ob.data.Raw? then ob.data.source.addr else ob.data.origData.addr
    }

    /** The position of the object registered under `begin`, or the length of the list. */
    method Position(list: seq<Object>, begin: nat) returns (i: nat)
      ensures i <= |list| && (i < |list| ==> KeyOf(list[i]) == begin)
      ensures forall j :: 0 <= j < i ==> KeyOf(list[j]) != begin
    {
      i := 0;
      while i < |list| && KeyOf(list[i]) != begin
        invariant i <= |list|
        invariant forall j :: 0 <= j < i ==> KeyOf(list[j]) != begin
      {
        i := i + 1;
      }
    }

    /** The memory at `begin` is that of the object registered there, if there is one. */
    ghost predicate MemoryAt(begin: nat, firstWord: nat)
      reads this, unseen, seen
    {
      forall o :: o in Objects() && o.Registered().source.addr == begin ==> FirstWord(o.Registered().source, firstWord)
    }

    /**
     Removes and returns the object registered under `begin`, whether it is still unseen, was scanned,
     or was sorted; aborts exactly when there is none. Nothing happens where the first word is zero,
     which among registered memory is that of an empty table.
     */
    method DeregisterFrameInfo(begin: nat, firstWord: nat) returns (ob: Object?, aborted: bool)
      requires Valid() && MemoryAt(begin, firstWord)
      modifies this
      ensures Valid()
      ensures begin == 0 || firstWord == 0 ==> ob == null && !aborted && unchanged(this)
      ensures begin != 0 && firstWord != 0 ==>
                && (aborted <==> forall o :: o in old(Objects()) ==> o.Registered().source.addr != begin)
                && (aborted ==> ob == null && unchanged(this))
                && (!aborted ==> ob in old(Objects()) && ob.Registered().source.addr == begin
                                 && Objects() == old(Objects()) - {ob})
      ensures forall o :: o in old(Objects()) && o.Registered().source.addr == begin ==>
                (ob == o <==> begin != 0 && !EmptyTable(o.Registered().source))
    {
      hide Registry.Valid, Object.Registered;
      KeysAreDistinct();
      EmptyMeansTable();
      if begin == 0 || firstWord == 0 {
        return null, false;
      }
      ob := Remove(begin);
      aborted := ob == null;
    }

    /** Searches both lists for the key. */
    method Remove(begin: nat) returns (ob: Object?)
      requires Valid()
      modifies this
      ensures Valid()
      ensures ob == null <==> forall o :: o in old(Objects()) ==> o.Registered().source.addr != begin
      ensures ob == null ==> unchanged(this)
      ensures ob != null ==> ob in old(Objects()) && ob.Registered().source.addr == begin
      ensures ob != null ==> Objects() == old(Objects()) - {ob}
    {
      hide Sound, Compatible, Accepted, Object.Fresh, Object.Classified, Object.Registered, KeyOf, Descends, Distinct;
      var i := Position(unseen, begin);
      if i < |unseen| {
        ob := unseen[i];
        DropSplits(unseen, i);
        unseen := unseen[..i] + unseen[i + 1..];
        assert Objects() == old(Objects()) - {ob};
        return;
      }
      i := Position(seen, begin);
      if i < |seen| {
        ob := seen[i];
        DropSplits(seen, i);
        seen := seen[..i] + seen[i + 1..];
        assert Objects() == old(Objects()) - {ob};
        return;
      }
      return null;
    }

    lemma KeysAreDistinct()
      requires Valid()
      ensures forall o, p :: o in Objects() && p in Objects() && o != p ==>
                o.Registered().source.addr != p.Registered().source.addr
    {
    }

    /** Registered memory whose first word is zero is an empty table. */
    lemma EmptyMeansTable()
      requires Valid()
      ensures forall o, word :: o in Objects() && FirstWord(o.Registered().source, word) ==>
                (word == 0 <==> EmptyTable(o.Registered().source))
    {
      hide Sound, Compatible, Object.Fresh, Object.Classified;
    }
  }

  lemma HeadSplits(s: seq<Object>)
    requires s != [] && Distinct(s)
    ensures Distinct(s[1..]) && s[0] !in s[1..] && forall o :: o in s <==> o in s[1..] || o == s[0]
  {
    assert s == [s[0]] + s[1..];
  }

  lemma InsertSplits(s: seq<Object>, k: nat, ob: Object)
    requires k <= |s| && Distinct(s) && ob !in s && Descends(s)
    requires forall j :: 0 <= j < k ==> s[j].pcBegin >= ob.pcBegin
    requires forall j :: k <= j < |s| ==> s[j].pcBegin < ob.pcBegin
    ensures var t := s[..k] + [ob] + s[k..];
            Distinct(t) && Descends(t) && forall o :: o in t <==> o in s || o == ob
  {
    assert s == s[..k] + s[k..];
  }

  lemma DropSplits(s: seq<Object>, i: nat)
    requires i < |s| && Distinct(s)
    ensures var t := s[..i] + s[i + 1..];
            Distinct(t) && (Descends(s) ==> Descends(t)) && forall o :: o in t <==> o in s && o != s[i]
  {
    assert s == s[..i] + [s[i]] + s[i + 1..];
  }
}
