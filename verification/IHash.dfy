/**
 The integer-keyed hash table: open addressing with linear probing. Removing an entry leaves a
 tombstone that keeps its stale key, and a full table is replaced by one of twice the size.
 */
module IHash {
  import opened Powers

  /** The two values reserved by the implementation. */
  const EMPTY: nat := 0
  const DELETED: nat := 0xFFFF_FFFF

  const MIN_SIZE: nat := 32
  const MAX_LOAD_DEFAULT: nat := 96
  const ENOMEM := 12

  datatype Item = Item(value: nat, key: nat)

  predicate Legal(value: nat) {
    value != EMPTY && value != DELETED
  }

  predicate Live(it: Item) {
    Legal(it.value)
  }

  // ----- probing -----

  /** Where a key's probe sequence starts; the size is a power of two, so masking is taking the remainder. */
  function Home(key: nat, size: nat): (h: nat)
    requires size > 0
    ensures h < size
  {
    key % size
  }

  function Next(i: nat, size: nat): (j: nat)
    requires i < size
    ensures j < size
  {
    if i + 1 == size then 0 else i + 1
  }

  /** How many probes it takes to get from slot `h` to slot `i`. */
  function Dist(h: nat, i: nat, size: nat): (d: nat)
    requires h < size && i < size
    ensures d < size
  {
    if i >= h then i - h else i + size - h
  }

  /** A probe for `key` ends at an EMPTY slot and at any slot, live or dead, that holds the key. */
  predicate Stops(items: seq<Item>, key: nat, i: nat)
    requires i < |items|
  {
    items[i].value == EMPTY || items[i].key == key
  }

  /** No slot between the start of the key's probe sequence and slot `i` ends it. */
  ghost predicate Clear(items: seq<Item>, key: nat, i: nat)
    requires i < |items|
  {
    forall j :: 0 <= j < |items| && Dist(Home(key, |items|), j, |items|) < Dist(Home(key, |items|), i, |items|)
                ==> !Stops(items, key, j)
  }

  /** Where a probe for `key` ends: at the first slot that stops it, or back at the start when none does. */
  ghost predicate ProbeEnd(items: seq<Item>, key: nat, idx: nat) {
    && idx < |items| && Clear(items, key, idx)
    && (Stops(items, key, idx)
        || (idx == Home(key, |items|) && forall j :: 0 <= j < |items| ==> !Stops(items, key, j)))
  }

  /** The probe sequence of every live key leads to its slot. */
  ghost predicate Reachable(items: seq<Item>) {
    forall i :: 0 <= i < |items| && Live(items[i]) ==> Clear(items, items[i].key, i)
  }

  /** The live slots are exactly the bindings of `m`. */
  ghost predicate Holds(items: seq<Item>, m: map<nat, nat>) {
    && (forall i :: 0 <= i < |items| && Live(items[i]) ==> items[i].key in m && m[items[i].key] == items[i].value)
    && (forall k :: k in m ==> exists i :: 0 <= i < |items| && Live(items[i]) && items[i].key == k)
  }

  ghost function LiveSlots(items: seq<Item>): set<nat> {
    set i | 0 <= i < |items| && Live(items[i])
  }

  /** The table invariant. */
  ghost predicate Table(items: seq<Item>, nrItems: nat, m: map<nat, nat>) {
    Reachable(items) && Holds(items, m) && nrItems == |LiveSlots(items)|
  }

  /** Two live slots never hold the same key. */
  lemma LiveKeyUnique(items: seq<Item>, i: nat, j: nat)
    requires Reachable(items) && i < |items| && j < |items|
    requires Live(items[i]) && Live(items[j]) && items[i].key == items[j].key
    ensures i == j
  {
    assert Stops(items, items[i].key, i) && Stops(items, items[i].key, j);
  }

  /** A probe ends at a live slot of its key exactly when the table binds the key. */
  lemma ProbeFinds(items: seq<Item>, m: map<nat, nat>, key: nat, idx: nat)
    requires Reachable(items) && Holds(items, m) && ProbeEnd(items, key, idx)
    ensures Live(items[idx]) && items[idx].key == key <==> key in m
    ensures key in m ==> m[key] == items[idx].value
  {
    if key in m {
      var i :| 0 <= i < |items| && Live(items[i]) && items[i].key == key;
      assert Stops(items, key, i);
      assert i == idx;
    }
  }

  lemma {:induction false} SlotsBound(items: seq<Item>)
    ensures |LiveSlots(items)| <= |items|
    ensures |LiveSlots(items)| < |items| ==> exists i :: 0 <= i < |items| && !Live(items[i])
  {
    if items == [] {
      assert LiveSlots(items) == {};
    } else {
      var n := |items| - 1;
      SlotsBound(items[..n]);
      if Live(items[n]) {
        assert LiveSlots(items) == LiveSlots(items[..n]) + {n};
      } else {
        assert LiveSlots(items) == LiveSlots(items[..n]);
      }
    }
  }

  /** Turning a live slot into a tombstone removes exactly its binding. */
  lemma EntryRemoved(items: seq<Item>, nrItems: nat, m: map<nat, nat>, idx: nat)
    requires Table(items, nrItems, m) && idx < |items| && Live(items[idx])
    ensures nrItems > 0 && Table(items[idx := items[idx].(value := DELETED)], nrItems - 1, m - {items[idx].key})
  {
    var key := items[idx].key;
    var t := items[idx := items[idx].(value := DELETED)];
    assert forall k, j :: 0 <= j < |t| ==> Stops(t, k, j) == Stops(items, k, j);
    assert idx in LiveSlots(items);
    assert LiveSlots(t) == LiveSlots(items) - {idx};
    forall k | k in m - {key} ensures exists i :: 0 <= i < |t| && Live(t[i]) && t[i].key == k {
      var i :| 0 <= i < |items| && Live(items[i]) && items[i].key == k;
      assert Live(t[i]) && t[i].key == k;
    }
    forall i | 0 <= i < |t| && Live(t[i]) ensures t[i].key in m - {key} && (m - {key})[t[i].key] == t[i].value {
      if t[i].key == key {
        LiveKeyUnique(items, i, idx);
      }
    }
  }

  lemma PlacedReachable(items: seq<Item>, m: map<nat, nat>, idx: nat, key: nat, value: nat)
    requires Reachable(items) && Holds(items, m) && idx < |items|
    requires key !in m && Clear(items, key, idx) && value != EMPTY
    ensures Reachable(items[idx := Item(value, key)])
  {
    var t := items[idx := Item(value, key)];
    assert forall k, j :: 0 <= j < |t| && j != idx ==> Stops(t, k, j) == Stops(items, k, j);
    assert forall k :: k != key && Stops(t, k, idx) ==> Stops(items, k, idx);
    forall i | 0 <= i < |t| && Live(t[i]) ensures Clear(t, t[i].key, i) {
      assert i != idx ==> Clear(items, items[i].key, i);
    }
  }

  lemma PlacedHolds(items: seq<Item>, m: map<nat, nat>, idx: nat, key: nat, value: nat)
    requires Holds(items, m) && idx < |items| && !Live(items[idx])
    requires key !in m && value != EMPTY && value != DELETED
    ensures Holds(items[idx := Item(value, key)], m[key := value])
  {
    var t := items[idx := Item(value, key)];
    forall k | k in m || k == key ensures exists i :: 0 <= i < |t| && Live(t[i]) && t[i].key == k {
      if k == key {
        assert Live(t[idx]) && t[idx].key == key;
      } else {
        var i :| 0 <= i < |items| && Live(items[i]) && items[i].key == k;
        assert Live(t[i]) && t[i].key == k;
      }
    }
  }

  /** Writing an unbound key into a free slot that its probe sequence reaches adds exactly its binding. */
  lemma EntryPlaced(items: seq<Item>, nrItems: nat, m: map<nat, nat>, idx: nat, key: nat, value: nat)
    requires Table(items, nrItems, m) && idx < |items| && !Live(items[idx])
    requires key !in m && Clear(items, key, idx) && value != EMPTY && value != DELETED
    ensures Table(items[idx := Item(value, key)], nrItems + 1, m[key := value])
  {
    hide Reachable, Holds, Clear;
    PlacedReachable(items, m, idx, key, value);
    PlacedHolds(items, m, idx, key, value);
    assert LiveSlots(items[idx := Item(value, key)]) == LiveSlots(items) + {idx};
  }

  // ----- reserved values -----

  /** The probe sequence of some live key passes over `slot`. */
  ghost predicate Crossed(items: seq<Item>, slot: nat)
    requires slot < |items|
  {
    exists i :: 0 <= i < |items| && Live(items[i]) && Crosses(items, slot, i)
  }

  ghost predicate Crosses(items: seq<Item>, slot: nat, i: nat)
    requires slot < |items| && i < |items|
  {
    Dist(Home(items[i].key, |items|), slot, |items|) < Dist(Home(items[i].key, |items|), i, |items|)
  }

  /**
   A reserved value in a free slot binds nothing, so the key reads as unbound and nr_items is one too
   large; after the value of a tombstone every key still reads right, and after NULL they do exactly
   if no probe sequence passes over the slot.
   */
  lemma ReservedStored(items: seq<Item>, nrItems: nat, m: map<nat, nat>, slot: nat, key: nat, value: nat)
    requires Table(items, nrItems, m) && slot < |items| && !Live(items[slot]) && key !in m
    requires value == EMPTY || value == DELETED
    ensures var t := items[slot := Item(value, key)];
            && Holds(t, m) && LiveSlots(t) == LiveSlots(items) && (Crossed(t, slot) <==> Crossed(items, slot))
            && UniqueKeys(t) && (RightReads(t, m) <==> value == DELETED || !Crossed(t, slot))
  {
    hide Table, Holds, Clear, Crosses, RightReads;
    TableParts(items, nrItems, m);
    var t := items[slot := Item(value, key)];
    ReservedHolds(items, m, slot, key, value);
    forall i | 0 <= i < |items|
      ensures Live(t[i]) == Live(items[i])
      ensures Live(t[i]) ==> (Crosses(t, slot, i) <==> Crosses(items, slot, i))
      ensures Live(t[i]) ==> (Clear(t, t[i].key, i) <==> value == DELETED || !Crosses(t, slot, i))
    {
      if Live(t[i]) {
        ReservedClear(items, m, slot, key, value, i);
      }
    }
    assert LiveSlots(t) == LiveSlots(items);
    TableUnique(items, nrItems, m);
    RightReadsIff(t, m);
  }

  lemma ReservedHolds(items: seq<Item>, m: map<nat, nat>, slot: nat, key: nat, value: nat)
    requires Holds(items, m) && slot < |items| && !Live(items[slot]) && (value == EMPTY || value == DELETED)
    ensures Holds(items[slot := Item(value, key)], m)
  {
    var t := items[slot := Item(value, key)];
    forall k | k in m ensures exists i :: 0 <= i < |t| && Live(t[i]) && t[i].key == k {
      var i :| 0 <= i < |items| && Live(items[i]) && items[i].key == k;
      assert Live(t[i]) && t[i].key == k;
    }
  }

  lemma ReservedClear(items: seq<Item>, m: map<nat, nat>, slot: nat, key: nat, value: nat, i: nat)
    requires Reachable(items) && Holds(items, m) && slot < |items| && !Live(items[slot]) && key !in m
    requires (value == EMPTY || value == DELETED) && i < |items| && i != slot && Live(items[i])
    ensures var t := items[slot := Item(value, key)];
            && (Crosses(t, slot, i) <==> Crosses(items, slot, i))
            && (Clear(t, t[i].key, i) <==> value == DELETED || !Crosses(t, slot, i))
  {
    var t, k := items[slot := Item(value, key)], items[i].key;
    assert Clear(items, k, i) && k in m;
    assert forall j :: 0 <= j < |t| && j != slot ==> Stops(t, k, j) == Stops(items, k, j);
    assert Stops(t, k, slot) <==> value == EMPTY;
  }

  /** A probe ends before a slot that its sequence is not clear up to. */
  lemma EndsBefore(items: seq<Item>, key: nat, i: nat, end: nat)
    requires i < |items| && !Clear(items, key, i) && ProbeEnd(items, key, end)
    ensures end < |items| && Dist(Home(key, |items|), end, |items|) < Dist(Home(key, |items|), i, |items|)
  {
    var j :| 0 <= j < |items| && Stops(items, key, j)
             && Dist(Home(key, |items|), j, |items|) < Dist(Home(key, |items|), i, |items|);
  }

  ghost predicate UniqueKeys(items: seq<Item>) {
    forall i, j :: 0 <= i < j < |items| && Live(items[i]) && Live(items[j]) ==> items[i].key != items[j].key
  }

  /** Then a key is lost: its probe ends before it reaches the key's slot. */
  lemma LostKey(items: seq<Item>, m: map<nat, nat>) returns (k: nat)
    requires Holds(items, m) && !Reachable(items) && UniqueKeys(items)
    ensures k in m && m[k] != EMPTY
    ensures forall e: nat :: ProbeEnd(items, k, e) ==> ReadAt(items, k, e) == EMPTY
  {
    var i :| 0 <= i < |items| && Live(items[i]) && !Clear(items, items[i].key, i);
    k := items[i].key;
    hide Clear, ProbeEnd;
    forall e: nat | ProbeEnd(items, k, e) ensures ReadAt(items, k, e) == EMPTY {
      EndsBefore(items, k, i, e);
      assert e != i;
    }
  }

  // ----- what a probe reads -----

  function ReadAt(items: seq<Item>, key: nat, idx: nat): nat {
    if idx < |items| && Live(items[idx]) && items[idx].key == key then items[idx].value else EMPTY
  }

  function ValueIn(m: map<nat, nat>, key: nat): nat {
    if key in m then m[key] else EMPTY
  }

  /** Every key reads as the map says. */
  ghost predicate RightReads(items: seq<Item>, m: map<nat, nat>) {
    forall k: nat, e: nat :: ProbeEnd(items, k, e) ==> ReadAt(items, k, e) == ValueIn(m, k)
  }

  /** The slot `d` probes after the start of the key's probe sequence. */
  function SlotAt(key: nat, d: nat, size: nat): (i: nat)
    requires d < size
    ensures i < size && Dist(Home(key, size), i, size) == d
  {
    var h := Home(key, size);
    if h + d < size then h + d else h + d - size
  }

  /** Every probe ends somewhere. */
  lemma {:induction false} ProbeExists(items: seq<Item>, key: nat, d: nat) returns (e: nat)
    requires d <= |items| && items != []
    requires forall j :: 0 <= j < |items| && Dist(Home(key, |items|), j, |items|) < d ==> !Stops(items, key, j)
    ensures ProbeEnd(items, key, e)
    decreases |items| - d
  {
    if d == |items| {
      return Home(key, |items|);
    }
    var i := SlotAt(key, d, |items|);
    if Stops(items, key, i) {
      return i;
    }
    assert forall j :: 0 <= j < |items| && Dist(Home(key, |items|), j, |items|) == d ==> j == i;
    e := ProbeExists(items, key, d + 1);
  }

  /** A table reads right exactly when the probe sequence of every live key is whole. */
  lemma RightReadsIff(items: seq<Item>, m: map<nat, nat>)
    requires items != [] && Holds(items, m) && UniqueKeys(items)
    ensures RightReads(items, m) <==> Reachable(items)
  {
    hide Reachable, Holds, ProbeEnd, UniqueKeys;
    if Reachable(items) {
      forall k: nat, e: nat | ProbeEnd(items, k, e) ensures ReadAt(items, k, e) == ValueIn(m, k) {
        ProbeParts(items, k, e);
        ProbeFinds(items, m, k, e);
      }
    } else {
      var k := LostKey(items, m);
      var e := ProbeExists(items, k, 0);
      assert ReadAt(items, k, e) != ValueIn(m, k);
    }
  }

  lemma TableUnique(items: seq<Item>, nrItems: nat, m: map<nat, nat>)
    requires Table(items, nrItems, m)
    ensures UniqueKeys(items)
  {
    forall i, j | 0 <= i < j < |items| && Live(items[i]) && Live(items[j]) ensures items[i].key != items[j].key {
      if items[i].key == items[j].key {
        LiveKeyUnique(items, i, j);
      }
    }
  }

  /** As long as some slot is EMPTY, every probe ends at a slot that stops it. */
  lemma EmptyStops(items: seq<Item>, key: nat, idx: nat)
    requires ProbeEnd(items, key, idx) && exists i :: 0 <= i < |items| && items[i].value == EMPTY
    ensures Stops(items, key, idx)
  {
    var i :| 0 <= i < |items| && items[i].value == EMPTY;
    assert Stops(items, key, i);
  }

  // ----- load -----

  /** The number of trailing zero bits. */
  function Ctz(n: nat): nat
    requires n > 0
  {
    if n % 2 == 1 then 0 else 1 + Ctz(n / 2)
  }

  /** The load factor, scaled by shifting: right for sizes from 128 on, left below. */
  function GetLoad(nrItems: nat, size: nat): nat
    requires size > 0
  {
    var d := Ctz(size) - 7;
    if d >= 0 then nrItems / Pow2(d) else nrItems * Pow2(-d)
  }

  lemma {:induction false} CtzOfPow2(k: nat)
    ensures Ctz(Pow2(k)) == k
  {
    if k > 0 {
      CtzOfPow2(k - 1);
    }
  }

  /** For every power-of-two size the shifted load is the load in binary percent. */
  lemma LoadIsBinaryPercent(nrItems: nat, k: nat)
    ensures GetLoad(nrItems, Pow2(k)) == nrItems * 128 / Pow2(k)
  {
    hide Pow2, Ctz;
    CtzOfPow2(k);
    SevenDoublings();
    if k >= 7 {
      Pow2Adds(7, k - 7);
      ScaledDivision(nrItems, 128, Pow2(k - 7));
    } else {
      Pow2Adds(7 - k, k);
      ExactScaling(nrItems, Pow2(7 - k), Pow2(k));
    }
  }

  lemma SevenDoublings()
    ensures Pow2(7) == 128
  {
  }

  lemma ExactScaling(n: nat, c: nat, p: nat)
    requires p > 0 && c * p == 128
    ensures n * 128 / p == n * c
  {
    assert n * 128 == n * c * p;
    DivisionIs(n * 128, p, n * c, 0);
  }

  // ----- the table -----

  class IHash {
    var nrItems: nat
    var items: array<Item>
    var maxLoad: nat
    var hasCleanup: bool
    var cleaned: seq<nat>  // the values handed to the cleanup function so far

    ghost var contents: map<nat, nat>

    ghost predicate Valid()
      reads this, items
    {
      Table(items[..], nrItems, contents) && (items.Length > 0 ==> exists k :: k >= 5 && Pow2(k) == items.Length)
    }

    /** The state after the reserved value `value` was stored in `slot`: right or wrong for its readers. */
    ghost predicate Spoiled(slot: nat, value: nat)
      reads this, items
    {
      && slot < items.Length && items[slot].value == value
      && Holds(items[..], contents) && UniqueKeys(items[..]) && nrItems == |LiveSlots(items[..])| + 1
      && (RightReads(items[..], contents) <==> value == DELETED || !Crossed(items[..], slot))
    }

    /** There is a free slot, and the load is low enough not to grow. */
    ghost predicate Roomy()
      reads this, items
    {
      && items.Length > 0 && GetLoad(nrItems, items.Length) <= maxLoad
      && exists i :: 0 <= i < items.Length && items[i].value == EMPTY
    }

    /** The slot where the key's probe sequence starts is free, or the key's own. */
    ghost predicate AtHome(key: nat)
      reads this, items
    {
      items.Length > 0
      && var it := items[Home(key, items.Length)];
         !Live(it) || it.key == key
    }

    constructor ()
      ensures Valid() && contents == map[] && fresh(items) && !hasCleanup && cleaned == []
      ensures items.Length == 0 && maxLoad == MAX_LOAD_DEFAULT
    {
      nrItems, items, maxLoad, hasCleanup := 0, new Item[0], MAX_LOAD_DEFAULT, false;
      cleaned, contents := [], map[];
    }

    predicate IndexEmpty(idx: nat)
      requires idx < items.Length
      reads this, items
    {
      items[idx].value == EMPTY || items[idx].value == DELETED
    }

    predicate IndexValid(idx: nat, key: nat)
      requires idx < items.Length
      reads this, items
    {
      !IndexEmpty(idx) && items[idx].key == key
    }

    method FindIndex(key: nat) returns (idx: nat)
      requires items.Length > 0
      ensures ProbeEnd(items[..], key, idx)
    {
      var size := items.Length;
      var home := Home(key, size);
      if items[home].value == EMPTY || items[home].key == key {
        return home;
      }
      idx := Next(home, size);
      while idx != home && !(items[idx].value == EMPTY || items[idx].key == key)
        invariant idx < size
        invariant idx != home ==>
          forall j :: 0 <= j < size && Dist(home, j, size) < Dist(home, idx, size) ==> !Stops(items[..], key, j)
        invariant idx == home ==> forall j :: 0 <= j < size ==> !Stops(items[..], key, j)
        decreases if idx == home then 0 else size - Dist(home, idx, size)
      {
        idx := Next(idx, size);
      }
    }

    method LocpRemove(idx: nat)
      requires Valid() && idx < items.Length && Live(items[idx])
      modifies this`nrItems, this`cleaned, this`contents, items
      ensures Valid() && contents == old(contents) - {items[idx].key}
      ensures items[..] == old(items[..])[idx := Item(DELETED, old(items[idx].key))]
      ensures cleaned == old(cleaned) + if hasCleanup then [old(items[idx].value)] else []
    {
      hide Table;
      EntryRemoved(items[..], nrItems, contents, idx);
      if hasCleanup {
        cleaned := cleaned + [items[idx].value];
      }
      ghost var s := items[..];
      items[idx] := items[idx].(value := DELETED);
      assert items[..] == s[idx := s[idx].(value := DELETED)];
      nrItems := nrItems - 1;
      contents := contents - {items[idx].key};
    }

    /** The table after a value was stored: a reserved one binds nothing, and spoils it. */
    ghost predicate Stored(slot: nat, value: nat)
      reads this, items
    {
      if Legal(value) then Valid() else Spoiled(slot, value)
    }

    method AddOne(key: nat, value: nat) returns (added: bool, ghost slot: nat)
      requires Valid() && items.Length > 0
      modifies this`nrItems, this`cleaned, this`contents, items
      ensures if added then Stored(slot, value) else Valid()
      ensures added ==> contents == After(old(contents), key, value)
      ensures added ==> cleaned == old(cleaned) + Displaced(old(contents), key)
      ensures !added ==> contents == old(contents) && cleaned == old(cleaned)
      ensures !added ==> items[..] == old(items[..]) && nrItems == old(nrItems)
      ensures (exists i :: 0 <= i < items.Length && old(items[i]).value == EMPTY) ==> added
      ensures old(AtHome(key)) ==> slot == Home(key, items.Length)
      ensures key !in old(contents) && added && Legal(value) ==>
                && nrItems == old(nrItems) + 1 && KeepsLive(old(items[..]), items[..])
                && (NoTombstones(old(items[..])) ==> NoTombstones(items[..]))
    {
      hide Table, Clear, Pow2, RightReads, Crossed, Reachable, Holds, UniqueKeys;
      var free, at := MakeRoom(key);
      if free {
        Place(at, key, value);
      }
      return free, at;
    }

    /** What the cleanup function is called with when `key` is bound again. */
    ghost function Displaced(m: map<nat, nat>, key: nat): seq<nat>
      reads this`hasCleanup
    {
      if hasCleanup && key in m then [m[key]] else []
    }

    /** Removes the key's old entry, and looks for a free slot on its probe sequence: its start, or where it ends. */
    method MakeRoom(key: nat) returns (free: bool, slot: nat)
      requires Valid() && items.Length > 0
      modifies this`nrItems, this`cleaned, this`contents, items
      ensures Valid() && slot < items.Length && (free <==> !Live(items[slot]))
      ensures free ==> contents == old(contents) - {key} && Clear(items[..], key, slot)
      ensures free ==> cleaned == old(cleaned) + Displaced(old(contents), key)
      ensures old(AtHome(key)) ==> slot == Home(key, items.Length)
      ensures !free ==> contents == old(contents) && cleaned == old(cleaned)
      ensures !free || key !in old(contents) ==> items[..] == old(items[..]) && nrItems == old(nrItems)
      ensures (exists i :: 0 <= i < items.Length && old(items[i]).value == EMPTY) ==> free
    {
      hide Table, ProbeEnd, Clear, Pow2, Stops;
      var idx := FindIndex(key);
      ghost var s := items[..];
      ProbeDecides(s, nrItems, contents, key, idx);
      slot := Home(key, items.Length);
      HomeClear(s, key);
      HomeStops(s, key, idx);
      if IndexValid(idx, key) {
        LocpRemove(idx);
        TombstoneKeepsClear(s, key, idx);
      }
      if !IndexEmpty(slot) {
        slot := idx;
      }
      free := IndexEmpty(slot);
    }

    method Place(idx: nat, key: nat, value: nat)
      requires Valid() && idx < items.Length && !Live(items[idx])
      requires key !in contents && Clear(items[..], key, idx)
      modifies this`nrItems, this`contents, items
      ensures Stored(idx, value) && contents == After(old(contents), key, value)
      ensures items[..] == old(items[..])[idx := Item(value, key)] && nrItems == old(nrItems) + 1
    {
      hide Table, Clear, RightReads, Crossed, Reachable, Holds, UniqueKeys;
      ghost var s := items[..];
      if Legal(value) {
        EntryPlaced(s, nrItems, contents, idx, key, value);
      } else {
        TableParts(s, nrItems, contents);
        ReservedStored(s, nrItems, contents, idx, key, value);
        assert contents - {key} == contents;
      }
      nrItems := nrItems + 1;
      items[idx] := Item(value, key);
      contents := After(contents, key, value);
      assert items[..] == s[idx := Item(value, key)];
    }

    /** Moves every live entry of the old table; there is always room, so the error exit is unreachable. */
    method Rehash(from: array<Item>, ghost m: map<nat, nat>) returns (ok: bool)
      requires Valid() && from != items && contents == map[] && nrItems == 0 && NoTombstones(items[..])
      requires Reachable(from[..]) && Holds(from[..], m) && from.Length < items.Length
      modifies this`nrItems, this`cleaned, this`contents, items
      ensures ok && Valid() && contents == m && cleaned == old(cleaned)
      ensures NoTombstones(items[..]) && nrItems <= from.Length
    {
      hide Table, Reachable, Holds, HoldsPrefix, Pow2;
      ghost var s := from[..];
      PrefixStart(s);
      for i := 0 to from.Length
        invariant Valid() && from[..] == s && HoldsPrefix(s, i, contents)
        invariant nrItems <= i && cleaned == old(cleaned) && NoTombstones(items[..])
      {
        PrefixStep(s, i, contents);
        if Live(from[i]) {
          RoomLeft(items[..], nrItems, contents);
          ghost var t := items[..];
          assert exists p :: 0 <= p < items.Length && items[p].value == EMPTY;
          var added, slot := AddOne(from[i].key, from[i].value);
          if !added {
            return false;
          }
        }
      }
      PrefixWhole(s, contents, m);
      return true;
    }

    /**
     Binds `key` to `item`, growing the table when its load is too high or no slot is found. Without
     memory for a larger table it changes nothing. A reserved value unbinds the key and spoils the table.
     */
    method Add(key: nat, item: nat, memory: bool) returns (r: int, ghost slot: nat)
      requires Valid()
      modifies this, items
      ensures items == old(items) || fresh(items)
      ensures r == 0 || r == ENOMEM
      ensures r == 0 ==> Stored(slot, item) && contents == After(old(contents), key, item)
      ensures r == 0 ==> cleaned == old(cleaned) + Displaced(old(contents), key)
      ensures r == ENOMEM ==> Valid() && !memory && contents == old(contents) && cleaned == old(cleaned)
      ensures r == ENOMEM ==> items == old(items) && items[..] == old(items[..]) && nrItems == old(nrItems)
      ensures hasCleanup == old(hasCleanup) && maxLoad == old(maxLoad)
      ensures old(Roomy()) ==> r == 0 && items == old(items)
      ensures old(Roomy()) && old(AtHome(key)) ==> slot == Home(key, items.Length)
      ensures old(Roomy()) && key !in old(contents) && Legal(item) ==>
                && nrItems == old(nrItems) + 1 && KeepsLive(old(items[..]), items[..])
                && (NoTombstones(old(items[..])) ==> NoTombstones(items[..]))
      ensures r == 0 && old(items.Length) == 0 && Legal(item) ==>
                items.Length == MIN_SIZE && nrItems == 1 && NoTombstones(items[..])
      ensures items == old(items) || items.Length == Grown(old(items.Length))
      ensures r == 0 && (old(items.Length) == 0 || old(GetLoad(nrItems, items.Length) > maxLoad)) ==>
                items != old(items)
    {
      hide Table, Pow2, Stored, KeepsLive, NoTombstones, GetLoad;
      if items.Length > 0 && GetLoad(nrItems, items.Length) <= maxLoad {
        var added;
        added, slot := AddOne(key, item);
        if added {
          return 0, slot;
        }
      }
      if !memory {
        return ENOMEM, 0;
      }
      r, slot := Grow(key, item);
    }

    method Grow(key: nat, item: nat) returns (r: int, ghost slot: nat)
      requires Valid()
      modifies this`nrItems, this`items, this`contents, this`cleaned
      ensures Stored(slot, item) && fresh(items) && r == 0
      ensures contents == After(old(contents), key, item)
      ensures cleaned == old(cleaned) + Displaced(old(contents), key)
      ensures items.Length == Grown(old(items.Length))
      ensures old(items.Length) == 0 && Legal(item) ==>
                items.Length == MIN_SIZE && nrItems == 1 && NoTombstones(items[..])
    {
      hide Table, Reachable, Holds, Stored, KeepsLive;
      var from := items;
      ghost var m := contents;
      slot := 0;
      TableParts(from[..], nrItems, m);
      if from.Length == 0 {
        NoSlots(from[..], nrItems, m);
      }
      items := new Item[Grown(from.Length)](_ => Item(EMPTY, 0));
      nrItems, contents := 0, map[];
      BlankTable(items[..]);
      Doubled(from.Length);
      var ok := Rehash(from, m);
      if !ok {
        return ENOMEM, slot;
      }
      RoomLeft(items[..], nrItems, contents);
      assert exists p :: 0 <= p < items.Length && items[p].value == EMPTY;
      var added;
      added, slot := AddOne(key, item);
      if !added {
        return ENOMEM, slot;
      }
      return 0, slot;
    }

    /** What a lookup returns in any state of the table. */
    method Lookup(key: nat) returns (value: nat, ghost idx: nat)
      requires items.Length > 0
      ensures ProbeEnd(items[..], key, idx) && value == ReadAt(items[..], key, idx)
    {
      hide ProbeEnd;
      var i := FindIndex(key);
      ProbeParts(items[..], key, i);
      value := if IndexValid(i, key) then items[i].value else EMPTY;
      idx := i;
    }

    /** The bound value, or NULL. */
    method Find(key: nat) returns (value: nat)
      requires Valid()
      ensures value == ValueIn(contents, key)
    {
      hide Table, ProbeEnd, Clear, Pow2;
      if items.Length == 0 {
        NoSlots(items[..], nrItems, contents);
        return EMPTY;
      }
      ghost var idx;
      value, idx := Lookup(key);
      ProbeDecides(items[..], nrItems, contents, key, idx);
    }

    method Remove(key: nat) returns (removed: bool)
      requires Valid()
      modifies this`nrItems, this`cleaned, this`contents, items
      ensures Valid() && contents == old(contents) - {key} && removed == (key in old(contents))
      ensures cleaned == old(cleaned) + if hasCleanup && removed then [old(contents)[key]] else []
    {
      hide Table, ProbeEnd, Clear, Pow2;
      if items.Length == 0 {
        NoSlots(items[..], nrItems, contents);
        return false;
      }
      var idx := FindIndex(key);
      ProbeDecides(items[..], nrItems, contents, key, idx);
      if IndexValid(idx, key) {
        LocpRemove(idx);
        return true;
      }
      return false;
    }
  }

  /** The bindings after a value is stored under a key. */
  ghost function After(m: map<nat, nat>, key: nat, value: nat): map<nat, nat> {
    if Legal(value) then m[key := value] else m - {key}
  }

  /** The size of the next larger table. */
  function Grown(size: nat): (larger: nat)
    ensures larger > size && (size == 0 ==> larger == 32) && (size > 0 ==> larger == size + size)
  {
    if size == 0 then MIN_SIZE else 2 * size
  }

  ghost predicate KeepsLive(before: seq<Item>, after: seq<Item>) {
    |after| == |before| && forall i :: 0 <= i < |before| && Live(before[i]) ==> after[i] == before[i]
  }

  /** The bindings of the live slots before `n`. */
  ghost predicate HoldsPrefix(items: seq<Item>, n: nat, m: map<nat, nat>)
    requires n <= |items|
  {
    && (forall j :: 0 <= j < n && Live(items[j]) ==> items[j].key in m && m[items[j].key] == items[j].value)
    && (forall k :: k in m ==> exists j :: 0 <= j < n && Live(items[j]) && items[j].key == k)
  }

  ghost predicate NoTombstones(items: seq<Item>) {
    forall i :: 0 <= i < |items| ==> items[i].value != DELETED
  }

  lemma Doubled(size: nat)
    requires size > 0 ==> exists k :: k >= 5 && Pow2(k) == size
    ensures exists k :: k >= 5 && Pow2(k) == Grown(size)
  {
    if size == 0 {
      assert Pow2(5) == MIN_SIZE;
    } else {
      var k :| k >= 5 && Pow2(k) == size;
      assert Pow2(k + 1) == 2 * size;
    }
  }

  lemma NoSlots(items: seq<Item>, nrItems: nat, m: map<nat, nat>)
    requires Table(items, nrItems, m) && items == []
    ensures m == map[]
  {
  }

  lemma PrefixStart(items: seq<Item>)
    ensures HoldsPrefix(items, 0, map[])
  {
  }

  lemma PrefixStep(items: seq<Item>, n: nat, m: map<nat, nat>)
    requires n < |items| && Reachable(items) && HoldsPrefix(items, n, m)
    ensures Live(items[n]) ==> items[n].key !in m && HoldsPrefix(items, n + 1, m[items[n].key := items[n].value])
    ensures !Live(items[n]) ==> HoldsPrefix(items, n + 1, m)
  {
    var key := items[n].key;
    if Live(items[n]) && key in m {
      var j :| 0 <= j < n && Live(items[j]) && items[j].key == key;
      LiveKeyUnique(items, j, n);
    }
  }

  lemma PrefixWhole(items: seq<Item>, m: map<nat, nat>, whole: map<nat, nat>)
    requires HoldsPrefix(items, |items|, m) && Holds(items, whole)
    ensures m == whole
  {
  }

  lemma RoomLeft(items: seq<Item>, nrItems: nat, m: map<nat, nat>)
    requires Table(items, nrItems, m) && NoTombstones(items) && nrItems < |items|
    ensures exists i :: 0 <= i < |items| && items[i].value == EMPTY
  {
    SlotsBound(items);
  }

  lemma BlankTable(items: seq<Item>)
    requires forall i :: 0 <= i < |items| ==> items[i].value == EMPTY
    ensures Table(items, 0, map[]) && NoTombstones(items)
  {
    assert LiveSlots(items) == {};
  }

  lemma HomeClear(items: seq<Item>, key: nat)
    requires items != []
    ensures Clear(items, key, Home(key, |items|))
  {
  }

  /** A key in the slot where its probe sequence starts is found there. */
  lemma HomeStops(items: seq<Item>, key: nat, idx: nat)
    requires ProbeEnd(items, key, idx)
    ensures items[Home(key, |items|)].key == key ==> idx == Home(key, |items|)
  {
    assert items[Home(key, |items|)].key == key ==> Stops(items, key, Home(key, |items|));
  }

  /** A tombstone ends the same probes as the entry it replaces. */
  lemma TombstoneKeepsClear(items: seq<Item>, key: nat, idx: nat)
    requires idx < |items| && Live(items[idx])
    ensures var t := items[idx := Item(DELETED, items[idx].key)];
            forall i :: 0 <= i < |t| && Clear(items, key, i) ==> Clear(t, key, i)
  {
    var t := items[idx := Item(DELETED, items[idx].key)];
    assert forall j :: 0 <= j < |t| ==> Stops(t, key, j) == Stops(items, key, j);
  }

  /** What the end of a probe says: a live slot of the key, or, if any slot is EMPTY, a free slot. */
  lemma ProbeDecides(items: seq<Item>, nrItems: nat, m: map<nat, nat>, key: nat, idx: nat)
    requires Table(items, nrItems, m) && ProbeEnd(items, key, idx)
    ensures idx < |items| && Clear(items, key, idx)
    ensures Live(items[idx]) && items[idx].key == key <==> key in m
    ensures key in m ==> m[key] == items[idx].value
    ensures key !in m && Live(items[idx]) ==> forall i :: 0 <= i < |items| ==> items[i].value != EMPTY
  {
    hide Table, ProbeEnd, Clear;
    TableParts(items, nrItems, m);
    ProbeParts(items, key, idx);
    ProbeFinds(items, m, key, idx);
    if exists i :: 0 <= i < |items| && items[i].value == EMPTY {
      EmptyStops(items, key, idx);
    }
  }

  lemma TableParts(items: seq<Item>, nrItems: nat, m: map<nat, nat>)
    requires Table(items, nrItems, m)
    ensures Reachable(items) && Holds(items, m) && nrItems == |LiveSlots(items)|
  {
  }

  lemma ProbeParts(items: seq<Item>, key: nat, idx: nat)
    requires ProbeEnd(items, key, idx)
    ensures idx < |items| && Clear(items, key, idx)
  {
  }

  // ----- runs -----

  datatype Op =
    | AddOp(key: nat, item: nat, memory: bool)
    | RemoveOp(key: nat)
    | FindOp(key: nat)

  datatype Result = Code(r: int) | Removed(found: bool) | Value(value: nat)

  ghost predicate Allowed(op: Op) {
    op.AddOp? ==> Legal(op.item)
  }

  /** The reference: a mathematical map, on which an add without memory has no effect. */
  ghost function MapStep(m: map<nat, nat>, op: Op, result: Result): map<nat, nat> {
    match op
    case AddOp(key, item, _) => if result == Code(0) then m[key := item] else m
    case RemoveOp(key) => m - {key}
    case FindOp(_) => m
  }

  ghost predicate Correct(m: map<nat, nat>, op: Op, result: Result) {
    match op
    case AddOp(_, _, memory) => result == Code(0) || (result == Code(ENOMEM) && !memory)
    case RemoveOp(key) => result == Removed(key in m)
    case FindOp(key) => result == Value(ValueIn(m, key))
  }

  ghost function MapAfter(ops: seq<Op>, results: seq<Result>): map<nat, nat>
    requires |ops| == |results|
  {
    if ops == [] then map[]
    else
      var n := |ops| - 1;
      MapStep(MapAfter(ops[..n], results[..n]), ops[n], results[n])
  }

  method Step(ht: IHash, op: Op) returns (result: Result)
    requires ht.Valid() && Allowed(op)
    modifies ht, ht.items
    ensures ht.Valid() && (ht.items == old(ht.items) || fresh(ht.items))
    ensures Correct(old(ht.contents), op, result) && ht.contents == MapStep(old(ht.contents), op, result)
  {
    hide IHash.Valid, IHash.Roomy, IHash.AtHome;
    match op
    case AddOp(key, item, memory) =>
      var r, slot := ht.Add(key, item, memory);
      result := Code(r);
    case RemoveOp(key) =>
      var found := ht.Remove(key);
      result := Removed(found);
    case FindOp(key) =>
      var value := ht.Find(key);
      result := Value(value);
  }

  lemma MapAfterNext(ops: seq<Op>, results: seq<Result>, i: nat)
    requires |ops| == |results| && i < |ops|
    ensures MapAfter(ops[..i + 1], results[..i + 1]) == MapStep(MapAfter(ops[..i], results[..i]), ops[i], results[i])
  {
    assert ops[..i + 1][..i] == ops[..i] && results[..i + 1][..i] == results[..i];
  }

  /** After any sequence of adds and removes, find returns what the map returns. */
  method Run(ops: seq<Op>) returns (results: seq<Result>)
    requires forall i :: 0 <= i < |ops| ==> Allowed(ops[i])
    ensures |results| == |ops|
    ensures forall i :: 0 <= i < |ops| ==> Correct(MapAfter(ops[..i], results[..i]), ops[i], results[i])
  {
    hide IHash.Valid, Correct, MapStep, MapAfter, Allowed;
    var ht := new IHash();
    results := [];
    NoOps();
    for i := 0 to |ops|
      invariant |results| == i && fresh(ht) && fresh(ht.items) && ht.Valid()
      invariant ht.contents == MapAfter(ops[..i], results)
      invariant forall j :: 0 <= j < i ==> Correct(MapAfter(ops[..j], results[..j]), ops[j], results[j])
    {
      var result := Step(ht, ops[i]);
      ghost var before := results;
      results := results + [result];
      assert before == results[..i] && forall j :: 0 <= j <= i ==> results[..j] == before[..j];
      MapAfterNext(ops[..i + 1], results, i);
      assert ops[..i + 1][..i] == ops[..i] && ops[..i + 1][..i + 1] == ops[..i + 1] && results[..i + 1] == results;
    }
  }

  lemma NoOps()
    ensures MapAfter([], []) == map[]
  {
  }

  // ----- a run with a reserved value -----

  /** Without tombstones a key alone in its table lies where its probe sequence starts. */
  lemma AloneAtHome(items: seq<Item>, nrItems: nat, m: map<nat, nat>, key: nat)
    requires Table(items, nrItems, m) && NoTombstones(items) && m.Keys == {key} && items != []
    ensures Live(items[Home(key, |items|)]) && items[Home(key, |items|)].key == key
  {
    assert key in m;
    var i :| 0 <= i < |items| && Live(items[i]) && items[i].key == key;
    var h := Home(key, |items|);
    assert Clear(items, key, i);
    if !Live(items[h]) {
      assert Stops(items, key, h);
    }
  }

  lemma LowLoad(nrItems: nat)
    requires nrItems <= 2
    ensures GetLoad(nrItems, MIN_SIZE) <= MAX_LOAD_DEFAULT
  {
    assert Ctz(MIN_SIZE) == 5 && Pow2(2) == 4;
  }

  /** NULL in the home slot of the only key left cuts its probe sequence. */
  lemma CutOff(items: seq<Item>, m: map<nat, nat>, k: nat, e: nat)
    requires Holds(items, m) && UniqueKeys(items) && m.Keys == {k} && items != [] && k < 2 * |items|
    requires items[Home(k, |items|)].value == EMPTY
    requires RightReads(items, m) <==> !Crossed(items, Home(k, |items|))
    requires ProbeEnd(items, k, e)
    ensures ReadAt(items, k, e) == EMPTY
  {
    assert k in m;
    var i :| 0 <= i < |items| && Live(items[i]) && items[i].key == k;
    assert Crosses(items, Home(k, |items|), i);
    RightReadsIff(items, m);
    var lost := LostKey(items, m);
    assert lost in m.Keys;
  }

  /** Two keys of one home slot: after NULL is stored under the first, the second reads as NULL too. */
  method NullLosesKey() returns (ht: IHash, value: nat)
    ensures fresh(ht) && ht.contents == map[MIN_SIZE := 2] && value == EMPTY
  {
    hide Table, ProbeEnd, Pow2, Holds, UniqueKeys, RightReads, Crossed, NoTombstones, GetLoad;
    ht := new IHash();
    ghost var slot, e;
    var r;
    r, slot := ht.Add(0, 1, true);
    AloneAtHome(ht.items[..], ht.nrItems, ht.contents, 0);
    LowLoad(1);
    RoomLeft(ht.items[..], ht.nrItems, ht.contents);
    r, slot := ht.Add(MIN_SIZE, 2, true);
    LowLoad(2);
    RoomLeft(ht.items[..], ht.nrItems, ht.contents);
    r, slot := ht.Add(0, EMPTY, true);
    value, e := ht.Lookup(MIN_SIZE);
    CutOff(ht.items[..], ht.contents, MIN_SIZE, e);
  }
}
