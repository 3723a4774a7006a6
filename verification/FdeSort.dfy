/**
 The hybrid sort of frame descriptors: split off a nondecreasing run, heap sort the rest, merge back.
 All of it works in place on two vectors of pointers. While the split runs, the second vector holds
 the links of a chain through the first one, so a cell is a link or an FDE.
 */
module FdeSort {
  import opened FdeModel

  /** One pointer-sized cell: NULL, the chain's end marker, the address of a LINEAR slot, or an FDE. */
  datatype Cell = Null | Marker | Slot(index: nat) | Elem(fde: Fde)

  /** What the comparison routine handed to the sort orders by. */
  type Order = Cell -> nat

  ghost predicate Sorted(key: Order, s: seq<Cell>) {
    forall i, j :: 0 <= i < j < |s| ==> key(s[i]) <= key(s[j])
  }

  // ----- fde_split -----

  /** Nothing smaller follows the element at `p` before `end`. */
  ghost predicate Kept(key: Order, s: seq<Cell>, p: nat, end: nat)
    requires p < end <= |s|
  {
    forall q :: p < q < end ==> key(s[p]) <= key(s[q])
  }

  /** The kept (or, with `keep` false, the other) elements among the first `n`, in order. */
  ghost function Part(key: Order, s: seq<Cell>, keep: bool, n: nat): (r: seq<Cell>)
    requires n <= |s|
    ensures |r| <= n
  {
    if n == 0 then []
    else if Kept(key, s, n - 1, |s|) == keep then Part(key, s, keep, n - 1) + [s[n - 1]]
    else Part(key, s, keep, n - 1)
  }

  lemma NoParts(key: Order, s: seq<Cell>)
    ensures Part(key, s, true, 0) == [] && Part(key, s, false, 0) == []
  {
  }

  lemma PartsStep(key: Order, s: seq<Cell>, i: nat)
    requires i < |s|
    ensures Kept(key, s, i, |s|) ==> Part(key, s, true, i + 1) == Part(key, s, true, i) + [s[i]]
    ensures Kept(key, s, i, |s|) ==> Part(key, s, false, i + 1) == Part(key, s, false, i)
    ensures !Kept(key, s, i, |s|) ==> Part(key, s, true, i + 1) == Part(key, s, true, i)
    ensures !Kept(key, s, i, |s|) ==> Part(key, s, false, i + 1) == Part(key, s, false, i) + [s[i]]
  {
  }

  lemma {:induction false} PartsPermute(key: Order, s: seq<Cell>, n: nat)
    requires n <= |s|
    ensures |Part(key, s, true, n)| + |Part(key, s, false, n)| == n
    ensures multiset(Part(key, s, true, n)) + multiset(Part(key, s, false, n)) == multiset(s[..n])
  {
    hide Kept;
    if n > 0 {
      PartsPermute(key, s, n - 1);
      assert s[..n] == s[..n - 1] + [s[n - 1]];
      var a, b, x := Part(key, s, true, n - 1), Part(key, s, false, n - 1), s[n - 1];
      assert multiset(s[..n]) == multiset(s[..n - 1]) + multiset{x};
      if Kept(key, s, n - 1, |s|) {
        assert multiset(a + [x]) == multiset(a) + multiset{x};
      } else {
        assert multiset(b + [x]) == multiset(b) + multiset{x};
      }
    }
  }

  /** Every kept element is at most everything that comes later. */
  lemma {:induction false} KeptPartBounded(key: Order, s: seq<Cell>, n: nat, q: nat)
    requires n <= q < |s|
    ensures forall i :: 0 <= i < |Part(key, s, true, n)| ==> key(Part(key, s, true, n)[i]) <= key(s[q])
  {
    if n > 0 {
      KeptPartBounded(key, s, n - 1, q);
    }
  }

  lemma {:induction false} KeptPartSorted(key: Order, s: seq<Cell>, n: nat)
    requires n <= |s|
    ensures Sorted(key, Part(key, s, true, n))
  {
    if n > 0 {
      KeptPartSorted(key, s, n - 1);
      KeptPartBounded(key, s, n - 1, n - 1);
    }
  }

  /** The kept run need not be the longest one: a late small element drives out everything above it. */
  lemma NotLongest(key: Order, a: Cell, b: Cell, c: Cell, d: Cell)
    requires key(a) <= key(d) < key(b) <= key(c)
    ensures Part(key, [a, b, c, d], true, 4) == [a, d] && Sorted(key, [a, b, c])
  {
    var s := [a, b, c, d];
    assert Kept(key, s, 0, 4) && !Kept(key, s, 1, 4) && !Kept(key, s, 2, 4) && Kept(key, s, 3, 4) by {
      assert key(s[3]) < key(s[1]) && key(s[3]) < key(s[2]);
    }
    assert Part(key, s, true, 1) == [a];
    assert Part(key, s, true, 2) == [a];
    assert Part(key, s, true, 3) == [a];
  }

  /** Index sets of `s`; those in which keys never decrease are its nondecreasing runs. */
  ghost predicate RunOf(key: Order, s: seq<Cell>, run: set<nat>) {
    && (forall i :: i in run ==> i < |s|)
    && (forall i, j :: i in run && j in run && i < j ==> key(s[i]) <= key(s[j]))
  }

  ghost function KeptSet(key: Order, s: seq<Cell>): set<nat> {
    set i: nat | i < |s| && Kept(key, s, i, |s|)
  }

  /** The split keeps a longest run. */
  ghost predicate KeepsLongest(key: Order, s: seq<Cell>) {
    forall run: set<nat> :: RunOf(key, s, run) ==> |run| <= |KeptSet(key, s)|
  }

  /** The kept elements that a run through the elements `others` has to give up: they follow a larger one of these. */
  ghost function Blocked(key: Order, s: seq<Cell>, others: set<nat>): set<nat> {
    set k | k in KeptSet(key, s) && exists e :: e in others && e < k && e < |s| && key(s[k]) < key(s[e])
  }

  /** Elements that are not kept and could form a run by themselves. */
  ghost predicate Rival(key: Order, s: seq<Cell>, others: set<nat>) {
    RunOf(key, s, others) && others !! KeptSet(key, s)
  }

  /** Rivals together with the kept elements they do not block form a run. */
  lemma RivalRun(key: Order, s: seq<Cell>, others: set<nat>)
    requires Rival(key, s, others)
    ensures RunOf(key, s, others + (KeptSet(key, s) - Blocked(key, s, others)))
  {
  }

  /** The rivals in a run block none of its kept elements. */
  lemma RunSplits(key: Order, s: seq<Cell>, run: set<nat>)
    requires RunOf(key, s, run)
    ensures Rival(key, s, run - KeptSet(key, s))
    ensures run * KeptSet(key, s) <= KeptSet(key, s) - Blocked(key, s, run - KeptSet(key, s))
  {
  }

  /** The kept run is a longest one exactly when no set of rivals blocks fewer elements than it has. */
  lemma KeepsLongestIff(key: Order, s: seq<Cell>)
    ensures KeepsLongest(key, s)
            <==> forall others: set<nat> :: Rival(key, s, others) ==> |others| <= |Blocked(key, s, others)|
  {
    hide RunOf, Rival, Blocked, Kept;
    var kept := KeptSet(key, s);
    if KeepsLongest(key, s) {
      forall others: set<nat> | Rival(key, s, others) ensures |others| <= |Blocked(key, s, others)| {
        RivalRun(key, s, others);
        RivalApart(key, s, others);
        var rest := kept - Blocked(key, s, others);
        assert |others + rest| == |others| + |rest|;
        assert |rest| == |kept| - |Blocked(key, s, others)|;
      }
    }
    if forall others: set<nat> :: Rival(key, s, others) ==> |others| <= |Blocked(key, s, others)| {
      forall run: set<nat> | RunOf(key, s, run) ensures |run| <= |kept| {
        RunSplits(key, s, run);
        var others := run - kept;
        RivalApart(key, s, others);
        assert run == others + run * kept;
        SubsetSize(run * kept, kept - Blocked(key, s, others));
        assert |kept - Blocked(key, s, others)| == |kept| - |Blocked(key, s, others)|;
      }
    }
  }

  lemma RivalApart(key: Order, s: seq<Cell>, others: set<nat>)
    requires Rival(key, s, others)
    ensures others !! KeptSet(key, s) && Blocked(key, s, others) <= KeptSet(key, s)
  {
  }

  lemma {:induction false} SubsetSize(a: set<nat>, b: set<nat>)
    requires a <= b
    ensures |a| <= |b|
  {
    assert b == a + (b - a);
  }

  /** The length of the kept run is the count the split leaves in LINEAR. */
  lemma {:induction false} KeptCount(key: Order, s: seq<Cell>, n: nat)
    requires n <= |s|
    ensures |Part(key, s, true, n)| == |set i: nat | i < n && Kept(key, s, i, |s|)|
  {
    hide Kept;
    var now := set i: nat | i < n && Kept(key, s, i, |s|);
    if n > 0 {
      KeptCount(key, s, n - 1);
      var before := set i: nat | i < n - 1 && Kept(key, s, i, |s|);
      assert now == if Kept(key, s, n - 1, |s|) then before + {n - 1} else before;
    }
  }

  // ----- a condition that is easy to check -----

  /** Between two neighbouring kept elements the others strictly decrease. */
  ghost predicate GapsDecrease(key: Order, s: seq<Cell>) {
    forall i, j ::
      0 <= i < j < |s| && SameGap(key, s, i, j) && !Kept(key, s, i, |s|) && !Kept(key, s, j, |s|)
      ==> key(s[i]) > key(s[j])
  }

  ghost predicate SameGap(key: Order, s: seq<Cell>, i: nat, j: nat)
    requires i < |s| && j < |s|
  {
    NextKept(key, s, i) == NextKept(key, s, j)
  }

  /** The next kept element after `i`, or the end. */
  ghost function NextKept(key: Order, s: seq<Cell>, i: nat): (k: nat)
    requires i < |s|
    ensures i < k <= |s| && (k < |s| ==> Kept(key, s, k, |s|))
    ensures forall j :: i < j < k ==> !Kept(key, s, j, |s|)
    decreases |s| - i
  {
    if i + 1 == |s| || Kept(key, s, i + 1, |s|) then i + 1 else NextKept(key, s, i + 1)
  }

  /** From every element on there is a kept one that is no larger. */
  lemma {:induction false} KeptBelow(key: Order, s: seq<Cell>, i: nat) returns (k: nat)
    requires i < |s|
    ensures i <= k < |s| && Kept(key, s, k, |s|) && key(s[k]) <= key(s[i])
    decreases |s| - i
  {
    if Kept(key, s, i, |s|) {
      return i;
    }
    var q :| i < q < |s| && key(s[q]) < key(s[i]);
    k := KeptBelow(key, s, q);
  }

  /** The next kept element after one that is not kept is smaller. */
  lemma NextKeptSmaller(key: Order, s: seq<Cell>, i: nat)
    requires i < |s| && !Kept(key, s, i, |s|)
    ensures NextKept(key, s, i) < |s| && key(s[NextKept(key, s, i)]) < key(s[i])
  {
    var q :| i < q < |s| && key(s[q]) < key(s[i]);
    var k := KeptBelow(key, s, q);
  }

  lemma {:induction false} InjectionSize(a: set<nat>, f: nat -> nat, b: set<nat>)
    requires forall x :: x in a ==> f(x) in b
    requires forall x, y :: x in a && y in a && f(x) == f(y) ==> x == y
    ensures |a| <= |b|
  {
    if a != {} {
      var x :| x in a;
      InjectionSize(a - {x}, f, b - {f(x)});
    }
  }

  lemma RivalBlocks(key: Order, s: seq<Cell>, others: set<nat>, e: nat)
    requires Rival(key, s, others) && e in others
    ensures e < |s| && !Kept(key, s, e, |s|) && NextKept(key, s, e) in Blocked(key, s, others)
  {
    hide Kept, NextKept;
    assert e !in KeptSet(key, s);
    NextKeptSmaller(key, s, e);
  }

  /** If the gaps decrease, every rival blocks a kept element of its own. */
  lemma RivalsBlock(key: Order, s: seq<Cell>, others: set<nat>)
    requires GapsDecrease(key, s) && Rival(key, s, others)
    ensures |others| <= |Blocked(key, s, others)|
  {
    hide Kept, NextKept, Blocked;
    var f := (i: nat) => if i < |s| then NextKept(key, s, i) else 0;
    forall e | e in others ensures e < |s| && !Kept(key, s, e, |s|) && f(e) in Blocked(key, s, others) {
      RivalBlocks(key, s, others, e);
    }
    forall x, y | x in others && y in others && f(x) == f(y) ensures x == y {
      assert SameGap(key, s, x, y) && SameGap(key, s, y, x);
    }
    InjectionSize(others, f, Blocked(key, s, others));
  }

  /** If the gaps decrease, the kept run is a longest one. */
  lemma DecreasingGapsKeepLongest(key: Order, s: seq<Cell>)
    requires GapsDecrease(key, s)
    ensures KeepsLongest(key, s)
  {
    hide *;
    forall others: set<nat> | Rival(key, s, others) ensures |others| <= |Blocked(key, s, others)| {
      RivalsBlock(key, s, others);
    }
    KeepsLongestIff(key, s);
  }

  /** The chain's indices increase and stay below `n`. */
  ghost predicate Increasing(chain: seq<nat>, n: nat) {
    && (forall j :: 0 <= j < |chain| ==> chain[j] < n)
    && (forall j, k :: 0 <= j < k < |chain| ==> chain[j] < chain[k])
  }

  /** Along the chain the keys never decrease. */
  ghost predicate Rising(key: Order, s: seq<Cell>, chain: seq<nat>)
    requires Increasing(chain, |s|)
  {
    forall j, k :: 0 <= j < k < |chain| ==> key(s[chain[j]]) <= key(s[chain[k]])
  }

  ghost function ChainEnd(chain: seq<nat>): Cell {
    if chain == [] then Marker else Slot(chain[|chain| - 1])
  }

  /** ERRATIC links each chain element to the one before it and holds NULL for every other element. */
  ghost predicate Linked(links: seq<Cell>, chain: seq<nat>, n: nat)
    requires n <= |links| && Increasing(chain, n)
  {
    && (forall j {:trigger links[chain[j]]} :: 0 <= j < |chain| ==>
          links[chain[j]] == if j == 0 then Marker else Slot(chain[j - 1]))
    && (forall p :: 0 <= p < n && p !in chain ==> links[p] == Null)
  }

  ghost predicate Chained(key: Order, s: seq<Cell>, links: seq<Cell>, chain: seq<nat>, n: nat)
    requires n <= |s| && n <= |links|
  {
    Increasing(chain, n) && Rising(key, s, chain) && Linked(links, chain, n)
  }

  /** Dropping the end of the chain and clearing its link leaves a chain. */
  lemma PopChain(key: Order, s: seq<Cell>, links: seq<Cell>, chain: seq<nat>, n: nat)
    requires n <= |s| && n <= |links| && chain != [] && Chained(key, s, links, chain, n)
    ensures var e, rest := chain[|chain| - 1], chain[..|chain| - 1];
            links[e] == ChainEnd(rest) && Chained(key, s, links[e := Null], rest, n)
  {
  }

  /** Linking element `n` to the end of the chain extends it. */
  lemma PushChain(key: Order, s: seq<Cell>, links: seq<Cell>, chain: seq<nat>, n: nat)
    requires n < |s| && n < |links| && Chained(key, s, links, chain, n)
    requires chain != [] ==> key(s[chain[|chain| - 1]]) <= key(s[n])
    ensures Chained(key, s, links[n := ChainEnd(chain)], chain + [n], n + 1)
  {
  }

  /** The first pass of the split for element `i`: unlink every chain element larger than it. */
  method Unlink(key: Order, linear: array<Cell>, i: nat, erratic: array<Cell>, end: Cell, ghost chain: seq<nat>)
    returns (chainEnd: Cell, ghost rest: seq<nat>)
    requires linear != erratic && i < linear.Length && i < erratic.Length
    requires Chained(key, linear[..], erratic[..], chain, i) && end == ChainEnd(chain)
    modifies erratic
    ensures Chained(key, linear[..], erratic[..], rest, i) && chainEnd == ChainEnd(rest)
    ensures rest <= chain
    ensures forall j :: |rest| <= j < |chain| ==> key(linear[i]) < key(linear[chain[j]])
    ensures rest != [] ==> key(linear[rest[|rest| - 1]]) <= key(linear[i])
  {
    hide Linked, Rising;
    chainEnd, rest := end, chain;
    while chainEnd != Marker && key(linear[i]) < key(linear[chainEnd.index])
      invariant Chained(key, linear[..], erratic[..], rest, i) && chainEnd == ChainEnd(rest)
      invariant rest <= chain
      invariant forall j :: |rest| <= j < |chain| ==> key(linear[i]) < key(linear[chain[j]])
      decreases |rest|
    {
      PopChain(key, linear[..], erratic[..], rest, i);
      var e := chainEnd.index;
      ghost var links := erratic[..];
      chainEnd := erratic[e];
      erratic[e] := Null;
      assert erratic[..] == links[e := Null];
      rest := rest[..|rest| - 1];
    }
  }

  /** The chain holds exactly the elements kept so far. */
  ghost predicate KeepsExactly(key: Order, s: seq<Cell>, chain: seq<nat>, n: nat)
    requires n <= |s|
  {
    forall p :: 0 <= p < n ==> (p in chain <==> Kept(key, s, p, n))
  }

  lemma ExtendKept(key: Order, s: seq<Cell>, chain: seq<nat>, rest: seq<nat>, n: nat)
    requires n < |s| && rest <= chain
    requires KeepsExactly(key, s, chain, n)
    requires Increasing(chain, n) && Rising(key, s, chain)
    requires forall j :: |rest| <= j < |chain| ==> key(s[n]) < key(s[chain[j]])
    requires rest != [] ==> key(s[rest[|rest| - 1]]) <= key(s[n])
    ensures KeepsExactly(key, s, rest + [n], n + 1)
  {
    forall p | 0 <= p < n ensures p in rest + [n] <==> Kept(key, s, p, n + 1) {
      if p in rest {
        var j :| 0 <= j < |rest| && rest[j] == p;
        assert chain[j] == p && rest[|rest| - 1] == chain[|rest| - 1];
        assert p in chain;
      } else if p in chain {
        assert chain == rest + chain[|rest|..];
        var j :| |rest| <= j < |chain| && chain[j] == p;
        assert key(s[n]) < key(s[p]);
      } else {
        assert Kept(key, s, p, n + 1) ==> Kept(key, s, p, n);
      }
    }
    assert (rest + [n])[|rest|] == n;
  }

  /** A complete chain leaves a non-NULL cell in ERRATIC exactly for the kept elements. */
  lemma ChainMarksKept(key: Order, s: seq<Cell>, links: seq<Cell>, chain: seq<nat>, n: nat)
    requires n <= |s| && n <= |links|
    requires Increasing(chain, n) && Linked(links, chain, n) && KeepsExactly(key, s, chain, n)
    ensures forall p :: 0 <= p < n ==> (links[p] != Null <==> Kept(key, s[..n], p, n))
  {
    forall p | 0 <= p < n ensures links[p] != Null <==> Kept(key, s[..n], p, n) {
      assert Kept(key, s[..n], p, n) <==> Kept(key, s, p, n);
      if p in chain {
        var j :| 0 <= j < |chain| && chain[j] == p;
        assert links[chain[j]] != Null;
      }
    }
  }

  lemma NoChain(key: Order, s: seq<Cell>, links: seq<Cell>)
    ensures Chained(key, s, links, [], 0) && KeepsExactly(key, s, [], 0)
  {
  }

  /** The first pass of the split: thread the chain through ERRATIC. */
  method BuildChain(key: Order, linear: array<Cell>, count: nat, erratic: array<Cell>)
    requires linear != erratic && count <= linear.Length && count <= erratic.Length
    modifies erratic
    ensures forall p :: 0 <= p < count ==> (erratic[p] != Null <==> Kept(key, linear[..count], p, count))
  {
    hide Linked, Rising, KeepsExactly, Kept;
    var chainEnd := Marker;
    ghost var chain: seq<nat> := [];
    NoChain(key, linear[..], erratic[..]);
    ghost var s := linear[..];
    for i := 0 to count
      invariant linear[..] == s
      invariant Chained(key, s, erratic[..], chain, i) && chainEnd == ChainEnd(chain)
      invariant KeepsExactly(key, s, chain, i)
    {
      ghost var rest;
      chainEnd, rest := Unlink(key, linear, i, erratic, chainEnd, chain);
      ghost var links := erratic[..];
      assert linear[..] == s;
      erratic[i] := chainEnd;
      assert erratic[..] == links[i := chainEnd];
      PushChain(key, s, links, rest, i);
      ExtendKept(key, s, chain, rest, i);
      chainEnd, chain := Slot(i), rest + [i];
    }
    ChainMarksKept(key, s, erratic[..], chain, count);
    assert s[..count] == linear[..count];
  }

  /**
   Splits LINEAR[..count]: afterwards the two vectors hold, in their original order, exactly the
   elements followed by nothing smaller and exactly the others.
   */
  method FdeSplit(key: Order, linear: array<Cell>, count: nat, erratic: array<Cell>) returns (j: nat, k: nat)
    requires linear != erratic && count <= linear.Length && count <= erratic.Length
    modifies linear, erratic
    ensures j + k == count
    ensures linear[..j] == Part(key, old(linear[..count]), true, count)
    ensures erratic[..k] == Part(key, old(linear[..count]), false, count)
  {
    hide Part, Kept;
    ghost var s := linear[..count];
    BuildChain(key, linear, count, erratic);
    j, k := 0, 0;
    NoParts(key, s);
    for i := 0 to count
      invariant j + k == i
      invariant linear[..j] == Part(key, s, true, i) && erratic[..k] == Part(key, s, false, i)
      invariant forall p :: i <= p < count ==> linear[p] == s[p]
      invariant forall p :: i <= p < count ==> (erratic[p] != Null <==> Kept(key, s, p, count))
    {
      PartsStep(key, s, i);
      if erratic[i] != Null {
        linear[j] := linear[i];
        j := j + 1;
        assert linear[..j] == linear[..j - 1] + [s[i]];
      } else {
        erratic[k] := linear[i];
        k := k + 1;
        assert erratic[..k] == erratic[..k - 1] + [s[i]];
      }
    }
  }

  // ----- frame_downheap and frame_heapsort -----

  /** Every node of [lo, hi) whose parent is at or after `lo`, except the children of `hole`, is at most its parent. */
  ghost predicate HeapExcept(key: Order, s: seq<Cell>, lo: nat, hi: nat, hole: int)
    requires hi <= |s|
  {
    forall j {:trigger s[j]} :: 0 < j < hi && lo <= (j - 1) / 2 != hole ==> key(s[j]) <= key(s[(j - 1) / 2])
  }

  ghost predicate Heap(key: Order, s: seq<Cell>, lo: nat, hi: nat)
    requires hi <= |s|
  {
    HeapExcept(key, s, lo, hi, -1)
  }

  /** The children of `hole` are at most its parent. */
  ghost predicate Bridged(key: Order, s: seq<Cell>, lo: nat, hi: nat, hole: nat)
    requires hi <= |s|
  {
    hole > 0 && lo <= (hole - 1) / 2 ==>
      forall j {:trigger s[j]} :: 0 < j < hi && (j - 1) / 2 == hole ==> key(s[j]) <= key(s[(hole - 1) / 2])
  }

  /** `t` rearranges positions [lo, hi) of `s` and changes nothing else. */
  ghost predicate Rearranged(s: seq<Cell>, t: seq<Cell>, lo: nat, hi: nat) {
    && lo <= hi <= |s| == |t|
    && (forall p :: 0 <= p < lo || hi <= p < |s| ==> t[p] == s[p])
    && multiset(t) == multiset(s)
  }

  lemma SwapRearranges(s: seq<Cell>, t: seq<Cell>, i: nat, j: nat, lo: nat, hi: nat)
    requires lo <= i < j < hi <= |t| && Rearranged(s, t, lo, hi)
    ensures Rearranged(s, t[i := t[j]][j := t[i]], lo, hi)
  {
    assert multiset(t[i := t[j]][j := t[i]]) == multiset(t);
  }

  ghost predicate LargestChild(key: Order, s: seq<Cell>, hi: nat, i: nat, j: nat)
    requires j < hi <= |s|
  {
    && 0 < j && (j - 1) / 2 == i
    && forall c {:trigger s[c]} :: 0 < c < hi && (c - 1) / 2 == i ==> key(s[c]) <= key(s[j])
  }

  lemma PickChild(key: Order, s: seq<Cell>, hi: nat, i: nat)
    requires 2 * i + 1 < hi <= |s|
    ensures var j := 2 * i + 1;
            LargestChild(key, s, hi, i, if j + 1 < hi && key(s[j]) < key(s[j + 1]) then j + 1 else j)
  {
  }

  lemma SiftStart(key: Order, s: seq<Cell>, lo: nat, hi: nat)
    requires lo < hi <= |s|
    ensures Bridged(key, s, lo, hi, lo) && Rearranged(s, s, lo, hi)
  {
  }

  /** When the hole's largest child is no larger, the semi-heap is a heap. */
  lemma HoleFilled(key: Order, s: seq<Cell>, lo: nat, hi: nat, i: nat)
    requires lo <= i < hi <= |s| && HeapExcept(key, s, lo, hi, i)
    requires 2 * i + 1 < hi ==> exists j :: i < j < hi && LargestChild(key, s, hi, i, j) && key(s[j]) <= key(s[i])
    ensures Heap(key, s, lo, hi)
  {
    if 2 * i + 1 < hi {
      var j :| i < j < hi && LargestChild(key, s, hi, i, j) && key(s[j]) <= key(s[i]);
    } else {
      assert forall c {:trigger s[c]} :: 0 < c < hi ==> (c - 1) / 2 != i;
    }
  }

  /** Moving the larger child of the hole up into it moves the hole down. */
  lemma SiftStep(key: Order, s: seq<Cell>, t: seq<Cell>, lo: nat, hi: nat, i: nat, j: nat)
    requires lo <= i < j < hi <= |s|
    requires HeapExcept(key, s, lo, hi, i) && Bridged(key, s, lo, hi, i) && LargestChild(key, s, hi, i, j)
    requires key(s[i]) < key(s[j]) && t == s[i := s[j]][j := s[i]]
    ensures HeapExcept(key, t, lo, hi, j) && Bridged(key, t, lo, hi, j)
  {
    forall c {:trigger t[c]} | 0 < c < hi && lo <= (c - 1) / 2 != j ensures key(t[c]) <= key(t[(c - 1) / 2]) {
      var p := (c - 1) / 2;
      assert key(s[c]) <= key(s[c]);
      if p == i {
        assert t[p] == s[j];
      } else if c == i {
        assert t[c] == s[j] && t[p] == s[p];
      } else {
        assert t[c] == s[c] && t[p] == s[p];
      }
    }
    forall c {:trigger t[c]} | 0 < c < hi && (c - 1) / 2 == j ensures key(t[c]) <= key(t[i]) {
      assert t[c] == s[c];
    }
  }

  method Swap(a: array<Cell>, i: nat, j: nat)
    requires i < a.Length && j < a.Length
    modifies a
    ensures a[..] == old(a[..])[i := old(a[j])][j := old(a[i])]
  {
    a[i], a[j] := a[j], a[i];
  }

  /** Pushes the root of a semi-heap down to its place. */
  method FrameDownheap(key: Order, a: array<Cell>, lo: nat, hi: nat)
    requires lo < hi <= a.Length
    requires HeapExcept(key, a[..], lo, hi, lo)
    modifies a
    ensures Heap(key, a[..], lo, hi)
    ensures Rearranged(old(a[..]), a[..], lo, hi)
  {
    hide *;
    SiftStart(key, a[..], lo, hi);
    var i := lo;
    var j := 2 * i + 1;
    while j < hi
      invariant lo <= i < hi && j == 2 * i + 1
      invariant HeapExcept(key, a[..], lo, hi, i) && Bridged(key, a[..], lo, hi, i)
      invariant Rearranged(old(a[..]), a[..], lo, hi)
      decreases hi - i
    {
      ghost var s := a[..];
      PickChild(key, s, hi, i);
      if j + 1 < hi && key(a[j]) < key(a[j + 1]) {
        j := j + 1;
      }
      if key(a[i]) >= key(a[j]) {
        break;
      }
      SwapRearranges(old(a[..]), s, i, j, lo, hi);
      Swap(a, i, j);
      SiftStep(key, s, a[..], lo, hi, i, j);
      i := j;
      j := 2 * i + 1;
    }
    HoleFilled(key, a[..], lo, hi, i);
  }

  /** The root of a heap is its maximum. */
  lemma {:induction false} HeapTop(key: Order, s: seq<Cell>, hi: nat, j: nat)
    requires j < hi <= |s| && Heap(key, s, 0, hi)
    ensures key(s[j]) <= key(s[0])
  {
    if j > 0 {
      HeapTop(key, s, hi, (j - 1) / 2);
    }
  }

  /** The positions from `n` on are in order and bound everything before them. */
  ghost predicate TailInPlace(key: Order, s: seq<Cell>, n: nat, end: nat)
    requires n <= end <= |s|
  {
    forall i, j :: 0 <= i < j < end && n <= j ==> key(s[i]) <= key(s[j])
  }

  lemma SamePrefixElements(s: seq<Cell>, t: seq<Cell>, n: nat)
    requires Rearranged(s, t, 0, n)
    ensures multiset(t[..n]) == multiset(s[..n])
  {
    assert s == s[..n] + s[n..];
    assert t == t[..n] + t[n..];
    assert s[n..] == t[n..];
    assert multiset(s) - multiset(s[n..]) == multiset(s[..n]);
    assert multiset(t) - multiset(t[n..]) == multiset(t[..n]);
  }

  lemma TailSurvives(key: Order, s: seq<Cell>, t: seq<Cell>, n: nat, end: nat)
    requires Rearranged(s, t, 0, n) && n <= end <= |s|
    requires TailInPlace(key, s, n, end)
    ensures TailInPlace(key, t, n, end)
  {
    SamePrefixElements(s, t, n);
    forall i, j | 0 <= i < j < end && n <= j ensures key(t[i]) <= key(t[j]) {
      if i < n {
        assert t[i] == t[..n][i] && t[i] in multiset(t[..n]);
        assert t[i] in s[..n];
        var p :| 0 <= p < n && s[p] == t[i];
      }
    }
  }

  /** Swapping the maximum of the heap [0, n] to position n puts position n in place. */
  lemma ExtractMax(key: Order, s: seq<Cell>, t: seq<Cell>, n: nat, end: nat)
    requires 0 < n < end <= |s| && t == s[0 := s[n]][n := s[0]]
    requires Heap(key, s, 0, n + 1) && TailInPlace(key, s, n + 1, end)
    ensures HeapExcept(key, t, 0, n, 0) && TailInPlace(key, t, n, end)
  {
    forall i, j | 0 <= i < j < end && n <= j ensures key(t[i]) <= key(t[j]) {
      if j == n {
        HeapTop(key, s, n + 1, if i == 0 then n else i);
      } else {
        assert key(s[i]) <= key(s[j]) && key(s[0]) <= key(s[j]) && key(s[n]) <= key(s[j]);
      }
    }
  }

  /** The first loop of the sort: turns a[..n] into a heap, from its last parent to the root. */
  method MakeHeap(key: Order, a: array<Cell>, n: nat)
    requires n <= a.Length
    modifies a
    ensures Heap(key, a[..], 0, n) && Rearranged(old(a[..]), a[..], 0, n)
  {
    hide *;
    HeapStart(key, a[..], n);
    var m := n / 2 - 1;
    while m >= 0
      invariant -1 <= m <= n / 2 - 1
      invariant Heap(key, a[..], m + 1, n) && Rearranged(old(a[..]), a[..], 0, n)
    {
      ghost var s := a[..];
      GrowHeap(key, s, m, n);
      FrameDownheap(key, a, m, n);
      RearrangedTrans(old(a[..]), s, a[..], m, n);
      m := m - 1;
    }
  }

  /** Moves the maximum of the heap [0, m] to its end, and makes the rest a heap again. */
  method MoveMaximum(key: Order, a: array<Cell>, m: nat, n: nat)
    requires 0 < m < n <= a.Length && Heap(key, a[..], 0, m + 1) && TailInPlace(key, a[..], m + 1, n)
    modifies a
    ensures Heap(key, a[..], 0, m) && TailInPlace(key, a[..], m, n) && Rearranged(old(a[..]), a[..], 0, n)
  {
    hide *;
    ghost var s := a[..];
    SiftStart(key, s, 0, n);
    SwapRearranges(s, s, 0, m, 0, n);
    Swap(a, 0, m);
    ghost var t := a[..];
    ExtractMax(key, s, t, m, n);
    FrameDownheap(key, a, 0, m);
    TailSurvives(key, t, a[..], m, n);
    RearrangedWiden(s, t, a[..], m, n);
  }

  /** Sorts a[..n] in place. */
  method FrameHeapsort(key: Order, a: array<Cell>, n: nat)
    requires n <= a.Length
    modifies a
    ensures Sorted(key, a[..n])
    ensures Rearranged(old(a[..]), a[..], 0, n)
  {
    hide *;
    MakeHeap(key, a, n);
    var m := n - 1;
    NothingInPlace(key, a[..], n);
    while m >= 1
      invariant -1 <= m < n && (n > 0 ==> m >= 0)
      invariant Heap(key, a[..], 0, m + 1) && TailInPlace(key, a[..], m + 1, n)
      invariant Rearranged(old(a[..]), a[..], 0, n)
    {
      ghost var s := a[..];
      MoveMaximum(key, a, m, n);
      RearrangedTrans(old(a[..]), s, a[..], 0, n);
      m := m - 1;
    }
    AllInPlace(key, a[..], n);
    assert a[..][..n] == a[..n];
  }

  lemma HeapStart(key: Order, s: seq<Cell>, n: nat)
    requires n <= |s|
    ensures Heap(key, s, n / 2, n) && Rearranged(s, s, 0, n)
  {
  }

  lemma GrowHeap(key: Order, s: seq<Cell>, m: nat, n: nat)
    requires m < n <= |s| && Heap(key, s, m + 1, n)
    ensures HeapExcept(key, s, m, n, m)
  {
  }

  lemma NothingInPlace(key: Order, s: seq<Cell>, n: nat)
    requires n <= |s|
    ensures TailInPlace(key, s, n, n)
  {
  }

  lemma AllInPlace(key: Order, s: seq<Cell>, n: nat)
    requires n <= |s| && (n > 0 ==> TailInPlace(key, s, 1, n))
    ensures Sorted(key, s[..n])
  {
  }

  lemma RearrangedTrans(s: seq<Cell>, t: seq<Cell>, u: seq<Cell>, lo: nat, n: nat)
    requires Rearranged(s, t, 0, n) && Rearranged(t, u, lo, n)
    ensures Rearranged(s, u, 0, n)
  {
  }

  lemma RearrangedWiden(s: seq<Cell>, t: seq<Cell>, u: seq<Cell>, m: nat, n: nat)
    requires Rearranged(s, t, 0, n) && Rearranged(t, u, 0, m) && m <= n
    ensures Rearranged(s, u, 0, n)
  {
  }

  // ----- fde_merge -----

  /** Merging from the back; on equal keys the element of `b` goes last. */
  function Merge(key: Order, a: seq<Cell>, b: seq<Cell>): (r: seq<Cell>)
    ensures |r| == |a| + |b|
    decreases |a| + |b|
  {
    if b == [] then a
    else if a != [] && key(a[|a| - 1]) > key(b[|b| - 1]) then Merge(key, a[..|a| - 1], b) + [a[|a| - 1]]
    else Merge(key, a, b[..|b| - 1]) + [b[|b| - 1]]
  }

  lemma LastCounts(s: seq<Cell>)
    requires s != []
    ensures multiset(s) == multiset(s[..|s| - 1]) + multiset{s[|s| - 1]}
  {
    assert s == s[..|s| - 1] + [s[|s| - 1]];
  }

  lemma {:induction false} MergePermutes(key: Order, a: seq<Cell>, b: seq<Cell>)
    ensures multiset(Merge(key, a, b)) == multiset(a) + multiset(b)
    decreases |a| + |b|
  {
    if b == [] {
    } else if a != [] && key(a[|a| - 1]) > key(b[|b| - 1]) {
      MergePermutes(key, a[..|a| - 1], b);
      LastCounts(a);
      LastCounts(Merge(key, a, b));
    } else {
      MergePermutes(key, a, b[..|b| - 1]);
      LastCounts(b);
      LastCounts(Merge(key, a, b));
    }
  }

  ghost predicate AtMost(key: Order, s: seq<Cell>, k: nat) {
    forall i :: 0 <= i < |s| ==> key(s[i]) <= k
  }

  lemma {:induction false} MergeBounded(key: Order, a: seq<Cell>, b: seq<Cell>, k: nat)
    requires AtMost(key, a, k) && AtMost(key, b, k)
    ensures AtMost(key, Merge(key, a, b), k)
    decreases |a| + |b|
  {
    if b == [] {
    } else if a != [] && key(a[|a| - 1]) > key(b[|b| - 1]) {
      MergeBounded(key, a[..|a| - 1], b, k);
    } else {
      MergeBounded(key, a, b[..|b| - 1], k);
    }
  }

  lemma {:induction false} MergeSorts(key: Order, a: seq<Cell>, b: seq<Cell>)
    requires Sorted(key, a) && Sorted(key, b)
    ensures Sorted(key, Merge(key, a, b))
    decreases |a| + |b|
  {
    if b == [] {
    } else if a != [] && key(a[|a| - 1]) > key(b[|b| - 1]) {
      MergeSorts(key, a[..|a| - 1], b);
      MergeBounded(key, a[..|a| - 1], b, key(a[|a| - 1]));
    } else {
      MergeSorts(key, a, b[..|b| - 1]);
      MergeBounded(key, a, b[..|b| - 1], key(b[|b| - 1]));
    }
  }

  /** The elements of one key, in order. */
  function OfKey(key: Order, s: seq<Cell>, k: nat): seq<Cell> {
    if s == [] then []
    else
      var front, last := s[..|s| - 1], s[|s| - 1];
      if key(last) == k then OfKey(key, front, k) + [last] else OfKey(key, front, k)
  }

  lemma OfKeyLast(key: Order, front: seq<Cell>, last: Cell, k: nat)
    ensures OfKey(key, front + [last], k)
            == if key(last) == k then OfKey(key, front, k) + [last] else OfKey(key, front, k)
  {
    var s := front + [last];
    assert s[..|s| - 1] == front && s[|s| - 1] == last;
  }

  lemma OfKeyFront(key: Order, s: seq<Cell>, k: nat)
    requires s != []
    ensures var front, last := s[..|s| - 1], s[|s| - 1];
            OfKey(key, s, k) == if key(last) == k then OfKey(key, front, k) + [last] else OfKey(key, front, k)
  {
  }

  /** The last element of the merge, and the merge of what is left. */
  lemma MergeLast(key: Order, a: seq<Cell>, b: seq<Cell>)
    requires b != []
    ensures Merge(key, a, b) ==
            if a != [] && key(a[|a| - 1]) > key(b[|b| - 1]) then Merge(key, a[..|a| - 1], b) + [a[|a| - 1]]
            else Merge(key, a, b[..|b| - 1]) + [b[|b| - 1]]
  {
  }

  /** The merge of sorted inputs is stable: elements of equal key keep their order, the first input's first. */
  lemma {:induction false} MergeStable(key: Order, a: seq<Cell>, b: seq<Cell>, k: nat)
    requires Sorted(key, a) && Sorted(key, b)
    ensures OfKey(key, Merge(key, a, b), k) == OfKey(key, a, k) + OfKey(key, b, k)
    decreases |a| + |b|
  {
    hide OfKey, Merge;
    if b == [] {
      NoneOfKey(key, b, k);
      MergeNothing(key, a);
    } else {
      MergeLast(key, a, b);
      if a != [] && key(a[|a| - 1]) > key(b[|b| - 1]) {
        MergeStable(key, a[..|a| - 1], b, k);
        OfKeyLast(key, Merge(key, a[..|a| - 1], b), a[|a| - 1], k);
        OfKeyFront(key, a, k);
        if key(a[|a| - 1]) == k {
          NoneOfKey(key, b, k);
        }
      } else {
        MergeStable(key, a, b[..|b| - 1], k);
        OfKeyLast(key, Merge(key, a, b[..|b| - 1]), b[|b| - 1], k);
        OfKeyFront(key, b, k);
      }
    }
  }

  lemma MergeNothing(key: Order, a: seq<Cell>)
    ensures Merge(key, a, []) == a
  {
  }

  lemma {:induction false} NoneOfKey(key: Order, s: seq<Cell>, k: nat)
    requires forall i :: 0 <= i < |s| ==> key(s[i]) < k
    ensures OfKey(key, s, k) == []
  {
    if s != [] {
      NoneOfKey(key, s[..|s| - 1], k);
    }
  }

  /** The part of v1 from i1 + n2 on is final: it completes the merge of what is left to `goal`. */
  ghost predicate Merging(key: Order, goal: seq<Cell>, v1: seq<Cell>, i1: nat, v2: seq<Cell>, n2: nat, total: nat)
    requires i1 + n2 <= total <= |v1| && n2 <= |v2|
  {
    goal == Merge(key, v1[..i1], v2[..n2]) + v1[i1 + n2..total]
  }

  lemma MergeShift(key: Order, goal: seq<Cell>, v1: seq<Cell>, i1: nat, v2: seq<Cell>, n2: nat, total: nat)
    requires 0 < i1 && 0 < n2 <= |v2| && i1 + n2 <= total <= |v1| && key(v1[i1 - 1]) > key(v2[n2 - 1])
    requires Merging(key, goal, v1, i1, v2, n2, total)
    ensures Merging(key, goal, v1[i1 + n2 - 1 := v1[i1 - 1]], i1 - 1, v2, n2, total)
  {
    var w := v1[i1 + n2 - 1 := v1[i1 - 1]];
    assert w[..i1 - 1] == v1[..i1][..i1 - 1];
    assert w[i1 + n2 - 1..total] == [v1[i1 - 1]] + v1[i1 + n2..total];
  }

  lemma MergePlace(key: Order, goal: seq<Cell>, v1: seq<Cell>, i1: nat, v2: seq<Cell>, n2: nat, total: nat)
    requires 0 < n2 <= |v2| && i1 + n2 <= total <= |v1|
    requires i1 > 0 ==> key(v1[i1 - 1]) <= key(v2[n2 - 1])
    requires Merging(key, goal, v1, i1, v2, n2, total)
    ensures Merging(key, goal, v1[i1 + n2 - 1 := v2[n2 - 1]], i1, v2, n2 - 1, total)
  {
    var w := v1[i1 + n2 - 1 := v2[n2 - 1]];
    assert w[..i1] == v1[..i1];
    assert v2[..n2 - 1] == v2[..n2][..n2 - 1];
    assert w[i1 + n2 - 1..total] == [v2[n2 - 1]] + v1[i1 + n2..total];
  }

  lemma MergeStart(key: Order, v1: seq<Cell>, count1: nat, v2: seq<Cell>, count2: nat)
    requires count1 + count2 <= |v1| && count2 <= |v2|
    ensures Merging(key, Merge(key, v1[..count1], v2[..count2]), v1, count1, v2, count2, count1 + count2)
  {
  }

  lemma MergeEnd(key: Order, goal: seq<Cell>, v1: seq<Cell>, i1: nat, v2: seq<Cell>, total: nat)
    requires i1 <= total <= |v1| && Merging(key, goal, v1, i1, v2, 0, total)
    ensures v1[..total] == goal
  {
    assert v2[..0] == [];
  }

  /** Merges v2[..count2] into v1[..count1] in place, from the back. */
  method FdeMerge(key: Order, v1: array<Cell>, count1: nat, v2: array<Cell>, count2: nat)
    requires v1 != v2 && count1 + count2 <= v1.Length && count2 <= v2.Length
    modifies v1
    ensures v1[..count1 + count2] == Merge(key, old(v1[..count1]), old(v2[..count2]))
    ensures v1[count1 + count2..] == old(v1[count1 + count2..])
  {
    hide *;
    ghost var total := count1 + count2;
    ghost var goal := Merge(key, v1[..count1], v2[..count2]);
    ghost var s2 := v2[..];
    var i1: nat, i2: nat := count1, count2;
    assert v1[..count1] == v1[..][..count1] && v2[..count2] == s2[..count2];
    MergeStart(key, v1[..], count1, s2, count2);
    while i2 > 0
      invariant i1 <= count1 && i2 <= count2 && v2[..] == s2
      invariant Merging(key, goal, v1[..], i1, s2, i2, total)
      invariant v1[total..] == old(v1[total..])
    {
      i2 := i2 - 1;
      var fde2 := v2[i2];
      while i1 > 0 && key(v1[i1 - 1]) > key(fde2)
        invariant i1 <= count1 && v2[..] == s2
        invariant Merging(key, goal, v1[..], i1, s2, i2 + 1, total)
        invariant v1[total..] == old(v1[total..])
      {
        ghost var s1 := v1[..];
        MergeShift(key, goal, s1, i1, s2, i2 + 1, total);
        v1[i1 + i2] := v1[i1 - 1];
        assert v1[..] == s1[i1 + i2 := s1[i1 - 1]];
        i1 := i1 - 1;
      }
      ghost var s1 := v1[..];
      MergePlace(key, goal, s1, i1, s2, i2 + 1, total);
      v1[i1 + i2] := fde2;
      assert v1[..] == s1[i1 + i2 := fde2];
    }
    MergeEnd(key, goal, v1[..], i1, s2, total);
    assert v1[..total] == v1[..][..total];
  }

  // ----- end_fde_sort -----

  lemma SplitThenMerge(key: Order, s: seq<Cell>, erratic: seq<Cell>)
    requires Sorted(key, erratic) && multiset(erratic) == multiset(Part(key, s, false, |s|))
    ensures var merged := Merge(key, Part(key, s, true, |s|), erratic);
            Sorted(key, merged) && multiset(merged) == multiset(s)
  {
    KeptPartSorted(key, s, |s|);
    MergeSorts(key, Part(key, s, true, |s|), erratic);
    MergePermutes(key, Part(key, s, true, |s|), erratic);
    PartsPermute(key, s, |s|);
    assert s[..|s|] == s;
  }

  /**
   Sorts the accumulated FDEs, with the help of a second vector when there is memory for one. Of the
   two aborts the first fires only when the number accumulated differs from the number announced,
   and the second never does.
   */
  method EndFdeSort(key: Order, linear: array<Cell>, accumulated: nat, erratic: array?<Cell>, count: nat)
    returns (aborted: bool)
    requires accumulated <= linear.Length
    requires erratic != null ==> erratic != linear && accumulated <= erratic.Length
    modifies linear, erratic
    ensures aborted <==> accumulated != count
    ensures !aborted ==> Sorted(key, linear[..count]) && multiset(linear[..count]) == old(multiset(linear[..count]))
  {
    hide *;
    if accumulated != count {
      return true;
    }
    ghost var s := linear[..count];
    if erratic != null {
      var j, k := FdeSplit(key, linear, count, erratic);
      if j + k != count {
        return true;
      }
      assert s[..] == s;
      ghost var t := erratic[..];
      FrameHeapsort(key, erratic, k);
      SamePrefixElements(t, erratic[..], k);
      assert t[..k] == Part(key, s, false, count);
      assert erratic[..][..k] == erratic[..k];
      SplitThenMerge(key, s, erratic[..k]);
      FdeMerge(key, linear, j, erratic, k);
    } else {
      ghost var t := linear[..];
      FrameHeapsort(key, linear, count);
      SamePrefixElements(t, linear[..], count);
      assert t[..count] == s && linear[..][..count] == linear[..count];
    }
    return false;
  }
}
