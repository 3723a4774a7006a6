/**
 The nesting of handlers and propagating exceptions in one thread, as a stack of frames: a handler
 that is running, or an exception in flight. Code runs at the top of the stack.
 */
module EhNesting {

  datatype Frame<T> = Handler(e: T) | Flight(e: T)

  /** The active handlers, innermost last. */
  ghost function Handlers<T>(frames: seq<Frame<T>>): seq<T>
  {
    if frames == [] then []
    else
      var front, top := frames[..|frames| - 1], frames[|frames| - 1];
      if top.Handler? then Handlers(front) + [top.e] else Handlers(front)
  }

  /** The exceptions in flight, most recent last. */
  ghost function Flights<T>(frames: seq<Frame<T>>): seq<T>
  {
    if frames == [] then []
    else
      var front, top := frames[..|frames| - 1], frames[|frames| - 1];
      if top.Flight? then Flights(front) + [top.e] else Flights(front)
  }

  lemma HandlersPush<T>(frames: seq<Frame<T>>, f: Frame<T>)
    ensures Handlers(frames + [f]) == if f.Handler? then Handlers(frames) + [f.e] else Handlers(frames)
    ensures Flights(frames + [f]) == if f.Flight? then Flights(frames) + [f.e] else Flights(frames)
  {
    assert (frames + [f])[..|frames|] == frames;
  }

  lemma {:induction false} Members<T>(frames: seq<Frame<T>>, x: T)
    ensures x in Handlers(frames) <==> Handler(x) in frames
    ensures x in Flights(frames) <==> Flight(x) in frames
  {
    if frames != [] {
      var front, top := frames[..|frames| - 1], frames[|frames| - 1];
      assert frames == front + [top];
      Members(front, x);
    }
  }

  /** How many active handlers an exception has. */
  ghost function Count<T>(frames: seq<Frame<T>>, x: T): nat {
    multiset(Handlers(frames))[x]
  }

  /** `h` with adjacent repeats collapsed. */
  ghost function Collapse<T>(h: seq<T>): (c: seq<T>)
    ensures h != [] ==> c != [] && c[|c| - 1] == h[|h| - 1]
    ensures h == [] ==> c == []
  {
    if h == [] then []
    else
      var front, top := h[..|h| - 1], h[|h| - 1];
      if front != [] && front[|front| - 1] == top then Collapse(front) else Collapse(front) + [top]
  }

  lemma {:induction false} CollapseMembers<T>(h: seq<T>, x: T)
    ensures x in Collapse(h) <==> x in h
  {
    if h != [] {
      var front, top := h[..|h| - 1], h[|h| - 1];
      assert h == front + [top];
      CollapseMembers(front, x);
    }
  }

  lemma CollapsePush<T>(h: seq<T>, x: T)
    ensures Collapse(h + [x]) == if h != [] && h[|h| - 1] == x then Collapse(h) else Collapse(h) + [x]
  {
    var s := h + [x];
    assert s[..|s| - 1] == h && s[|s| - 1] == x;
  }

  /** The handlers of one exception are nested directly in each other. */
  ghost predicate Grouped<T>(h: seq<T>) {
    forall i, j, k :: 0 <= i <= k <= j < |h| && h[i] == h[j] ==> h[k] == h[i]
  }

  ghost predicate Distinct<T>(s: seq<T>) {
    forall i, j :: 0 <= i < j < |s| ==> s[i] != s[j]
  }

  /** Collapsing grouped handlers leaves no repeats. */
  lemma {:induction false} CollapseDistinct<T>(h: seq<T>)
    requires Grouped(h)
    ensures Distinct(Collapse(h))
  {
    if h != [] {
      var front, top := h[..|h| - 1], h[|h| - 1];
      assert h == front + [top];
      GroupedPrefix(front, top);
      CollapseDistinct(front);
      CollapseMembers(front, top);
      if top in front {
        GroupedLast(front, top);
      }
    }
  }

  /** The exception in flight at `p` flies once, is not handled above, and left its own innermost handler, if any. */
  ghost predicate FlightFits<T>(frames: seq<Frame<T>>, p: nat)
    requires p < |frames| && frames[p].Flight?
  {
    var x, h := frames[p].e, Handlers(frames[..p]);
    && (forall q :: 0 <= q < |frames| && q != p ==> frames[q] != Flight(x))
    && (forall q :: p < q < |frames| ==> frames[q] != Handler(x))
    && (x in h ==> h[|h| - 1] == x)
  }

  ghost predicate Nested<T>(frames: seq<Frame<T>>) {
    && Grouped(Handlers(frames))
    && forall p :: 0 <= p < |frames| && frames[p].Flight? ==> FlightFits(frames, p)
  }

  // ----- what may happen next -----

  ghost predicate CanCatch<T>(frames: seq<Frame<T>>, x: T) {
    frames != [] && frames[|frames| - 1] == Flight(x)
  }

  /** A handler ends when it is at the top, or when the exception at the top leaves it. */
  ghost predicate CanEnd<T>(frames: seq<Frame<T>>) {
    || (frames != [] && frames[|frames| - 1].Handler?)
    || (|frames| >= 2 && frames[|frames| - 1].Flight? && frames[|frames| - 2].Handler?)
  }

  ghost function Ended<T>(frames: seq<Frame<T>>): seq<Frame<T>>
    requires CanEnd(frames)
  {
    if frames[|frames| - 1].Handler? then frames[..|frames| - 1]
    else frames[..|frames| - 2] + frames[|frames| - 1..]
  }

  /** The innermost handler's exception is rethrown; it must not be propagating already. */
  ghost predicate CanRethrow<T>(frames: seq<Frame<T>>, x: T) {
    var h := Handlers(frames);
    h != [] && h[|h| - 1] == x && Flight(x) !in frames
  }

  lemma GroupedPrefix<T>(h: seq<T>, x: T)
    ensures Grouped(h + [x]) ==> Grouped(h)
  {
    if Grouped(h + [x]) {
      forall i, j, k | 0 <= i <= k <= j < |h| && h[i] == h[j] ensures h[k] == h[i] {
        assert (h + [x])[i] == h[i] && (h + [x])[j] == h[j] && (h + [x])[k] == h[k];
      }
    }
  }

  /** In grouped handlers, a repeat of the last one is next to it. */
  lemma GroupedLast<T>(h: seq<T>, x: T)
    requires Grouped(h + [x]) && x in h
    ensures h[|h| - 1] == x
  {
    var i :| 0 <= i < |h| && h[i] == x;
    var g := h + [x];
    assert g[i] == g[|h|] && g[|h| - 1] == h[|h| - 1];
  }

  lemma PrefixNested<T>(frames: seq<Frame<T>>)
    requires frames != [] && Nested(frames)
    ensures Nested(frames[..|frames| - 1])
  {
    hide Handlers, Grouped;
    var front, top := frames[..|frames| - 1], frames[|frames| - 1];
    assert frames == front + [top];
    HandlersPush(front, top);
    GroupedPrefix(Handlers(front), top.e);
    forall p | 0 <= p < |front| && front[p].Flight? ensures FlightFits(front, p) {
      assert FlightFits(frames, p);
      assert front[..p] == frames[..p];
    }
  }

  lemma GroupedPush<T>(h: seq<T>, x: T)
    requires Grouped(h) && (x in h ==> h[|h| - 1] == x)
    ensures Grouped(h + [x])
  {
    var g := h + [x];
    forall i, j, k | 0 <= i <= k <= j < |g| && g[i] == g[j] ensures g[k] == g[i] {
      if j == |h| && i < |h| {
        assert x in h && h[i] == h[|h| - 1];
      }
    }
  }

  lemma PushNested<T>(frames: seq<Frame<T>>, f: Frame<T>)
    requires Nested(frames) && Flight(f.e) !in frames
    requires f.e in Handlers(frames) ==> Handlers(frames)[|Handlers(frames)| - 1] == f.e
    ensures Nested(frames + [f])
  {
    hide Handlers, Grouped, FlightFits;
    var after := frames + [f];
    HandlersPush(frames, f);
    GroupedPush(Handlers(frames), f.e);
    forall p | 0 <= p < |after| && after[p].Flight? ensures FlightFits(after, p) {
      if p < |frames| {
        OlderFits(frames, f, p);
      } else {
        NewestFits(frames, f);
      }
    }
  }

  lemma OlderFits<T>(frames: seq<Frame<T>>, f: Frame<T>, p: nat)
    requires p < |frames| && frames[p].Flight? && FlightFits(frames, p) && Flight(f.e) !in frames
    ensures FlightFits(frames + [f], p)
  {
    hide Handlers;
    var after := frames + [f];
    assert after[..p] == frames[..p] && after[p] == frames[p] && frames[p] in frames;
  }

  lemma NewestFits<T>(frames: seq<Frame<T>>, f: Frame<T>)
    requires f.Flight? && f !in frames
    requires f.e in Handlers(frames) ==> Handlers(frames)[|Handlers(frames)| - 1] == f.e
    ensures FlightFits(frames + [f], |frames|)
  {
    hide Handlers;
    assert (frames + [f])[..|frames|] == frames;
  }

  lemma CatchNested<T>(frames: seq<Frame<T>>, x: T)
    requires Nested(frames) && CanCatch(frames, x)
    ensures var front := frames[..|frames| - 1];
            && Nested(front) && Nested(front + [Handler(x)])
            && Flight(x) !in front && (x in Handlers(front) ==> Handlers(front)[|Handlers(front)| - 1] == x)
  {
    var front := frames[..|frames| - 1];
    assert FlightFits(frames, |frames| - 1);
    assert forall q :: 0 <= q < |front| ==> front[q] == frames[q];
    PrefixNested(frames);
    PushNested(front, Handler(x));
  }

  lemma EndNested<T>(frames: seq<Frame<T>>)
    requires Nested(frames) && CanEnd(frames)
    ensures Nested(Ended(frames))
    ensures Handlers(frames) != [] && Handlers(Ended(frames)) == Handlers(frames)[..|Handlers(frames)| - 1]
    ensures Flights(Ended(frames)) == Flights(frames)
  {
    hide Handlers, Flights, Nested;
    var front, top := frames[..|frames| - 1], frames[|frames| - 1];
    assert frames == front + [top];
    HandlersPush(front, top);
    PrefixNested(frames);
    if top.Flight? {
      var low, e := front[..|front| - 1], front[|front| - 1].e;
      assert front == low + [Handler(e)] && frames[..|frames| - 2] == low && frames[|frames| - 1..] == [top];
      HandlersPush(low, Handler(e));
      HandlersPush(low, top);
      CatchNested(frames, top.e);
      PrefixNested(front);
      NestedGrouped(front);
      assert Flight(top.e) !in low;
      if top.e in Handlers(low) {
        assert top.e in Handlers(front);
        GroupedLast(Handlers(low), e);
      }
      PushNested(low, top);
    }
  }

  lemma NestedGrouped<T>(frames: seq<Frame<T>>)
    requires Nested(frames)
    ensures Grouped(Handlers(frames))
  {
  }

  /** Ending the innermost handler takes one from its exception's count and none from any other. */
  lemma EndCounts<T>(frames: seq<Frame<T>>, x: T)
    requires Nested(frames) && CanEnd(frames)
    ensures var e := Handlers(frames)[|Handlers(frames)| - 1];
            && Handlers(frames) != []
            && Count(frames, e) > 0
            && Count(Ended(frames), x) == Count(frames, x) - (if x == e then 1 else 0)
            && (Count(Ended(frames), e) == 0 <==>
                Collapse(Handlers(frames)) == Collapse(Handlers(Ended(frames))) + [e])
            && (Count(Ended(frames), e) > 0 <==> Collapse(Handlers(frames)) == Collapse(Handlers(Ended(frames))))
  {
    hide Handlers, Nested, Collapse, Grouped;
    EndNested(frames);
    var h := Handlers(frames);
    var e, low := h[|h| - 1], h[..|h| - 1];
    assert h == low + [e];
    CollapsePush(low, e);
    assert multiset(h) == multiset(low) + multiset{e};
    NestedGrouped(frames);
    if e in low {
      GroupedLast(low, e);
    }
  }
}
