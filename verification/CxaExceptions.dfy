/**
 The bookkeeping of caught and uncaught native exceptions in one thread: headers with a signed
 handler count, linked into the stack of caught exceptions, and the number of uncaught ones.
 */
module CxaExceptions {
  import opened EhNesting

  class Exception {
    var handlerCount: int
    var nextException: Exception?

    /** Allocation clears the header. */
    constructor ()
      ensures handlerCount == 0 && nextException == null
    {
      handlerCount, nextException := 0, null;
    }
  }

  ghost predicate Alive(frames: seq<Frame<Exception>>, e: Exception) {
    Handler(e) in frames || Flight(e) in frames
  }

  /** Positive while the exception is being handled, negated while it is propagating. */
  ghost function SignedCount(frames: seq<Frame<Exception>>, e: Exception): int {
    if Flight(e) in frames then 0 - Count(frames, e) else Count(frames, e)
  }

  ghost function TopOf(stack: seq<Exception>): Exception? {
    if stack == [] then null else stack[|stack| - 1]
  }

  /** `stack` is threaded through the headers, innermost last. */
  ghost predicate Threaded(stack: seq<Exception>)
    reads stack`nextException
  {
    stack == []
    || (stack[|stack| - 1].nextException == TopOf(stack[..|stack| - 1]) && Threaded(stack[..|stack| - 1]))
  }

  ghost predicate Linked(stack: seq<Exception>, top: Exception?)
    reads stack`nextException
  {
    top == TopOf(stack) && Threaded(stack)
  }

  ghost predicate Counted(frames: seq<Frame<Exception>>)
    reads set f | f in frames :: f.e
  {
    forall f :: f in frames ==> f.e.handlerCount == SignedCount(frames, f.e)
  }

  ghost predicate CountedBut(frames: seq<Frame<Exception>>, e: Exception)
    reads set f | f in frames :: f.e
  {
    forall f :: f in frames && f.e != e ==> f.e.handlerCount == SignedCount(frames, f.e)
  }

  /** Every thrown exception is either alive in the frames or was destroyed, once. */
  ghost predicate Accounted(frames: seq<Frame<Exception>>, thrown: set<Exception>, destroyed: seq<Exception>) {
    && (forall f :: f in frames ==> f.e in thrown && f.e !in destroyed)
    && (forall e :: e in thrown ==> e in destroyed || Alive(frames, e))
    && (forall e :: e in destroyed ==> e in thrown)
    && (forall i, j :: 0 <= i < j < |destroyed| ==> destroyed[i] != destroyed[j])
  }

  class EhGlobals {
    var caughtExceptions: Exception?
    var uncaughtExceptions: nat

    ghost var frames: seq<Frame<Exception>>
    ghost var thrown: set<Exception>
    ghost var destroyed: seq<Exception>

    /** The header on top of the stack of caught exceptions, if there is one. */
    ghost function Header(): set<Exception>
      reads this`caughtExceptions
    {
      if caughtExceptions == null then {} else {caughtExceptions}
    }

    ghost function TopCount(): int
      reads this`caughtExceptions, Header()`handlerCount
    {
      if caughtExceptions == null then 0 else caughtExceptions.handlerCount
    }

    ghost function Stack(): seq<Exception>
      reads this`frames
    {
      Collapse(Handlers(frames))
    }

    /** The globals and headers are those of the nesting `nesting`. */
    ghost predicate Fits(nesting: seq<Frame<Exception>>)
      reads this, thrown
    {
      && Nested(nesting)
      && Accounted(nesting, thrown, destroyed)
      && (StackThrown(nesting, thrown, destroyed); Linked(Collapse(Handlers(nesting)), caughtExceptions))
      && Counted(nesting)
      && uncaughtExceptions == |Flights(nesting)|
    }

    ghost predicate Valid()
      reads this, thrown
    {
      Fits(frames)
    }

    /** The exception on top has been uncaught for a while: it counts as uncaught, and one handler less. */
    ghost predicate Uncaught(e: Exception)
      reads this, thrown
    {
      && frames != [] && frames[|frames| - 1] == Handler(e)
      && Nested(frames)
      && Accounted(frames, thrown, destroyed)
      && (StackThrown(frames, thrown, destroyed); Linked(Stack(), e)) && caughtExceptions == e.nextException
      && CountedBut(frames, e) && e.handlerCount == SignedCount(frames, e) - 1
      && uncaughtExceptions == |Flights(frames)| + 1
    }

    constructor ()
      ensures Valid() && frames == [] && thrown == {} && destroyed == []
    {
      caughtExceptions, uncaughtExceptions := null, 0;
      frames, thrown, destroyed := [], {}, [];
    }

    /** Allocates an exception and throws it: it counts as uncaught from its allocation on. */
    method Throw() returns (e: Exception)
      requires Valid()
      modifies this
      ensures Valid() && fresh(e) && thrown == old(thrown) + {e}
      ensures frames == old(frames) + [Flight(e)] && destroyed == old(destroyed)
    {
      hide Nested, Collapse, Handlers, Flights, Accounted;
      StackThrown(frames, thrown, destroyed);
      e := new Exception();
      FreshFlight(frames, thrown, destroyed, e);
      uncaughtExceptions := uncaughtExceptions + 1;
      frames := frames + [Flight(e)];
      thrown := thrown + {e};
    }

    /** Enters a handler for the exception in flight. */
    method BeginCatch(e: Exception)
      requires Valid() && CanCatch(frames, e)
      modifies this`caughtExceptions, this`uncaughtExceptions, this`frames, e
      ensures Valid() && thrown == old(thrown) && destroyed == old(destroyed)
      ensures frames == old(frames)[..|old(frames)| - 1] + [Handler(e)] && caughtExceptions == e
    {
      hide Nested, Collapse, Handlers, Flights, Accounted, SignedCount, Threaded;
      CatchStack(frames, e);
      CatchAccounts(frames, thrown, destroyed, e);
      CatchAllCounts(frames, e);
      assert frames[|frames| - 1] == Flight(e);
      ghost var stack := Stack();
      assert e != TopOf(stack) ==> e !in stack;
      DoBeginCatch(e);
      if e != TopOf(stack) {
        ThreadedPush(stack, e);
      }
      frames := frames[..|frames| - 1] + [Handler(e)];
    }

    /** The code of begin_catch, for any state of the header. */
    method DoBeginCatch(header: Exception)
      requires uncaughtExceptions > 0
      modifies this`caughtExceptions, this`uncaughtExceptions, header`handlerCount, header`nextException
      ensures var count := old(header.handlerCount);
              header.handlerCount == (if count < 0 then -count else count) + 1
      ensures uncaughtExceptions == old(uncaughtExceptions) - 1 && caughtExceptions == header
      ensures header.nextException == old(if header == caughtExceptions then header.nextException else caughtExceptions)
    {
      var prev := caughtExceptions;
      var count := header.handlerCount;
      if count < 0 {
        count := -count + 1;
      } else {
        count := count + 1;
      }
      header.handlerCount := count;
      uncaughtExceptions := uncaughtExceptions - 1;
      if header != prev {
        header.nextException := prev;
        caughtExceptions := header;
      }
    }

    /** The constructor of uncatch_exception: the exception on top counts as uncaught again. */
    method DoUncatch() returns (p: Exception)
      requires caughtExceptions != null
      modifies this`caughtExceptions, this`uncaughtExceptions, caughtExceptions`handlerCount
      ensures p == old(caughtExceptions) && p.handlerCount == old(caughtExceptions.handlerCount) - 1
      ensures caughtExceptions == p.nextException && uncaughtExceptions == old(uncaughtExceptions) + 1
    {
      p := caughtExceptions;
      p.handlerCount := p.handlerCount - 1;
      caughtExceptions := p.nextException;
      uncaughtExceptions := uncaughtExceptions + 1;
    }

    /** Uncatches the exception whose handler is on top, however many handlers it has. */
    method Uncatch() returns (p: Exception)
      requires Valid() && frames != [] && frames[|frames| - 1].Handler?
      modifies this`caughtExceptions, this`uncaughtExceptions, frames[|frames| - 1].e`handlerCount
      ensures p == frames[|frames| - 1].e && Uncaught(p)
    {
      hide Nested, Collapse, Handlers, Flights, Accounted, SignedCount, Threaded;
      ghost var e := frames[|frames| - 1].e;
      TopHandler(frames, e);
      StackThrown(frames, thrown, destroyed);
      p := DoUncatch();
    }

    /** Catching it again restores the exception state. */
    method Recatch(p: Exception)
      requires Uncaught(p)
      modifies this`caughtExceptions, this`uncaughtExceptions, p`handlerCount, p`nextException
      ensures Valid() && caughtExceptions == p
    {
      hide Nested, Collapse, Handlers, Flights, Accounted, SignedCount, Threaded;
      TopHandler(frames, p);
      StackThrown(frames, thrown, destroyed);
      NextDiffers(Stack(), p);
      DoBeginCatch(p);
    }

    /** Uncatching and catching again restores the exception state exactly when the exception is being handled. */
    method UncatchAndCatch() returns (p: Exception)
      requires caughtExceptions != null && caughtExceptions.nextException != caughtExceptions
      modifies this`caughtExceptions, this`uncaughtExceptions, caughtExceptions
      ensures p == old(caughtExceptions) == caughtExceptions && uncaughtExceptions == old(uncaughtExceptions)
      ensures p.nextException == old(caughtExceptions.nextException)
      ensures p.handlerCount == old(caughtExceptions.handlerCount) <==> old(caughtExceptions.handlerCount) > 0
    {
      p := DoUncatch();
      DoBeginCatch(p);
    }

    /** The code of end_catch, for any state of the header; a count of zero is a bug that ends the program. */
    method DoEndCatch() returns (terminated: bool)
      modifies this`caughtExceptions, this`destroyed, Header()`handlerCount
      ensures old(caughtExceptions) == null ==> !terminated && caughtExceptions == null && destroyed == old(destroyed)
      ensures old(caughtExceptions) != null ==>
                var e, count := old(caughtExceptions), old(TopCount());
                && (terminated <==> count == 0)
                && (!terminated ==>
                      && caughtExceptions == (if count == 1 || count == -1 then e.nextException else e)
                      && destroyed == old(destroyed) + (if count == 1 then [e] else [])
                      && e.handlerCount == (if count == 1 then 1 else if count < 0 then count + 1 else count - 1))
    {
      var header := caughtExceptions;
      if header == null {
        return false;
      }
      var count := header.handlerCount;
      if count < 0 {
        count := count + 1;
        if count == 0 {
          caughtExceptions := header.nextException;
        }
      } else {
        count := count - 1;
        if count == 0 {
          caughtExceptions := header.nextException;
          destroyed := destroyed + [header];
          return false;
        } else if count < 0 {
          return true;
        }
      }
      header.handlerCount := count;
      return false;
    }

    /**
     Leaves the innermost handler, normally or because an exception propagates out of it. Its
     exception is destroyed exactly when no handler is left for it and it is not in flight; the
     exit for a bug in the library or the compiler is never taken.
     */
    method EndCatch()
      requires Valid() && (caughtExceptions == null || CanEnd(frames))
      modifies this`caughtExceptions, this`frames, this`destroyed, Header()`handlerCount
      ensures Valid() && thrown == old(thrown)
      ensures old(caughtExceptions) == null ==> frames == old(frames) && destroyed == old(destroyed)
      ensures old(caughtExceptions) != null ==>
                var e := old(caughtExceptions);
                && frames == Ended(old(frames))
                && destroyed == old(destroyed) + if Alive(frames, e) then [] else [e]
    {
      hide Nested, Collapse, Handlers, Flights, Accounted, SignedCount, Threaded;
      ghost var e, stack := caughtExceptions, Stack();
      StackThrown(frames, thrown, destroyed);
      if caughtExceptions != null {
        TopIsInnermost(frames, caughtExceptions);
        EndStep(frames, thrown, destroyed, caughtExceptions);
        ThreadedPop(stack);
      }
      var terminated := DoEndCatch();
      assert !terminated;
      if e != null {
        frames := Ended(frames);
        assert Stack() == stack || Stack() == stack[..|stack| - 1];
      }
    }

    /** The code of rethrow, for any state of the header. */
    method DoRethrow() returns (terminated: bool)
      modifies this`uncaughtExceptions, Header()`handlerCount
      ensures terminated <==> caughtExceptions == null
      ensures uncaughtExceptions == old(uncaughtExceptions) + 1
      ensures caughtExceptions != null ==> caughtExceptions.handlerCount == -old(TopCount())
    {
      uncaughtExceptions := uncaughtExceptions + 1;
      if caughtExceptions == null {
        return true;
      }
      caughtExceptions.handlerCount := -caughtExceptions.handlerCount;
      return false;
    }

    /** Rethrows the exception of the innermost handler; without one the program terminates. */
    method Rethrow() returns (terminated: bool)
      requires Valid() && (caughtExceptions == null || CanRethrow(frames, caughtExceptions))
      modifies this`uncaughtExceptions, this`frames, Header()`handlerCount
      ensures terminated <==> old(caughtExceptions) == null
      ensures !terminated ==> Valid() && thrown == old(thrown) && destroyed == old(destroyed)
      ensures !terminated ==> frames == old(frames) + [Flight(old(caughtExceptions))]
    {
      hide Nested, Collapse, Handlers, Flights, Accounted, SignedCount, Threaded;
      StackThrown(frames, thrown, destroyed);
      if caughtExceptions != null {
        TopIsInnermost(frames, caughtExceptions);
        RethrowStep(frames, thrown, destroyed, caughtExceptions);
      }
      terminated := DoRethrow();
      if !terminated {
        frames := frames + [Flight(caughtExceptions)];
      }
    }

    /** std::uncaught_exception: whether any exception is in flight. */
    method UncaughtException() returns (r: bool)
      requires Valid()
      ensures r <==> exists f :: f in frames && f.Flight?
    {
      hide Flights;
      r := uncaughtExceptions != 0;
      if r {
        Members(frames, Flights(frames)[0]);
      } else if f :| f in frames && f.Flight? {
        Members(frames, f.e);
      }
    }
  }

  /** A handler on top makes its exception the top of the stack, with a positive count. */
  lemma TopHandler(frames: seq<Frame<Exception>>, e: Exception)
    requires Nested(frames) && frames != [] && frames[|frames| - 1] == Handler(e)
    ensures TopOf(Collapse(Handlers(frames))) == e && SignedCount(frames, e) > 0 && Distinct(Collapse(Handlers(frames)))
  {
    hide Nested, Handlers, Collapse, Grouped;
    var front := frames[..|frames| - 1];
    assert frames == front + [Handler(e)];
    HandlersPush(front, Handler(e));
    NotFlying(frames, e);
    CountMembers(frames, e);
    NestedGrouped(frames);
    CollapseDistinct(Handlers(frames));
  }

  /** In a stack without repeats the header below is another one. */
  lemma NextDiffers(stack: seq<Exception>, e: Exception)
    requires Linked(stack, e) && Distinct(stack) && stack != []
    ensures e.nextException != e
  {
  }

  lemma ThreadedPop(stack: seq<Exception>)
    requires stack != [] && Threaded(stack)
    ensures Linked(stack[..|stack| - 1], stack[|stack| - 1].nextException)
  {
  }

  lemma TopIsInnermost(frames: seq<Frame<Exception>>, e: Exception)
    requires TopOf(Collapse(Handlers(frames))) == e
    ensures Handlers(frames) != [] && Handlers(frames)[|Handlers(frames)| - 1] == e && Handler(e) in frames
  {
  }

  /** The signed counts after ending a handler of `e`: one closer to zero for `e`, the same for the others. */
  ghost predicate EndedCounts(frames: seq<Frame<Exception>>, after: seq<Frame<Exception>>, e: Exception) {
    forall f :: f in after ==>
      f in frames && SignedCount(after, f.e) ==
      SignedCount(frames, f.e) - (if f.e != e then 0 else if Flight(e) in frames then -1 else 1)
  }

  lemma EndStep(frames: seq<Frame<Exception>>, thrown: set<Exception>, destroyed: seq<Exception>, e: Exception)
    requires Nested(frames) && CanEnd(frames) && Accounted(frames, thrown, destroyed)
    requires Handlers(frames) != [] && Handlers(frames)[|Handlers(frames)| - 1] == e && Handler(e) in frames
    ensures var after := Ended(frames);
            && Nested(after) && Flights(after) == Flights(frames) && EndedCounts(frames, after, e)
            && (SignedCount(frames, e) < 0 <==> Flight(e) in frames) && SignedCount(frames, e) != 0
            && (if SignedCount(frames, e) == 1 || SignedCount(frames, e) == -1
                then Collapse(Handlers(frames)) == Collapse(Handlers(after)) + [e]
                else Collapse(Handlers(frames)) == Collapse(Handlers(after)))
            && (SignedCount(frames, e) == 1 <==> !Alive(after, e))
            && Accounted(after, thrown, destroyed + if Alive(after, e) then [] else [e])
  {
    hide Nested, Handlers, Flights, Collapse, Accounted;
    var after := Ended(frames);
    EndNested(frames);
    EndFrames(frames, e);
    EndCounts(frames, e);
    CountMembers(frames, e);
    CountMembers(after, e);
    EndAccounts(frames, thrown, destroyed, e);
    forall f | f in after ensures f in frames && SignedCount(after, f.e) ==
      SignedCount(frames, f.e) - (if f.e != e then 0 else if Flight(e) in frames then -1 else 1)
    {
      EndCounts(frames, f.e);
    }
  }

  ghost predicate SameCounts(frames: seq<Frame<Exception>>, after: seq<Frame<Exception>>, e: Exception) {
    forall f :: f in after ==> f.e == e || (f in frames && SignedCount(after, f.e) == SignedCount(frames, f.e))
  }

  /** Turning the only handler of an exception, on top, into a flight. */
  lemma UncatchStep(frames: seq<Frame<Exception>>, thrown: set<Exception>, destroyed: seq<Exception>, e: Exception)
    requires Nested(frames) && Accounted(frames, thrown, destroyed)
    requires frames != [] && frames[|frames| - 1] == Handler(e) && Count(frames, e) == 1
    ensures var after := frames[..|frames| - 1] + [Flight(e)];
            && Nested(after) && Flights(after) == Flights(frames) + [e] && SameCounts(frames, after, e)
            && SignedCount(frames, e) == 1 && SignedCount(after, e) == 0
            && Collapse(Handlers(frames)) == Collapse(Handlers(after)) + [e]
            && Accounted(after, thrown, destroyed)
  {
    hide Nested, Handlers, Flights, Collapse, Accounted;
    var front := frames[..|frames| - 1];
    var after := front + [Flight(e)];
    assert frames == front + [Handler(e)];
    HandlersPush(front, Handler(e));
    HandlersPush(front, Flight(e));
    EndCounts(frames, e);
    PrefixNested(frames);
    CountMembers(front, e);
    Members(front, e);
    NotFlying(frames, e);
    PushNested(front, Flight(e));
    forall f | f in after && f.e != e ensures f in frames && SignedCount(after, f.e) == SignedCount(frames, f.e) {
      EndCounts(frames, f.e);
    }
    UncatchAccounts(front, thrown, destroyed, e);
  }

  lemma UncatchAccounts(front: seq<Frame<Exception>>, thrown: set<Exception>, destroyed: seq<Exception>, e: Exception)
    requires Accounted(front + [Handler(e)], thrown, destroyed)
    ensures Accounted(front + [Flight(e)], thrown, destroyed)
  {
    assert forall f :: f in front + [Handler(e)] <==> f in front || f == Handler(e);
    assert forall f :: f in front + [Flight(e)] <==> f in front || f == Flight(e);
    assert Handler(e) in front + [Handler(e)];
  }

  /** An exception whose handler is on top is not in flight. */
  lemma NotFlying(frames: seq<Frame<Exception>>, e: Exception)
    requires Nested(frames) && frames != [] && frames[|frames| - 1] == Handler(e)
    ensures Flight(e) !in frames
  {
    forall p | 0 <= p < |frames| ensures frames[p] != Flight(e) {
      assert frames[p].Flight? ==> FlightFits(frames, p);
    }
  }

  lemma CountMembers(frames: seq<Frame<Exception>>, x: Exception)
    ensures Count(frames, x) > 0 <==> Handler(x) in frames
  {
    hide Handlers;
    Members(frames, x);
  }

  /** Ending removes one frame, a handler of `e`. */
  lemma EndFrames(frames: seq<Frame<Exception>>, e: Exception)
    requires CanEnd(frames) && Handlers(frames) != [] && Handlers(frames)[|Handlers(frames)| - 1] == e
    ensures forall f :: f in Ended(frames) ==> f in frames
    ensures forall f :: f in frames && f != Handler(e) ==> f in Ended(frames)
  {
    hide Handlers;
    var front, top := frames[..|frames| - 1], frames[|frames| - 1];
    assert frames == front + [top];
    HandlersPush(front, top);
    if top.Flight? {
      var low, x := front[..|front| - 1], front[|front| - 1];
      assert front == low + [x] && frames[..|frames| - 2] == low && frames[|frames| - 1..] == [top];
      HandlersPush(low, x);
      assert x == Handler(e) && Ended(frames) == low + [top] && frames == low + [x] + [top];
    } else {
      assert top == Handler(e) && Ended(frames) == front;
    }
  }

  lemma EndAccounts(frames: seq<Frame<Exception>>, thrown: set<Exception>, destroyed: seq<Exception>, e: Exception)
    requires Accounted(frames, thrown, destroyed) && CanEnd(frames) && Handler(e) in frames
    requires forall f :: f in Ended(frames) ==> f in frames
    requires forall f :: f in frames && f != Handler(e) ==> f in Ended(frames)
    ensures Accounted(Ended(frames), thrown, destroyed + if Alive(Ended(frames), e) then [] else [e])
  {
    hide Ended, CanEnd;
    var after := Ended(frames);
    var gone := destroyed + if Alive(after, e) then [] else [e];
    assert forall x :: x in gone <==> x in destroyed || (x == e && !Alive(after, e));
    forall x | x in thrown ensures x in gone || Alive(after, x) {
      assert x in destroyed || Alive(frames, x);
    }
    forall f | f in after ensures f.e in thrown && f.e !in gone {
      assert f in frames;
    }
  }

  lemma RethrowStep(frames: seq<Frame<Exception>>, thrown: set<Exception>, destroyed: seq<Exception>, e: Exception)
    requires Nested(frames) && CanRethrow(frames, e) && Accounted(frames, thrown, destroyed)
    ensures var after := frames + [Flight(e)];
            && Nested(after) && Handlers(after) == Handlers(frames) && Flights(after) == Flights(frames) + [e]
            && Accounted(after, thrown, destroyed)
            && SignedCount(frames, e) > 0 && SignedCount(after, e) == -SignedCount(frames, e)
            && forall f :: f in frames && f.e != e ==> SignedCount(after, f.e) == SignedCount(frames, f.e)
  {
    hide Nested, Handlers, Flights;
    var after := frames + [Flight(e)];
    Members(frames, e);
    HandlersPush(frames, Flight(e));
    PushNested(frames, Flight(e));
    CountMembers(frames, e);
    assert forall f :: f in after <==> f in frames || f == Flight(e);
  }

  lemma FreshFlight(frames: seq<Frame<Exception>>, thrown: set<Exception>, destroyed: seq<Exception>, e: Exception)
    requires Nested(frames) && Accounted(frames, thrown, destroyed) && e !in thrown
    ensures var after := frames + [Flight(e)];
            && Nested(after) && Handlers(after) == Handlers(frames) && Flights(after) == Flights(frames) + [e]
            && Accounted(after, thrown + {e}, destroyed)
            && SignedCount(after, e) == 0
            && forall f :: f in frames ==> SignedCount(after, f.e) == SignedCount(frames, f.e)
  {
    hide Nested, Handlers, Flights;
    var after := frames + [Flight(e)];
    Members(frames, e);
    HandlersPush(frames, Flight(e));
    PushNested(frames, Flight(e));
    forall x | x in thrown && Alive(frames, x) ensures Alive(after, x) {
    }
  }

  ghost predicate AllIn(stack: seq<Exception>, thrown: set<Exception>) {
    forall i :: 0 <= i < |stack| ==> stack[i] in thrown
  }

  lemma StackThrown(frames: seq<Frame<Exception>>, thrown: set<Exception>, destroyed: seq<Exception>)
    requires Accounted(frames, thrown, destroyed)
    ensures AllIn(Collapse(Handlers(frames)), thrown)
  {
    var stack := Collapse(Handlers(frames));
    forall i | 0 <= i < |stack| ensures stack[i] in thrown {
      CollapseMembers(Handlers(frames), stack[i]);
      Members(frames, stack[i]);
    }
  }

  /** Catching turns the flight into a handler: the stack gains the exception unless it is on top already. */
  lemma CatchStack(frames: seq<Frame<Exception>>, e: Exception)
    requires Nested(frames) && CanCatch(frames, e)
    ensures var after := frames[..|frames| - 1] + [Handler(e)];
            var stack := Collapse(Handlers(frames));
            && Nested(after) && Flights(frames) == Flights(after) + [e]
            && Handlers(after) == Handlers(frames) + [e] && Flight(e) !in after
            && Collapse(Handlers(after)) == (if stack != [] && stack[|stack| - 1] == e then stack else stack + [e])
            && (e in stack ==> stack[|stack| - 1] == e)
  {
    hide Nested, Handlers, Flights, Collapse;
    var front := frames[..|frames| - 1];
    assert frames == front + [Flight(e)];
    CatchNested(frames, e);
    HandlersPush(front, Flight(e));
    HandlersPush(front, Handler(e));
    CollapsePush(Handlers(front), e);
    CollapseMembers(Handlers(front), e);
  }

  ghost predicate CaughtCounts(frames: seq<Frame<Exception>>, after: seq<Frame<Exception>>, e: Exception) {
    forall f :: f in after ==>
      SignedCount(after, f.e) == if f.e == e then 1 - SignedCount(frames, e) else SignedCount(frames, f.e)
  }

  lemma CatchAllCounts(frames: seq<Frame<Exception>>, e: Exception)
    requires Nested(frames) && CanCatch(frames, e)
    ensures CaughtCounts(frames, frames[..|frames| - 1] + [Handler(e)], e) && SignedCount(frames, e) <= 0
  {
  }

  lemma ThreadedPush(stack: seq<Exception>, e: Exception)
    requires Threaded(stack) && e.nextException == TopOf(stack)
    ensures Linked(stack + [e], e)
  {
    assert (stack + [e])[..|stack|] == stack;
  }

  lemma CatchAccounts(frames: seq<Frame<Exception>>, thrown: set<Exception>, destroyed: seq<Exception>, e: Exception)
    requires Accounted(frames, thrown, destroyed) && CanCatch(frames, e)
    ensures var after := frames[..|frames| - 1] + [Handler(e)];
            Accounted(after, thrown, destroyed) && forall f :: f in after && f.e != e ==> f in frames
  {
    var front := frames[..|frames| - 1];
    var after := front + [Handler(e)];
    assert frames == front + [Flight(e)];
    assert Flight(e) in frames;
    assert forall f :: f in after <==> f in front || f == Handler(e);
    assert forall f :: f in frames <==> f in front || f == Flight(e);
  }

  /** Negating the count marks a rethrown exception correctly exactly when it was not propagating already. */
  lemma RethrowMarksIff(frames: seq<Frame<Exception>>, e: Exception)
    requires Handler(e) in frames
    ensures -SignedCount(frames, e) == SignedCount(frames + [Flight(e)], e) <==> Flight(e) !in frames
    ensures SignedCount(frames, e) > 0 <==> Flight(e) !in frames
    ensures SignedCount(frames, e) != 0
  {
    hide Handlers;
    CountMembers(frames, e);
    HandlersPush(frames, Flight(e));
  }

  /** A `throw;` in any state that lands in a handler of its own, as one in a destructor must, and its end. */
  method RethrowAndLand(g: EhGlobals) returns (e: Exception, ghost marked: int)
    requires g.Valid() && g.caughtExceptions != null
    modifies g`caughtExceptions, g`uncaughtExceptions, g`destroyed, g.caughtExceptions
    ensures e == old(g.caughtExceptions) == g.caughtExceptions && e.nextException == old(e.nextException)
    ensures g.uncaughtExceptions == old(g.uncaughtExceptions) && g.destroyed == old(g.destroyed)
    ensures marked == SignedCount(g.frames + [Flight(e)], e) <==> old(g.TopCount()) > 0
    ensures e.handlerCount == Count(g.frames, e) > 0
    ensures e.handlerCount == old(g.TopCount()) <==> old(g.TopCount()) > 0
    ensures old(g.TopCount()) > 0 <==> Flight(e) !in g.frames
  {
    hide Nested, Collapse, Handlers, Flights, Accounted, Threaded, Count;
    e := g.caughtExceptions;
    TopIsInnermost(g.frames, e);
    RethrowMarksIff(g.frames, e);
    var stopped := g.DoRethrow();
    marked := e.handlerCount;
    g.DoBeginCatch(e);
    stopped := g.DoEndCatch();
    assert e.handlerCount == if marked < 0 then -marked else marked;
  }

  /**
   Then every handler of the exception ends. It is destroyed, which is right unless it is in flight;
   and it is in flight exactly if its count was not positive when it was rethrown.
   */
  method RethrowAndLeave(g: EhGlobals) returns (e: Exception)
    requires g.Valid() && g.caughtExceptions != null
    modifies g`caughtExceptions, g`uncaughtExceptions, g`destroyed, g.caughtExceptions
    ensures e == old(g.caughtExceptions) && g.uncaughtExceptions == old(g.uncaughtExceptions)
    ensures g.destroyed == old(g.destroyed) + [e]
    ensures Flight(e) in g.frames <==> old(g.TopCount()) <= 0
  {
    hide EhGlobals.Valid, Count, SignedCount;
    ghost var marked;
    e, marked := RethrowAndLand(g);
    var k := e.handlerCount;
    while k > 0
      invariant k >= 0 && (k > 0 ==> g.caughtExceptions == e && e.handlerCount == k)
      invariant g.destroyed == old(g.destroyed) + if k == 0 then [e] else []
      invariant g.uncaughtExceptions == old(g.uncaughtExceptions)
    {
      var stopped := g.DoEndCatch();
      k := k - 1;
    }
  }

  /**
   A run that gets there: throw, catch, rethrow, and, before that one has landed, a second rethrow
   that is caught on the way. The exception is destroyed while the first rethrow is in flight.
   */
  method RethrownTwice() returns (g: EhGlobals, e: Exception)
    ensures fresh(g) && Flight(e) in g.frames && e in g.destroyed
  {
    hide EhGlobals.Valid, Handlers;
    g := new EhGlobals();
    e := g.Throw();
    g.BeginCatch(e);
    OneHandler(g.frames, e);
    var stopped := g.Rethrow();
    assert g.frames[1] == Flight(e);
    e := RethrowAndLeave(g);
  }

  lemma OneHandler(frames: seq<Frame<Exception>>, e: Exception)
    requires frames == [Handler(e)]
    ensures CanRethrow(frames, e)
  {
    HandlersPush([], Handler(e));
  }

  /** While an exception is uncaught, the state is that of its flight exactly when it has one handler. */
  lemma UncaughtIsFlightIff(g: EhGlobals, e: Exception)
    requires g.Uncaught(e)
    ensures g.Fits(g.frames[..|g.frames| - 1] + [Flight(e)]) <==> Count(g.frames, e) == 1
  {
    hide Nested, Collapse, Handlers, Flights, Accounted, Threaded, Count;
    var frames := g.frames;
    var front := frames[..|frames| - 1];
    TopHandler(frames, e);
    if Count(frames, e) == 1 {
      UncatchStep(frames, g.thrown, g.destroyed, e);
      StackThrown(frames, g.thrown, g.destroyed);
      var stack := g.Stack();
      ThreadedPop(stack);
      assert stack[..|stack| - 1] == Collapse(Handlers(front + [Flight(e)]));
    } else {
      NotFlying(frames, e);
      OneLess(front, e);
      assert Flight(e) in front + [Flight(e)];
      assert frames == front + [Handler(e)];
    }
  }

  lemma OneLess(front: seq<Frame<Exception>>, e: Exception)
    ensures Count(front + [Handler(e)], e) == Count(front + [Flight(e)], e) + 1
  {
    hide Handlers;
    HandlersPush(front, Handler(e));
    HandlersPush(front, Flight(e));
  }
}
