/**
 Construction and destruction of arrays: whatever element fails, the elements already constructed
 are destroyed, the storage is released, and the exception goes on as if nothing had caught it.
 */
module VecArrays {
  import opened Options
  import opened EhNesting
  import opened CxaExceptions

  /** An element's constructor has returned, an element's destructor has been entered, or the storage was released. */
  datatype Effect = Constructed(i: nat) | Destructor(i: nat) | Released

  datatype Outcome = Done | Throws(e: Exception) | Terminated

  /** Storage for an array; the element count is stored in front of it if padding was asked for. */
  datatype Block = Block(cookie: Option<nat>)

  /** How a call ends: it returns, throws an exception of its own, or rethrows the one being handled outside. */
  datatype Exit = Returns | ThrowsNew | ThrowsAgain

  /** A constructor or destructor of the element type: whether there is one, and how it ends for each element. */
  datatype Member = Member(present: bool, exit: nat -> Exit)

  /** What the allocation function does. */
  datatype Memory = Storage | Null | Fails(exit: Exit)

  predicate Throwing(m: Member, i: nat) {
    m.exit(i) != Returns
  }

  // ----- the effects, in order -----

  function Constructs(k: nat): seq<Effect> {
    seq(k, i requires 0 <= i => Constructed(i))
  }

  /** The destructors from element `k - 1` down to `low`. */
  function Destroys(low: nat, k: nat): seq<Effect>
    requires low <= k
  {
    seq(k - low, j requires 0 <= j < k - low => Destructor(k - 1 - j))
  }

  lemma DestroysNext(low: nat, k: nat)
    requires 0 < low <= k
    ensures Destroys(low - 1, k) == Destroys(low, k) + [Destructor(low - 1)]
  {
  }

  lemma DestroysJoin(low: nat, mid: nat, k: nat)
    requires low <= mid <= k
    ensures Destroys(mid, k) + Destroys(low, mid) == Destroys(low, k)
  {
  }

  /** The element destructors of a whole array. */
  function AllDestroyed(m: Member, n: nat): seq<Effect> {
    if m.present then Destroys(0, n) else []
  }

  ghost predicate SomeThrows(m: Member, n: nat) {
    m.present && exists i :: 0 <= i < n && Throwing(m, i)
  }

  ghost predicate TwoThrow(m: Member, n: nat) {
    m.present && exists i, j :: 0 <= i < j < n && Throwing(m, i) && Throwing(m, j)
  }

  /** The last element that throws rethrows. */
  ghost predicate LastRethrows(m: Member, n: nat) {
    m.present && exists i :: 0 <= i < n && m.exit(i) == ThrowsAgain && forall j :: i < j < n ==> !Throwing(m, j)
  }

  // ----- the exception state -----

  /** A `throw;` is possible: no handler, so that it terminates, or one whose exception is not in flight. */
  ghost predicate Rethrowable(g: EhGlobals)
    reads g
  {
    g.caughtExceptions == null || (var e: Exception := g.caughtExceptions; Flight(e) !in g.frames)
  }

  /** What calls that may end in these ways require. */
  ghost predicate Ready(g: EhGlobals, m: Member, n: nat)
    reads g, g.thrown
  {
    g.Valid() && (Rethrowable(g) || forall i :: 0 <= i < n ==> m.exit(i) != ThrowsAgain)
  }

  /** The state after an operation: as it was, or with one more exception in flight. */
  ghost predicate Passed(before: seq<Frame<Exception>>, after: seq<Frame<Exception>>, out: Outcome) {
    match out
    case Done => after == before
    case Throws(e) => after == before + [Flight(e)]
    case Terminated => true
  }

  /** A call that does not return: a new exception, or the one being handled, is in flight, or the program ends. */
  method Raise(g: EhGlobals, exit: Exit) returns (out: Outcome)
    requires g.Valid() && exit != Returns && (exit == ThrowsAgain ==> Rethrowable(g))
    modifies g, g.thrown
    ensures g.destroyed == old(g.destroyed) && !out.Done?
    ensures out.Terminated? <==> exit == ThrowsAgain && old(g.caughtExceptions) == null
    ensures out.Throws? ==> g.Valid() && Passed(old(g.frames), g.frames, out)
    ensures out.Throws? ==> if exit == ThrowsNew then fresh(out.e) else out.e == old(g.caughtExceptions)
    ensures fresh(g.thrown - old(g.thrown))
  {
    hide EhGlobals.Valid, Handlers;
    if exit == ThrowsNew {
      var e := g.Throw();
      return Throws(e);
    }
    TopFacts(g);
    var header := g.caughtExceptions;
    var terminated := g.Rethrow();
    if terminated {
      return Terminated;
    }
    out := Throws(header);
  }

  lemma TopFacts(g: EhGlobals)
    requires g.Valid()
    ensures g.caughtExceptions != null ==> g.caughtExceptions in g.thrown
    ensures g.caughtExceptions != null && Rethrowable(g) ==> CanRethrow(g.frames, g.caughtExceptions)
  {
    hide Handlers, Nested, Flights;
    if g.caughtExceptions != null {
      TopIsInnermost(g.frames, g.caughtExceptions);
    }
  }

  /** A handler for the exception in flight, which uncatches it for the cleanup. */
  method Intercept(g: EhGlobals, e: Exception)
    requires g.Valid() && CanCatch(g.frames, e) && e in g.thrown
    modifies g, g.thrown
    ensures g.Uncaught(e) && g.frames == old(g.frames)[..|old(g.frames)| - 1] + [Handler(e)]
    ensures g.destroyed == old(g.destroyed) && g.thrown == old(g.thrown)
  {
    hide EhGlobals.Valid, EhGlobals.Uncaught, Handlers;
    g.BeginCatch(e);
    var p := g.Uncatch();
  }

  /** The end of such a handler: catches the exception again, rethrows it, and leaves. */
  method Resume(g: EhGlobals, e: Exception)
    requires g.Uncaught(e) && e in g.thrown
    modifies g, g.thrown
    ensures g.Valid() && g.frames == old(g.frames)[..|old(g.frames)| - 1] + [Flight(e)]
    ensures g.destroyed == old(g.destroyed) && g.thrown == old(g.thrown)
  {
    hide Handlers, Flights, Nested, Accounted, Counted, CountedBut, Linked, SignedCount;
    ghost var front := g.frames[..|g.frames| - 1];
    assert g.frames == front + [Handler(e)];
    g.Recatch(e);
    HandlersPush(front, Handler(e));
    NotFlying(g.frames, e);
    TopHandler(g.frames, e);
    var stopped := g.Rethrow();
    g.EndCatch();
  }

  // ----- destruction -----

  /** Destruction while unwinding: a destructor that throws, in either way, ends the program. */
  method VecCleanup(n: nat, dtor: Member) returns (log: seq<Effect>, terminated: bool)
    ensures terminated <==> SomeThrows(dtor, n)
    ensures !terminated ==> log == AllDestroyed(dtor, n)
    ensures terminated ==> exists k :: 0 <= k < n && Throwing(dtor, k) && log == Destroys(k, n)
  {
    log, terminated := [], false;
    if dtor.present {
      var ix := n;
      while ix > 0
        invariant 0 <= ix <= n && log == Destroys(ix, n)
        invariant forall i :: ix <= i < n ==> !Throwing(dtor, i)
      {
        DestroysNext(ix, n);
        ix := ix - 1;
        log := log + [Destructor(ix)];
        if Throwing(dtor, ix) {
          return log, true;
        }
      }
    }
  }

  /** What a throwing member function and the handler around its loop do. */
  method ThrowThrough(g: EhGlobals, exit: Exit, n: nat, dtor: Member) returns (log: seq<Effect>, out: Outcome)
    requires g.Valid() && exit != Returns && (exit == ThrowsAgain ==> Rethrowable(g))
    modifies g, g.thrown
    ensures g.destroyed == old(g.destroyed) && !out.Done?
    ensures out.Throws? ==> g.Valid() && Passed(old(g.frames), g.frames, out)
    ensures out.Throws? ==> if exit == ThrowsNew then fresh(out.e) else out.e == old(g.caughtExceptions)
    ensures out.Terminated? <==> SomeThrows(dtor, n) || (exit == ThrowsAgain && old(g.caughtExceptions) == null)
    ensures out.Throws? ==> log == AllDestroyed(dtor, n)
    ensures out.Terminated? ==> exists k :: 0 <= k <= n && log == Destroys(k, n)
    ensures fresh(g.thrown - old(g.thrown))
  {
    hide EhGlobals.Valid, EhGlobals.Uncaught, Handlers, SomeThrows, AllDestroyed, Destroys;
    out := Raise(g, exit);
    if out.Terminated? {
      DestroysNone(n);
      return [], Terminated;
    }
    InFlight(g, out.e);
    Intercept(g, out.e);
    var terminated;
    log, terminated := VecCleanup(n, dtor);
    if terminated {
      return log, Terminated;
    }
    Resume(g, out.e);
  }

  lemma InFlight(g: EhGlobals, e: Exception)
    requires g.Valid() && g.frames != [] && g.frames[|g.frames| - 1] == Flight(e)
    ensures e in g.thrown
  {
    assert Flight(e) in g.frames;
  }

  lemma DestroysNone(n: nat)
    ensures Destroys(n, n) == []
  {
  }

  /**
   Runs every destructor once, last element first. If one throws, the rest run while its exception
   is uncaught and it goes on afterwards; the program ends if a second one throws, or if the first
   rethrows with nothing to rethrow.
   */
  method VecDtor(g: EhGlobals, n: nat, dtor: Member) returns (log: seq<Effect>, out: Outcome)
    requires Ready(g, dtor, n)
    modifies g, g.thrown
    ensures g.destroyed == old(g.destroyed) && fresh(g.thrown - old(g.thrown))
    ensures !out.Terminated? ==> g.Valid() && Passed(old(g.frames), g.frames, out)
    ensures out.Throws? ==> if LastRethrows(dtor, n) then out.e == old(g.caughtExceptions) else fresh(out.e)
    ensures out.Done? <==> !SomeThrows(dtor, n)
    ensures out.Terminated? <==> TwoThrow(dtor, n) || (LastRethrows(dtor, n) && old(g.caughtExceptions) == null)
    ensures !out.Terminated? ==> log == AllDestroyed(dtor, n)
    ensures out.Terminated? ==> exists k :: 0 <= k < n && log == Destroys(k, n)
  {
    hide EhGlobals.Valid, Destroys, SomeThrows, TwoThrow, LastRethrows;
    log, out := [], Done;
    if dtor.present {
      var ix := n;
      DestroysNone(n);
      while ix > 0
        invariant 0 <= ix <= n && log == Destroys(ix, n)
        invariant forall i :: ix <= i < n ==> !Throwing(dtor, i)
        invariant g.Valid() && unchanged(g)
      {
        DestroysNext(ix, n);
        ix := ix - 1;
        log := log + [Destructor(ix)];
        if Throwing(dtor, ix) {
          LastDecides(dtor, n, ix);
          var rest;
          rest, out := ThrowThrough(g, dtor.exit(ix), ix, dtor);
          if out.Terminated? {
            var k :| 0 <= k <= ix && rest == Destroys(k, ix);
            DestroysJoin(k, ix, n);
            assert log + rest == Destroys(k, n);
          }
          DestroysJoin(0, ix, n);
          return log + rest, out;
        }
      }
    }
    NoneThrows(dtor, n);
  }

  /** The last element that throws decides. */
  lemma LastDecides(m: Member, n: nat, ix: nat)
    requires m.present && ix < n && Throwing(m, ix) && forall i :: ix < i < n ==> !Throwing(m, i)
    ensures SomeThrows(m, n) && (TwoThrow(m, n) <==> SomeThrows(m, ix))
    ensures LastRethrows(m, n) <==> m.exit(ix) == ThrowsAgain
  {
    if SomeThrows(m, ix) {
      var i :| 0 <= i < ix && Throwing(m, i);
    }
    if LastRethrows(m, n) {
      var i :| 0 <= i < n && m.exit(i) == ThrowsAgain && forall j :: i < j < n ==> !Throwing(m, j);
      assert Throwing(m, i);
    }
  }

  lemma NoneThrows(m: Member, n: nat)
    requires m.present ==> forall i :: 0 <= i < n ==> !Throwing(m, i)
    ensures !SomeThrows(m, n) && !TwoThrow(m, n) && !LastRethrows(m, n)
  {
    if LastRethrows(m, n) {
      var i :| 0 <= i < n && m.exit(i) == ThrowsAgain;
      assert Throwing(m, i);
    }
  }

  // ----- construction -----

  /** Constructs the elements in order; if one throws, those before it are destroyed in reverse and it goes on. */
  method VecCtor(g: EhGlobals, n: nat, ctor: Member, dtor: Member) returns (log: seq<Effect>, out: Outcome, built: nat)
    requires Ready(g, ctor, n)
    modifies g, g.thrown
    ensures g.destroyed == old(g.destroyed) && fresh(g.thrown - old(g.thrown))
    ensures !out.Terminated? ==> g.Valid() && Passed(old(g.frames), g.frames, out)
    ensures out.Done? <==> !SomeThrows(ctor, n)
    ensures out.Done? ==> unchanged(g) && log == if ctor.present then Constructs(n) else []
    ensures !out.Done? ==> built < n && Throwing(ctor, built) && forall i :: 0 <= i < built ==> !Throwing(ctor, i)
    ensures out.Throws? ==> if ctor.exit(built) == ThrowsNew then fresh(out.e) else out.e == old(g.caughtExceptions)
    ensures out.Throws? ==> log == Constructs(built) + AllDestroyed(dtor, built)
    ensures out.Terminated? <==>
              SomeThrows(ctor, n)
              && (SomeThrows(dtor, built) || (ctor.exit(built) == ThrowsAgain && old(g.caughtExceptions) == null))
    ensures out.Terminated? ==> exists k :: 0 <= k <= built && log == Constructs(built) + Destroys(k, built)
  {
    hide EhGlobals.Valid, AllDestroyed, Destroys;
    log, out, built := [], Done, 0;
    if ctor.present {
      while built != n
        invariant built <= n && log == Constructs(built)
        invariant forall i :: 0 <= i < built ==> !Throwing(ctor, i)
        invariant g.Valid() && unchanged(g)
      {
        if Throwing(ctor, built) {
          var rest;
          rest, out := ThrowThrough(g, ctor.exit(built), built, dtor);
          return log + rest, out, built;
        }
        log := log + [Constructed(built)];
        built := built + 1;
      }
    }
  }

  /** Releases the storage in a handler, and lets the exception go on. */
  method ReleaseAndResume(g: EhGlobals, e: Exception)
    requires g.Valid() && CanCatch(g.frames, e)
    modifies g, g.thrown
    ensures g.Valid() && g.frames == old(g.frames)
    ensures g.destroyed == old(g.destroyed) && g.thrown == old(g.thrown)
  {
    hide EhGlobals.Valid, EhGlobals.Uncaught;
    InFlight(g, e);
    Intercept(g, e);
    Resume(g, e);
  }

  /** Allocates and constructs. A failed construction releases the storage once, after the destructors. */
  method VecNew(g: EhGlobals, n: nat, padding: nat, ctor: Member, dtor: Member, memory: Memory)
    returns (log: seq<Effect>, out: Outcome, block: Option<Block>, built: nat)
    requires Ready(g, ctor, n)
    requires memory.Fails? ==> memory.exit != Returns && (memory.exit == ThrowsAgain ==> Rethrowable(g))
    modifies g, g.thrown
    ensures g.destroyed == old(g.destroyed) && fresh(g.thrown - old(g.thrown))
    ensures !out.Terminated? ==> g.Valid() && Passed(old(g.frames), g.frames, out)
    ensures memory.Null? ==> log == [] && out.Done? && block.None?
    ensures memory.Fails? ==> log == [] && !out.Done? && block.None?
    ensures memory.Fails? ==>
              (out.Terminated? <==> memory.exit == ThrowsAgain && old(g.caughtExceptions) == null)
    ensures memory.Fails? && out.Throws? ==>
              if memory.exit == ThrowsNew then fresh(out.e) else out.e == old(g.caughtExceptions)
    ensures memory.Storage? && out.Throws? ==>
              built < n && if ctor.exit(built) == ThrowsNew then fresh(out.e) else out.e == old(g.caughtExceptions)
    ensures memory.Storage? ==> (out.Done? <==> !SomeThrows(ctor, n)) && (block.Some? <==> out.Done?)
    ensures block.Some? ==> block.value.cookie == if padding != 0 then Some(n) else None
    ensures block.Some? ==> unchanged(g) && log == if ctor.present then Constructs(n) else []
    ensures memory.Storage? && !out.Done? ==>
              built < n && Throwing(ctor, built) && forall i :: 0 <= i < built ==> !Throwing(ctor, i)
    ensures memory.Storage? && out.Throws? ==> log == Constructs(built) + AllDestroyed(dtor, built) + [Released]
    ensures memory.Storage? ==>
              (out.Terminated? <==>
               SomeThrows(ctor, n)
               && (SomeThrows(dtor, built) || (ctor.exit(built) == ThrowsAgain && old(g.caughtExceptions) == null)))
    ensures memory.Storage? && out.Terminated? ==>
              exists k :: 0 <= k <= built && log == Constructs(built) + Destroys(k, built)
  {
    hide EhGlobals.Valid, AllDestroyed, Constructs, Destroys, SomeThrows;
    log, out, block, built := [], Done, None, 0;
    match memory
    case Null =>
    case Fails(exit) =>
      out := Raise(g, exit);
    case Storage =>
      log, out, built := VecCtor(g, n, ctor, dtor);
      if out.Throws? {
        log := log + [Released];
        ReleaseAndResume(g, out.e);
      } else if out.Done? {
        block := Some(Block(if padding != 0 then Some(n) else None));
      }
  }

  // ----- destruction with release -----

  /** Destroys the elements counted in front of the array and releases the storage, once, whatever they do. */
  method VecDelete(g: EhGlobals, block: Option<Block>, padding: nat, dtor: Member)
    returns (log: seq<Effect>, out: Outcome)
    requires block.Some? && padding != 0 ==> block.value.cookie.Some?
    requires Ready(g, dtor, if block.Some? && padding != 0 then block.value.cookie.value else 0)
    modifies g, g.thrown
    ensures g.destroyed == old(g.destroyed) && fresh(g.thrown - old(g.thrown))
    ensures !out.Terminated? ==> g.Valid() && Passed(old(g.frames), g.frames, out)
    ensures block.None? ==> log == [] && out.Done?
    ensures block.Some? && padding == 0 ==> log == [Released] && out.Done?
    ensures block.Some? && padding != 0 ==>
              var n := block.value.cookie.value;
              && (out.Done? <==> !SomeThrows(dtor, n))
              && (out.Terminated? <==> TwoThrow(dtor, n) || (LastRethrows(dtor, n) && old(g.caughtExceptions) == null))
              && (!out.Terminated? ==> log == AllDestroyed(dtor, n) + [Released])
              && (out.Throws? ==> if LastRethrows(dtor, n) then out.e == old(g.caughtExceptions) else fresh(out.e))
              && (out.Terminated? ==> exists k :: 0 <= k < n && log == Destroys(k, n))
  {
    hide EhGlobals.Valid, AllDestroyed, Destroys, SomeThrows, TwoThrow, LastRethrows;
    log, out := [], Done;
    if block.None? {
      return;
    }
    if padding != 0 {
      log, out := VecDtor(g, block.value.cookie.value, dtor);
      if out.Terminated? {
        return;
      }
      if out.Throws? {
        log := log + [Released];
        ReleaseAndResume(g, out.e);
        return;
      }
    }
    log := log + [Released];
  }

  // ----- whole lives -----

  /** As many destructors as constructors for every element, and the storage released once. */
  ghost predicate Balanced(log: seq<Effect>) {
    && multiset(log)[Released] == 1
    && forall i: nat :: multiset(log)[Constructed(i)] == multiset(log)[Destructor(i)] <= 1
  }

  /** The effects of an array of which `built` elements were constructed and `ended` destroyed. */
  function Life(built: nat, ended: nat): seq<Effect> {
    Constructs(built) + Destroys(0, ended) + [Released]
  }

  /**
   An array that is made and then deleted, unless its making fails: what is constructed is destroyed
   in reverse and the storage is released last. The two numbers differ when a member function is
   missing or, without padding, delete does not know the number of elements.
   */
  method NewThenDelete(g: EhGlobals, n: nat, padding: nat, ctor: Member, dtor: Member)
    returns (log: seq<Effect>, out: Outcome, built: nat, ended: nat)
    requires Ready(g, ctor, n) && Ready(g, dtor, n)
    modifies g, g.thrown
    ensures out.Done? ==> g.Valid() && g.frames == old(g.frames)
    ensures SomeThrows(ctor, n) || (padding != 0 && SomeThrows(dtor, n)) <==> !out.Done?
    ensures !out.Terminated? ==> log == Life(built, ended) && (Balanced(log) <==> built == ended)
    ensures !out.Terminated? && !SomeThrows(ctor, n) ==>
              built == (if ctor.present then n else 0) && ended == (if dtor.present && padding != 0 then n else 0)
    ensures !out.Terminated? && SomeThrows(ctor, n) ==>
              built < n && Throwing(ctor, built) && ended == if dtor.present then built else 0
  {
    hide EhGlobals.Valid, Destroys, Constructs, SomeThrows, TwoThrow, LastRethrows, Balanced;
    NoEffects();
    var block;
    log, out, block, built := VecNew(g, n, padding, ctor, dtor, Storage);
    ended := if dtor.present then built else 0;
    if out.Done? {
      built := if ctor.present then n else 0;
      ended := if dtor.present && padding != 0 then n else 0;
      var rest;
      rest, out := VecDelete(g, block, padding, dtor);
      log := log + rest;
      assert !out.Terminated? ==> log == Life(built, ended);
    }
    BalancedIff(built, ended);
  }

  lemma NoEffects()
    ensures Constructs(0) == [] && Destroys(0, 0) == []
  {
  }

  lemma {:induction false} BuildCounts(k: nat, x: Effect)
    ensures multiset(Constructs(k))[x] == if x.Constructed? && x.i < k then 1 else 0
    ensures multiset(Destroys(0, k))[x] == if x.Destructor? && x.i < k then 1 else 0
  {
    if k > 0 {
      BuildCounts(k - 1, x);
      assert Constructs(k) == Constructs(k - 1) + [Constructed(k - 1)];
      assert Destroys(0, k) == [Destructor(k - 1)] + Destroys(0, k - 1);
    }
  }

  lemma LifeCounts(built: nat, ended: nat, x: Effect)
    ensures multiset(Life(built, ended))[x] ==
            match x
            case Constructed(i) => if i < built then 1 else 0
            case Destructor(i) => if i < ended then 1 else 0
            case Released => 1
  {
    hide Constructs, Destroys;
    BuildCounts(built, x);
    BuildCounts(ended, x);
  }

  lemma BalancedIff(built: nat, ended: nat)
    ensures Balanced(Life(built, ended)) <==> built == ended
  {
    hide Life;
    var log := Life(built, ended);
    LifeCounts(built, ended, Released);
    if built == ended {
      forall i: nat ensures multiset(log)[Constructed(i)] == multiset(log)[Destructor(i)] <= 1 {
        LifeCounts(built, ended, Constructed(i));
        LifeCounts(built, ended, Destructor(i));
      }
    } else {
      var i := if built < ended then built else ended;
      LifeCounts(built, ended, Constructed(i));
      LifeCounts(built, ended, Destructor(i));
    }
  }
}
