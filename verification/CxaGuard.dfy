/**
 The guards of static local variables as a protocol: any number of threads acquire, release and
 abort any number of guards, possibly while initialising others, and their steps interleave in any
 order. One recursive mutex serialises all initialisations.
 */
module CxaGuard {
  import opened Options

  type Thread = nat
  type Guard = nat

  /** The second byte of a guard wraps. */
  const BYTE: nat := 256

  /**
   The two bytes of a guard, with a record of what happened to it: how often its initialisation
   completed, and how often an acquire was refused.
   */
  datatype Bytes = Bytes(done: bool, count: nat, completed: nat, refused: nat)

  datatype Pc =
    | Outside              // not in a call of acquire
    | FirstTest(g: Guard)  // about to test the first byte without the mutex
    | Locking(g: Guard)    // about to take the mutex
    | Locked(g: Guard)     // in acquire_1, with the mutex
    | Zero(g: Guard)       // returning 0: the variable is initialised
    | Throwing(g: Guard)   // throwing recursive_init

  /** A thread: the guards it is initialising, innermost last, and where it is. */
  datatype Local = Local(active: seq<Guard>, pc: Pc)

  datatype State = State(owner: Option<Thread>, depth: nat, guards: map<Guard, Bytes>, locals: map<Thread, Local>)

  const INITIAL := State(None, 0, map[], map[])

  function At(s: State, g: Guard): Bytes {
    if g in s.guards then s.guards[g] else Bytes(false, 0, 0, 0)
  }

  function Of(s: State, t: Thread): Local {
    if t in s.locals then s.locals[t] else Local([], Outside)
  }

  function Put(s: State, t: Thread, l: Local): State {
    s.(locals := s.locals[t := l])
  }

  function Goto(s: State, t: Thread, pc: Pc): State {
    Put(s, t, Of(s, t).(pc := pc))
  }

  function Lock(s: State, t: Thread): State {
    s.(owner := Some(t), depth := s.depth + 1)
  }

  function Unlock(s: State): State {
    if s.depth <= 1 then s.(owner := None, depth := 0) else s.(depth := s.depth - 1)
  }

  datatype Action =
    | Acquire(t: Thread, g: Guard)  // calls acquire
    | Go(t: Thread)                 // takes the next step of the call in progress
    | Release(t: Thread)            // finishes the innermost initialisation
    | Abort(t: Thread)              // leaves the innermost initialisation by an exception

  /** acquire_1, and the destructor of the mutex wrapper unless the mutex is kept. */
  function AcquireOne(s: State, t: Thread, g: Guard): State {
    var b := At(s, g);
    if b.done then Unlock(Goto(s, t, Zero(g)))
    else if b.count != 0 then
      var b' := b.(count := (b.count + 1) % BYTE, refused := b.refused + 1);
      Unlock(Goto(s, t, Throwing(g))).(guards := s.guards[g := b'])
    else Put(s, t, Local(Of(s, t).active + [g], Outside)).(guards := s.guards[g := b.(count := 1)])
  }

  /** recursion_pop, the setting of the first byte if the initialisation succeeded, and the unlocking. */
  function Leave(s: State, t: Thread, success: bool): State
    requires Of(s, t).active != []
  {
    var l := Of(s, t);
    var g := l.active[|l.active| - 1];
    var b := At(s, g);
    var completed := b.completed + (if success then 1 else 0);
    var b' := Bytes(b.done || success, (b.count + BYTE - 1) % BYTE, completed, b.refused);
    Unlock(Put(s, t, l.(active := l.active[..|l.active| - 1]))).(guards := s.guards[g := b'])
  }

  /** One step; an action that is not possible changes nothing. */
  function Step(s: State, a: Action): State {
    var l := Of(s, a.t);
    match a
    case Acquire(t, g) => if l.pc.Outside? then Goto(s, t, FirstTest(g)) else s
    case Go(t) =>
      (match l.pc
       case Outside => s
       case FirstTest(g) => Goto(s, t, if At(s, g).done then Zero(g) else Locking(g))
       case Locking(g) => if s.owner.None? || s.owner == Some(t) then Lock(Goto(s, t, Locked(g)), t) else s
       case Locked(g) => AcquireOne(s, t, g)
       case Zero(_) => Goto(s, t, Outside)
       case Throwing(_) => Goto(s, t, Outside))
    case Release(t) => if l.pc.Outside? && l.active != [] then Leave(s, t, true) else s
    case Abort(t) => if l.pc.Outside? && l.active != [] then Leave(s, t, false) else s
  }

  function Run(actions: seq<Action>): State {
    if actions == [] then INITIAL else Step(Run(actions[..|actions| - 1]), actions[|actions| - 1])
  }

  // ----- the invariant -----

  /** The guards being initialised: those of the owner of the mutex. */
  ghost function Active(s: State): seq<Guard> {
    if s.owner.Some? then Of(s, s.owner.value).active else []
  }

  /** Only the owner of the mutex initialises or is past the lock, and the depth counts why it holds it. */
  ghost predicate MutexFits(s: State) {
    && (forall t: Thread :: s.owner != Some(t) ==> Of(s, t).active == [] && !Of(s, t).pc.Locked?)
    && s.depth == (if s.owner.Some? then |Active(s)| + (if Of(s, s.owner.value).pc.Locked? then 1 else 0) else 0)
    && (s.owner.Some? ==> s.depth > 0)
  }

  /** How often a guard occurs among those being initialised. */
  ghost function Times(active: seq<Guard>, g: Guard): nat {
    multiset(active)[g]
  }

  /**
   The byte counts, modulo 256, the initialisations under way and the acquires ever refused; it takes
   255 refusals to open a guard once more than it should be.
   */
  ghost predicate GuardFits(s: State, g: Guard) {
    var b, n := At(s, g), Times(Active(s), g);
    && b.count == (b.refused + n) % BYTE
    && (BYTE - 1) * (b.completed + n - 1) <= b.refused
    && (b.done <==> b.completed > 0)
  }

  ghost predicate Invariant(s: State) {
    && MutexFits(s)
    && (forall g: Guard :: GuardFits(s, g))
    && (forall t: Thread :: Of(s, t).pc.Zero? ==> At(s, Of(s, t).pc.g).done)
  }

  /** Moving about outside the mutex. */
  lemma GotoKeeps(s: State, t: Thread, pc: Pc)
    requires Invariant(s) && !Of(s, t).pc.Locked? && !pc.Locked? && (pc.Zero? ==> At(s, pc.g).done)
    ensures Invariant(Goto(s, t, pc))
  {
    var s' := Goto(s, t, pc);
    assert forall u: Thread :: Of(s', u) == if u == t then Of(s, t).(pc := pc) else Of(s, u);
    assert forall g: Guard :: GuardFits(s, g) ==> GuardFits(s', g);
  }

  lemma LockKeeps(s: State, t: Thread, g: Guard)
    requires Invariant(s) && Of(s, t).pc == Locking(g) && (s.owner.None? || s.owner == Some(t))
    ensures Invariant(Lock(Goto(s, t, Locked(g)), t))
  {
    var s' := Lock(Goto(s, t, Locked(g)), t);
    assert forall u: Thread :: Of(s', u) == if u == t then Of(s, t).(pc := Locked(g)) else Of(s, u);
    assert Active(s') == Active(s);
    assert forall h: Guard :: GuardFits(s, h) ==> GuardFits(s', h);
  }

  /** Leaving acquire_1 with the mutex released: the guard is done, or it was entered recursively. */
  lemma LeaveKeeps(s: State, t: Thread, g: Guard)
    requires Invariant(s) && Of(s, t).pc == Locked(g) && (At(s, g).done || At(s, g).count != 0)
    ensures Invariant(AcquireOne(s, t, g))
  {
    hide MutexFits, GuardFits, Active;
    var s' := AcquireOne(s, t, g);
    LeaveLocked(s, t, g);
    forall h: Guard ensures GuardFits(s', h) {
      RefusedGuard(s, t, g, h);
    }
    forall u: Thread | Of(s', u).pc.Zero? ensures At(s', Of(s', u).pc.g).done {
      assert u != t ==> Of(s', u) == Of(s, u);
    }
  }

  /** A refusal is counted, and concerns one guard. */
  lemma RefusedGuard(s: State, t: Thread, g: Guard, h: Guard)
    requires GuardFits(s, h) && (At(s, g).done || At(s, g).count != 0)
    requires Active(AcquireOne(s, t, g)) == Active(s)
    ensures GuardFits(AcquireOne(s, t, g), h)
  {
    hide Active;
    assert h != g ==> At(AcquireOne(s, t, g), h) == At(s, h);
  }

  /** The guard that is opened: its byte was zero, so enough acquires were refused before. */
  lemma OpenedGuard(b: Bytes, n: nat)
    requires b.count == (b.refused + n) % BYTE == 0 && b.completed == 0 && (BYTE - 1) * (n - 1) <= b.refused
    ensures (b.refused + n + 1) % BYTE == 1 && (BYTE - 1) * n <= b.refused
  {
    var k := (b.refused + n) / BYTE;
    assert b.refused + n == BYTE * k;
    assert k >= n;
  }

  lemma BeginKeeps(s: State, t: Thread, g: Guard)
    requires Invariant(s) && Of(s, t).pc == Locked(g) && !At(s, g).done && At(s, g).count == 0
    ensures Invariant(AcquireOne(s, t, g)) && Active(AcquireOne(s, t, g)) == Active(s) + [g]
  {
    var s' := AcquireOne(s, t, g);
    assert forall u: Thread :: u != t ==> Of(s', u) == Of(s, u);
    assert s.owner == Some(t) && Active(s') == Active(s) + [g];
    assert GuardFits(s, g);
    OpenedGuard(At(s, g), Times(Active(s), g));
    forall h: Guard ensures GuardFits(s', h) {
      assert GuardFits(s, h) && (h != g ==> At(s', h) == At(s, h));
      assert Times(Active(s'), h) == Times(Active(s), h) + if h == g then 1 else 0;
    }
  }

  lemma LeaveUnlocks(s: State, t: Thread, success: bool)
    requires MutexFits(s) && Of(s, t).active != [] && Of(s, t).pc.Outside?
    ensures var s' := Leave(s, t, success);
            && MutexFits(s') && Active(s) == Of(s, t).active && Active(s') == Active(s)[..|Active(s)| - 1]
            && forall u: Thread :: Of(s', u).pc == Of(s, u).pc
  {
    var l, s' := Of(s, t), Leave(s, t, success);
    var rest := l.active[..|l.active| - 1];
    assert s.owner == Some(t);
    assert forall u: Thread :: Of(s', u) == if u == t then l.(active := rest) else Of(s, u);
  }

  /** Taking one from the byte takes one from what it counts. */
  lemma ClosedByte(count: nat, n: nat)
    requires count == (n + 1) % BYTE
    ensures (count + BYTE - 1) % BYTE == n % BYTE
  {
    var k := (n + 1) / BYTE;
    assert n + 1 == BYTE * k + count;
    if count == 0 {
      assert n == BYTE * (k - 1) + (BYTE - 1);
    } else {
      assert n == BYTE * k + (count - 1);
    }
  }

  /** The guard left behind, and every other one. */
  lemma LeaveGuard(s: State, t: Thread, success: bool, rest: seq<Guard>, g: Guard, h: Guard)
    requires Of(s, t).active == Active(s) == rest + [g] && Active(Leave(s, t, success)) == rest
    requires GuardFits(s, g) && GuardFits(s, h)
    ensures GuardFits(Leave(s, t, success), h)
  {
    hide Active;
    assert Times(rest + [g], h) == Times(rest, h) + if h == g then 1 else 0;
    ClosedByte(At(s, g).count, At(s, g).refused + Times(rest, g));
  }

  /** Release and abort: the innermost initialisation ends, with or without success. */
  lemma LeaveInitKeeps(s: State, t: Thread, success: bool)
    requires Invariant(s) && Of(s, t).active != [] && Of(s, t).pc.Outside?
    ensures Invariant(Leave(s, t, success))
    ensures Active(s) == Of(s, t).active && Active(Leave(s, t, success)) == Active(s)[..|Active(s)| - 1]
  {
    hide MutexFits, Active, GuardFits;
    var s' := Leave(s, t, success);
    LeaveUnlocks(s, t, success);
    var g, rest := Active(s)[|Active(s)| - 1], Active(s)[..|Active(s)| - 1];
    assert Active(s) == rest + [g];
    forall h: Guard ensures GuardFits(s', h) {
      LeaveGuard(s, t, success, rest, g, h);
    }
    forall u: Thread | Of(s', u).pc.Zero? ensures At(s', Of(s', u).pc.g).done {
      assert Of(s, u).pc.Zero?;
    }
  }

  lemma StepKeeps(s: State, a: Action)
    requires Invariant(s)
    ensures Invariant(Step(s, a))
  {
    hide Invariant, AcquireOne, Lock, Goto, Leave;
    var t, l := a.t, Of(s, a.t);
    match a
    case Acquire(_, g) =>
      if l.pc.Outside? {
        GotoKeeps(s, t, FirstTest(g));
      }
    case Go(_) =>
      match l.pc {
        case Outside =>
        case FirstTest(g) => GotoKeeps(s, t, if At(s, g).done then Zero(g) else Locking(g));
        case Locking(g) =>
          if s.owner.None? || s.owner == Some(t) {
            LockKeeps(s, t, g);
          }
        case Locked(g) =>
          if At(s, g).done || At(s, g).count != 0 {
            LeaveKeeps(s, t, g);
          } else {
            BeginKeeps(s, t, g);
          }
        case Zero(_) => GotoKeeps(s, t, Outside);
        case Throwing(_) => GotoKeeps(s, t, Outside);
      }
    case Release(_) =>
      if l.pc.Outside? && l.active != [] {
        LeaveInitKeeps(s, t, true);
      }
    case Abort(_) =>
      if l.pc.Outside? && l.active != [] {
        LeaveInitKeeps(s, t, false);
      }
  }

  lemma {:induction false} Reachable(actions: seq<Action>)
    ensures Invariant(Run(actions))
  {
    if actions != [] {
      Reachable(actions[..|actions| - 1]);
      StepKeeps(Run(actions[..|actions| - 1]), actions[|actions| - 1]);
    }
  }

  // ----- what every run keeps -----

  /**
   In every run, recursive entries and aborts included: one thread at a time initialises under a
   guard; every 255 refused acquires allow one initialisation too many, so below 255 it is under way
   or complete at most once; and acquire returns 0 only after it has completed.
   */
  lemma InitialisedOnce(actions: seq<Action>, g: Guard, t: Thread, u: Thread)
    ensures var s := Run(actions);
            && (g in Of(s, t).active && g in Of(s, u).active ==> t == u)
            && At(s, g).completed + Times(Of(s, t).active, g) <= 1 + At(s, g).refused / (BYTE - 1)
            && (Of(s, t).pc == Zero(g) ==> At(s, g).completed > 0)
  {
    Reachable(actions);
    var s := Run(actions);
    assert GuardFits(s, g);
    assert s.owner != Some(t) ==> Of(s, t).active == [];
  }

  /**
   acquire_1 throws recursive_init exactly when the guard is not done and the initialisations under
   way and the acquires ever refused do not make a multiple of 256; if they do, it opens the guard.
   */
  lemma ThrowsIff(actions: seq<Action>, t: Thread, g: Guard)
    requires Of(Run(actions), t).pc == Locked(g)
    ensures var s, l := Run(actions), Of(Run(actions), t);
            var l' := Of(Step(s, Go(t)), t);
            var holds := (At(s, g).refused + Times(l.active, g)) % BYTE != 0;
            && (l'.pc == Throwing(g) <==> !At(s, g).done && holds)
            && (l'.active == l.active + [g] <==> !At(s, g).done && !holds)
  {
    hide Run;
    Reachable(actions);
    AcquireOutcome(Run(actions), t, g);
  }

  lemma AcquireOutcome(s: State, t: Thread, g: Guard)
    requires Invariant(s) && Of(s, t).pc == Locked(g)
    ensures var l, l' := Of(s, t), Of(AcquireOne(s, t, g), t);
            && At(s, g).count == (At(s, g).refused + Times(l.active, g)) % BYTE
            && (l'.pc == Throwing(g) <==> !At(s, g).done && At(s, g).count != 0)
            && (l'.active == l.active + [g] <==> !At(s, g).done && At(s, g).count == 0)
  {
    assert GuardFits(s, g) && s.owner == Some(t);
    assert Of(s, t).active != Of(s, t).active + [g];
  }

  // ----- calls from their beginning to their end -----

  /** A thread comes to throw only where the guard is not done, and its byte, with the mutex held, not zero. */
  lemma ThrowsOnlyUndone(actions: seq<Action>, a: Action, t: Thread, g: Guard)
    requires Of(Run(actions), t).pc != Throwing(g) && Of(Step(Run(actions), a), t).pc == Throwing(g)
    ensures var s := Run(actions);
            !At(s, g).done && s.owner == Some(t) && (At(s, g).refused + Times(Of(s, t).active, g)) % BYTE != 0
  {
    hide Run;
    Reachable(actions);
    var s := Run(actions);
    assert a == Go(t) && Of(s, t).pc == Locked(g);
    AcquireOutcome(s, t, g);
    assert MutexFits(s);
  }

  /**
   However the steps interleave, a call of acquire ends in one of three ways: it returns 0 with the
   guard done, throws, or returns 1 with the guard opened for this thread, which it was free to be.
   */
  lemma AcquireEnds(actions: seq<Action>, a: Action, t: Thread)
    requires Of(Run(actions), t).pc != Outside && Of(Step(Run(actions), a), t).pc == Outside
    ensures a == Go(t)
    ensures var s, s' := Run(actions), Step(Run(actions), a);
            var l, l' := Of(s, t), Of(s', t);
            match l.pc
            case Zero(g) => At(s, g).done && At(s, g).completed > 0 && l'.active == l.active && s'.guards == s.guards
            case Throwing(g) => l'.active == l.active && s'.guards == s.guards
            case Locked(g) =>
              && !At(s, g).done && (At(s, g).refused + Times(l.active, g)) % BYTE == 0
              && l'.active == l.active + [g] && s'.owner == Some(t)
            case _ => false
  {
    hide Run;
    Reachable(actions);
    var s := Run(actions);
    if Of(s, t).pc.Locked? {
      AcquireOutcome(s, t, Of(s, t).pc.g);
      assert MutexFits(s);
    } else if Of(s, t).pc.Zero? {
      assert GuardFits(s, Of(s, t).pc.g);
    }
  }

  /** How the last step of a call of acquire shows: the program point it leaves. */
  ghost predicate CallEnds(before: State, last: State, after: State, t: Thread, g: Guard, pc: Pc) {
    Of(last, t).pc == pc && after == Step(last, Go(t)) && Of(after, t).pc == Outside
    && forall u: Thread :: u != t ==> Of(after, u) == Of(before, u)
  }

  /**
   A call that nobody interrupts, from a state in which nobody else holds the mutex: on a guard that
   is done it returns 0 and changes nothing; otherwise it is refused, which is counted, or opens the
   guard and keeps the mutex, by the number of initialisations under way and of refusals.
   */
  lemma AcquireAlone(actions: seq<Action>, t: Thread, g: Guard) returns (last: seq<Action>)
    requires Of(Run(actions), t).pc.Outside? && (Run(actions).owner.None? || Run(actions).owner == Some(t))
    ensures actions + [Acquire(t, g)] <= last && |last| <= |actions| + 4
    ensures var s, s' := Run(actions), Step(Run(last), Go(t));
            var b, l := At(s, g), Of(s, t);
            if b.done then
              CallEnds(s, Run(last), s', t, g, Zero(g))
              && s'.guards == s.guards && s'.owner == s.owner && s'.depth == s.depth && Of(s', t) == l
            else if (b.refused + Times(l.active, g)) % BYTE != 0 then
              CallEnds(s, Run(last), s', t, g, Throwing(g)) && s'.owner == s.owner && s'.depth == s.depth
              && Of(s', t) == l && At(s', g) == b.(count := (b.count + 1) % BYTE, refused := b.refused + 1)
            else
              CallEnds(s, Run(last), s', t, g, Locked(g)) && s'.owner == Some(t) && s'.depth == s.depth + 1
              && Of(s', t).active == l.active + [g] && At(s', g) == b.(count := 1)
  {
    hide Run, Invariant, AcquireOne;
    Reachable(actions);
    var s := Run(actions);
    MutexIsFree(s, t);
    if At(s, g).done {
      last := Extend(actions, Acquire(t, g));
      last := Extend(last, Go(t));
    } else {
      last := UpToMutex(actions, t, g);
      var locked := Run(last);
      Reachable(last);
      AcquireOutcome(locked, t, g);
      AcquireEffect(s, locked, t, g);
      if At(s, g).count != 0 {
        last := Extend(last, Go(t));
      }
    }
  }

  /** Thread `t` has taken the mutex, once more, in a call of acquire; all else is as in `s`. */
  ghost predicate AtMutex(s: State, locked: State, t: Thread, g: Guard) {
    && locked.owner == Some(t) && locked.depth == s.depth + 1 && locked.guards == s.guards
    && Of(locked, t) == Of(s, t).(pc := Locked(g))
    && forall u: Thread :: u != t ==> Of(locked, u) == Of(s, u)
  }

  lemma UpToMutex(actions: seq<Action>, t: Thread, g: Guard) returns (last: seq<Action>)
    requires Of(Run(actions), t).pc.Outside? && (Run(actions).owner.None? || Run(actions).owner == Some(t))
    requires !At(Run(actions), g).done
    ensures actions + [Acquire(t, g)] <= last && |last| == |actions| + 3 && AtMutex(Run(actions), Run(last), t, g)
  {
    hide Run;
    last := Extend(actions, Acquire(t, g));
    last := Extend(last, Go(t));
    last := Extend(last, Go(t));
  }

  /** What acquire_1 leaves, by the byte. */
  lemma AcquireEffect(s: State, locked: State, t: Thread, g: Guard)
    requires AtMutex(s, locked, t, g) && !At(s, g).done && (s.depth == 0 <==> s.owner.None?)
    requires s.owner.None? || s.owner == Some(t)
    ensures var s', b := AcquireOne(locked, t, g), At(s, g);
            && (forall u: Thread :: u != t ==> Of(s', u) == Of(s, u))
            && (b.count != 0 ==>
                  && s'.owner == s.owner && s'.depth == s.depth && Of(s', t) == Of(s, t).(pc := Throwing(g))
                  && At(s', g) == b.(count := (b.count + 1) % BYTE, refused := b.refused + 1))
            && (b.count == 0 ==>
                  && s'.owner == Some(t) && s'.depth == s.depth + 1 && At(s', g) == b.(count := 1)
                  && Of(s', t) == Local(Of(s, t).active + [g], Outside))
  {
  }

  /** On a guard that is done, acquire returns 0 after two steps, whoever holds the mutex, and changes nothing. */
  lemma DoneReturnsZero(actions: seq<Action>, t: Thread, g: Guard)
    requires Of(Run(actions), t).pc.Outside? && At(Run(actions), g).done
    ensures var s := Run(actions);
            var tested := Run(actions + [Acquire(t, g), Go(t)]);
            && tested == Goto(Goto(s, t, FirstTest(g)), t, Zero(g)) && Of(tested, t) == Of(s, t).(pc := Zero(g))
            && Of(Step(tested, Go(t)), t) == Of(s, t) && Step(tested, Go(t)).guards == s.guards
  {
    var called := Extend(actions, Acquire(t, g));
    var tested := Extend(called, Go(t));
    assert tested == actions + [Acquire(t, g), Go(t)];
  }

  lemma MutexIsFree(s: State, t: Thread)
    requires Invariant(s) && (s.owner.None? || s.owner == Some(t)) && Of(s, t).pc.Outside?
    ensures s.owner.None? <==> s.depth == 0
  {
  }

  /** Ending an initialisation: only success makes the guard done, and one level of the mutex is released. */
  lemma LeaveOutcome(actions: seq<Action>, t: Thread, success: bool)
    requires Of(Run(actions), t).pc.Outside? && Of(Run(actions), t).active != []
    ensures var s := Run(actions);
            var s', active := Step(s, if success then Release(t) else Abort(t)), Of(s, t).active;
            var g := active[|active| - 1];
            && Of(s', t) == Local(active[..|active| - 1], Outside)
            && (At(s', g).done <==> At(s, g).done || success)
            && At(s', g).completed == At(s, g).completed + (if success then 1 else 0)
            && s'.depth == s.depth - 1 && s'.owner == (if s.depth > 1 then Some(t) else None)
            && forall h: Guard :: h != g ==> At(s', h) == At(s, h)
  {
    hide Run;
    Reachable(actions);
    assert MutexFits(Run(actions)) && Run(actions).owner == Some(t);
  }

  // ----- refused acquires that are never taken back -----

  /** Nobody initialises under the guard, it is not done, and its byte is not zero. */
  ghost predicate Stuck(s: State, g: Guard) {
    !At(s, g).done && Times(Active(s), g) == 0 && At(s, g).refused % BYTE != 0
  }

  /** Refusals are never forgotten. */
  lemma RefusedGrows(s: State, a: Action, g: Guard)
    ensures At(s, g).refused <= At(Step(s, a), g).refused
  {
  }

  lemma SameBlock(x: nat, y: nat, z: nat)
    requires x <= y <= z && x / BYTE == z / BYTE
    ensures x / BYTE == y / BYTE
  {
  }

  /** A guard is stuck until the refused acquires reach the next multiple of 256. */
  lemma {:induction false} StuckUntil(actions: seq<Action>, later: seq<Action>, g: Guard)
    requires Stuck(Run(actions), g)
    ensures var before, after := Run(actions), Run(actions + later);
            && At(before, g).refused <= At(after, g).refused
            && (At(after, g).refused / BYTE == At(before, g).refused / BYTE ==> Stuck(after, g))
    decreases |later|
  {
    hide Step, Stuck, Invariant, At;
    if later == [] {
      assert actions + later == actions;
    } else {
      var all := actions + later;
      var front := actions + later[..|later| - 1];
      assert all[..|all| - 1] == front;
      StuckUntil(actions, later[..|later| - 1], g);
      Reachable(front);
      RefusedGrows(Run(front), all[|all| - 1], g);
      if At(Run(all), g).refused / BYTE == At(Run(actions), g).refused / BYTE {
        SameBlock(At(Run(actions), g).refused, At(Run(front), g).refused, At(Run(all), g).refused);
        StuckStep(Run(front), all[|all| - 1], g);
      }
    }
  }

  lemma StuckStep(s: State, a: Action, g: Guard)
    requires Invariant(s) && Stuck(s, g) && At(Step(s, a), g).refused / BYTE == At(s, g).refused / BYTE
    ensures Stuck(Step(s, a), g)
  {
    hide MutexFits, GuardFits, Active;
    var t, l := a.t, Of(s, a.t);
    assert GuardFits(s, g);
    if (a.Release? || a.Abort?) && l.pc.Outside? && l.active != [] {
      StuckLeave(s, t, g, a.Release?);
    } else if a.Go? && l.pc.Locked? {
      StuckAcquire(s, t, g, l.pc.g);
    } else {
      ActiveStays(s, a);
    }
  }

  lemma StuckLeave(s: State, t: Thread, g: Guard, success: bool)
    requires Invariant(s) && Stuck(s, g) && Of(s, t).pc.Outside? && Of(s, t).active != []
    ensures Stuck(Leave(s, t, success), g)
  {
    hide MutexFits, GuardFits, Active;
    LeaveInitKeeps(s, t, success);
    var active := Of(s, t).active;
    var n := |active| - 1;
    assert active == active[..n] + [active[n]];
    assert Times(active, g) == Times(active[..n], g) + if active[n] == g then 1 else 0;
  }

  lemma StuckAcquire(s: State, t: Thread, g: Guard, h: Guard)
    requires Invariant(s) && Stuck(s, g) && Of(s, t).pc == Locked(h)
    requires At(AcquireOne(s, t, h), g).refused / BYTE == At(s, g).refused / BYTE
    ensures Stuck(AcquireOne(s, t, h), g)
  {
    hide MutexFits, Active;
    assert GuardFits(s, g);
    if At(s, h).done || At(s, h).count != 0 {
      LeaveLocked(s, t, h);
    } else {
      BeginKeeps(s, t, h);
      assert Times(Active(s) + [h], g) == Times(Active(s), g) + if h == g then 1 else 0;
    }
  }

  /** Steps other than those of the mutex's owner under it change no guard and open or close none. */
  lemma ActiveStays(s: State, a: Action)
    requires MutexFits(s) && !(a.Go? && Of(s, a.t).pc.Locked?)
    requires a.Release? || a.Abort? ==> !Of(s, a.t).pc.Outside? || Of(s, a.t).active == []
    ensures Step(s, a).guards == s.guards && Active(Step(s, a)) == Active(s)
  {
  }

  lemma LeaveLocked(s: State, t: Thread, h: Guard)
    requires MutexFits(s) && Of(s, t).pc == Locked(h) && (At(s, h).done || At(s, h).count != 0)
    ensures MutexFits(AcquireOne(s, t, h)) && Active(AcquireOne(s, t, h)) == Active(s)
  {
    var s' := AcquireOne(s, t, h);
    assert forall u: Thread :: u != t ==> Of(s', u) == Of(s, u);
    assert s.owner == Some(t) && Of(s', t).active == Of(s, t).active;
  }

  // ----- runs that reach the bounds -----

  lemma Extend(actions: seq<Action>, a: Action) returns (more: seq<Action>)
    ensures more == actions + [a] && Run(more) == Step(Run(actions), a)
  {
    more := actions + [a];
    assert more[..|actions|] == actions;
  }

  /** Thread `t` alone is in a call or initialising, under guard `g` only, `n` times over. */
  ghost predicate Alone(s: State, t: Thread, g: Guard, n: nat, b: Bytes) {
    && s.owner == (if n == 0 then None else Some(t)) && s.depth == n
    && Of(s, t) == Local(seq(n, _ => g), Outside) && At(s, g) == b
  }

  /** One acquire from such a state, up to the mutex. */
  lemma UpToLock(actions: seq<Action>, t: Thread, g: Guard, n: nat, b: Bytes) returns (more: seq<Action>)
    requires Alone(Run(actions), t, g, n, b) && !b.done
    ensures actions <= more
    ensures var s := Run(more);
            && s.owner == Some(t) && s.depth == n + 1
            && Of(s, t) == Local(seq(n, _ => g), Locked(g)) && At(s, g) == b
  {
    hide Run;
    more := Extend(actions, Acquire(t, g));
    more := Extend(more, Go(t));
    more := Extend(more, Go(t));
  }

  /** If the byte is not zero the acquire is refused and counted. */
  lemma Refuse(actions: seq<Action>, t: Thread, g: Guard, n: nat, b: Bytes) returns (more: seq<Action>)
    requires Alone(Run(actions), t, g, n, b) && !b.done && b.count != 0
    ensures actions <= more
    ensures Alone(Run(more), t, g, n, b.(count := (b.count + 1) % BYTE, refused := b.refused + 1))
  {
    hide Run;
    more := UpToLock(actions, t, g, n, b);
    more := Extend(more, Go(t));
    more := Extend(more, Go(t));
  }

  /** As many refusals as the byte takes to come back to zero. */
  lemma {:induction false} RefuseUntilZero(actions: seq<Action>, t: Thread, g: Guard, n: nat, b: Bytes)
    returns (more: seq<Action>)
    requires Alone(Run(actions), t, g, n, b) && !b.done && 0 < b.count < BYTE
    ensures actions <= more
    ensures Alone(Run(more), t, g, n, b.(count := 0, refused := b.refused + (BYTE - b.count)))
    decreases BYTE - b.count
  {
    hide Run, Alone;
    more := Refuse(actions, t, g, n, b);
    if b.count + 1 == BYTE {
      assert (b.count + 1) % BYTE == 0;
    } else {
      assert (b.count + 1) % BYTE == b.count + 1;
      more := RefuseUntilZero(more, t, g, n, b.(count := b.count + 1, refused := b.refused + 1));
    }
  }

  /** If the byte is zero the acquire opens the guard, whether or not it is open already. */
  lemma Open(actions: seq<Action>, t: Thread, g: Guard, n: nat, b: Bytes) returns (more: seq<Action>)
    requires Alone(Run(actions), t, g, n, b) && !b.done && b.count == 0
    ensures actions <= more && Alone(Run(more), t, g, n + 1, b.(count := 1))
  {
    hide Run;
    more := UpToLock(actions, t, g, n, b);
    more := Extend(more, Go(t));
    assert seq(n, _ => g) + [g] == seq(n + 1, _ => g);
  }

  /** Ending the innermost initialisation. */
  lemma Close(actions: seq<Action>, t: Thread, g: Guard, n: nat, b: Bytes, success: bool) returns (more: seq<Action>)
    requires Alone(Run(actions), t, g, n, b) && n > 0
    ensures actions <= more
    ensures Alone(Run(more), t, g, n - 1, Bytes(b.done || success, (b.count + BYTE - 1) % BYTE,
                                                b.completed + (if success then 1 else 0), b.refused))
  {
    hide Run;
    more := Extend(actions, if success then Release(t) else Abort(t));
    assert seq(n, _ => g)[..n - 1] == seq(n - 1, _ => g);
  }

  lemma Begin(t: Thread, g: Guard) returns (actions: seq<Action>)
    ensures Alone(Run(actions), t, g, 1, Bytes(false, 1, 0, 0))
  {
    actions := [];
    assert Of(INITIAL, t).active == seq(0, _ => g);
    actions := Open(actions, t, g, 0, Bytes(false, 0, 0, 0));
  }

  /** Enter recursively, then abort: the guard is stuck. */
  lemma RecursionThenAbort(t: Thread, g: Guard) returns (actions: seq<Action>)
    ensures Stuck(Run(actions), g) && Alone(Run(actions), t, g, 0, Bytes(false, 1, 0, 1))
  {
    actions := Begin(t, g);
    actions := Refuse(actions, t, g, 1, Bytes(false, 1, 0, 0));
    actions := Close(actions, t, g, 1, Bytes(false, 2, 0, 1), false);
  }

  /** A stuck guard with the mutex free is initialised after exactly as many refusals as its byte lacks to 256. */
  lemma AcquiredAgain(actions: seq<Action>, t: Thread, g: Guard, b: Bytes) returns (more: seq<Action>)
    requires Stuck(Run(actions), g) && Alone(Run(actions), t, g, 0, b)
    ensures actions <= more
    ensures Alone(Run(more), t, g, 0, Bytes(true, 0, 1, b.refused + (BYTE - b.refused % BYTE)))
  {
    Reachable(actions);
    assert GuardFits(Run(actions), g);
    more := RefuseUntilZero(actions, t, g, 0, b);
    var refused := b.refused + (BYTE - b.count);
    more := Open(more, t, g, 0, b.(count := 0, refused := refused));
    more := Close(more, t, g, 1, b.(count := 1, refused := refused), true);
  }

  /** Opening a guard once more takes 255 refusals within the initialisation. */
  lemma {:induction false} OpenTimes(t: Thread, g: Guard, n: nat) returns (actions: seq<Action>)
    ensures Alone(Run(actions), t, g, n + 1, Bytes(false, 1, 0, (BYTE - 1) * n))
  {
    if n == 0 {
      actions := Begin(t, g);
    } else {
      actions := OpenTimes(t, g, n - 1);
      actions := RefuseUntilZero(actions, t, g, n, Bytes(false, 1, 0, (BYTE - 1) * (n - 1)));
      actions := Open(actions, t, g, n, Bytes(false, 0, 0, (BYTE - 1) * n));
    }
  }

  lemma {:induction false} CloseAll(actions: seq<Action>, t: Thread, g: Guard, n: nat, b: Bytes)
    returns (more: seq<Action>)
    requires Alone(Run(actions), t, g, n, b)
    ensures At(Run(more), g).completed == b.completed + n && At(Run(more), g).refused == b.refused
    decreases n
  {
    more := actions;
    if n > 0 {
      more := Close(actions, t, g, n, b, true);
      more := CloseAll(more, t, g, n - 1, Bytes(true, (b.count + BYTE - 1) % BYTE, b.completed + 1, b.refused));
    }
  }

  /** The bound is reached for every number of refusals: 255 for each initialisation too many. */
  lemma BoundReached(t: Thread, g: Guard, n: nat) returns (actions: seq<Action>)
    ensures var b := At(Run(actions), g);
            b.completed == n + 1 && b.refused == (BYTE - 1) * n
  {
    actions := OpenTimes(t, g, n);
    actions := CloseAll(actions, t, g, n + 1, Bytes(false, 1, 0, (BYTE - 1) * n));
  }
}
