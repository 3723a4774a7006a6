/**
 pthread_once as a protocol: any number of threads, each of which may call it again and again, take
 its steps in any order. Memory is sequentially consistent.
 */
module PthreadOnce {
  import opened Options

  type Thread = nat

  /** Where a thread is in the code. */
  datatype Pc =
    | Outside          // not in a call
    | FirstTest        // about to test done without the lock
    | Spinning         // about to take the lock
    | SecondTest       // about to test done with the lock
    | InRoutine        // running init_routine
    | Setting          // about to set done
    | Unlocking        // about to release the lock
    | Returning        // about to return

  datatype State = State(done: bool, lock: Option<Thread>, pcs: map<Thread, Pc>, started: nat, finished: nat)

  const INITIAL := State(false, None, map[], 0, 0)

  function PcOf(s: State, t: Thread): Pc {
    if t in s.pcs then s.pcs[t] else Outside
  }

  function Goto(s: State, t: Thread, pc: Pc): State {
    s.(pcs := s.pcs[t := pc])
  }

  /** The next step of thread `t`; a thread that spins on a held lock stays where it is. */
  function Step(s: State, t: Thread): State {
    match PcOf(s, t)
    case Outside => Goto(s, t, FirstTest)
    case FirstTest => Goto(s, t, if s.done then Returning else Spinning)
    case Spinning => if s.lock.None? then Goto(s, t, SecondTest).(lock := Some(t)) else s
    case SecondTest =>
      if s.done then Goto(s, t, Unlocking) else Goto(s, t, InRoutine).(started := s.started + 1)
    case InRoutine => Goto(s, t, Setting).(finished := s.finished + 1)
    case Setting => Goto(s, t, Unlocking).(done := true)
    case Unlocking => Goto(s, t, Returning).(lock := None)
    case Returning => Goto(s, t, Outside)
  }

  function Run(schedule: seq<Thread>): State {
    if schedule == [] then INITIAL else Step(Run(schedule[..|schedule| - 1]), schedule[|schedule| - 1])
  }

  predicate Inside(pc: Pc) {
    pc in {SecondTest, InRoutine, Setting, Unlocking}
  }

  ghost predicate Invariant(s: State) {
    && (forall t: Thread :: Inside(PcOf(s, t)) <==> s.lock == Some(t))
    && (forall t: Thread :: PcOf(s, t) in {Unlocking, Returning} ==> s.done)
    && (s.done ==> s.started == 1 && s.finished == 1)
    && (!s.done ==>
          var holder := if s.lock.Some? then PcOf(s, s.lock.value) else Outside;
          && s.started == (if holder in {InRoutine, Setting} then 1 else 0)
          && s.finished == (if holder == Setting then 1 else 0))
    && (s.done ==> forall t: Thread :: PcOf(s, t) !in {InRoutine, Setting})
  }

  lemma StepKeeps(s: State, t: Thread)
    requires Invariant(s)
    ensures Invariant(Step(s, t))
  {
  }

  lemma {:induction false} Reachable(schedule: seq<Thread>)
    ensures Invariant(Run(schedule))
  {
    if schedule != [] {
      Reachable(schedule[..|schedule| - 1]);
      StepKeeps(Run(schedule[..|schedule| - 1]), schedule[|schedule| - 1]);
    }
  }

  /** Under every schedule the routine starts at most once, and no call returns before it has finished. */
  lemma OnceOnly(schedule: seq<Thread>)
    ensures var s := Run(schedule);
            && s.finished <= s.started <= 1
            && forall t: Thread :: PcOf(s, t) == Returning ==> s.finished == 1
  {
    Reachable(schedule);
  }

  /** At most one thread is past the lock, and the routine never runs beside a returned call. */
  lemma Exclusive(schedule: seq<Thread>, t: Thread, u: Thread)
    ensures var s := Run(schedule);
            && (Inside(PcOf(s, t)) && Inside(PcOf(s, u)) ==> t == u)
            && (PcOf(s, t) == InRoutine ==> PcOf(s, u) != Returning)
  {
    Reachable(schedule);
  }

  /** Some thread that is in a call can always take a step: the protocol does not deadlock. */
  lemma NoDeadlock(schedule: seq<Thread>, t: Thread)
    requires PcOf(Run(schedule), t) != Outside
    ensures var s := Run(schedule);
            exists u :: PcOf(s, u) != Outside && Step(s, u) != s
  {
    Reachable(schedule);
    var s := Run(schedule);
    var u := if PcOf(s, t) == Spinning && s.lock.Some? then s.lock.value else t;
    assert PcOf(s, u) != Outside;
    assert PcOf(Step(s, u), u) != PcOf(s, u);
  }

  // ----- calls from their beginning to their end -----

  /** However a call ends, the routine has run and finished by then. */
  lemma EndsFinished(schedule: seq<Thread>, t: Thread)
    requires PcOf(Run(schedule), t) != Outside && PcOf(Run(schedule + [t]), t) == Outside
    ensures Run(schedule + [t]).started == 1 && Run(schedule + [t]).finished == 1
  {
    Reachable(schedule);
    assert (schedule + [t])[..|schedule|] == schedule;
  }

  /** `n` steps of one thread. */
  function Alone(t: Thread, n: nat): seq<Thread> {
    seq(n, _ => t)
  }

  lemma OneMore(schedule: seq<Thread>, t: Thread, n: nat)
    ensures Run(schedule + Alone(t, n + 1)) == Step(Run(schedule + Alone(t, n)), t)
    ensures schedule + Alone(t, 0) == schedule
  {
    var more := schedule + Alone(t, n + 1);
    assert more[..|more| - 1] == schedule + Alone(t, n) && more[|more| - 1] == t;
  }

  /** How many steps a thread is from the end of its call, if nobody holds it up. */
  function Left(s: State, t: Thread): nat {
    match PcOf(s, t)
    case Outside => 8
    case FirstTest => if s.done then 2 else 7
    case Spinning => if s.done then 4 else 6
    case SecondTest => if s.done then 3 else 5
    case InRoutine => 4
    case Setting => 3
    case Unlocking => 2
    case Returning => 1
  }

  /** A step of a thread that is not held up takes it closer to the end of its call. */
  lemma StepCloser(s: State, t: Thread)
    requires Invariant(s) && (s.lock.None? || s.lock == Some(t))
    ensures var s' := Step(s, t);
            && (s'.lock.None? || s'.lock == Some(t))
            && (PcOf(s, t) == Returning <==> PcOf(s', t) == Outside)
            && (PcOf(s, t) != Returning ==> Left(s', t) < Left(s, t))
  {
  }

  /**
   From every state in which nobody else holds the lock, a thread that takes at most eight steps, the
   first of them the call unless it is in one, ends its call with the routine finished.
   */
  lemma {:induction false} Completes(schedule: seq<Thread>, t: Thread) returns (n: nat)
    requires Run(schedule).lock.None? || Run(schedule).lock == Some(t)
    ensures 0 < n <= Left(Run(schedule), t)
    ensures var s := Run(schedule + Alone(t, n)); PcOf(s, t) == Outside && s.started == 1 && s.finished == 1
    decreases Left(Run(schedule), t)
  {
    hide Run, Step, Invariant;
    Reachable(schedule);
    StepCloser(Run(schedule), t);
    OneMore(schedule, t, 0);
    var next := schedule + Alone(t, 1);
    if PcOf(Run(schedule), t) == Returning {
      n := 1;
      assert next == schedule + [t];
      EndsFinished(schedule, t);
    } else {
      var k := Completes(next, t);
      n := k + 1;
      assert next + Alone(t, k) == schedule + Alone(t, n);
    }
  }

  /** In particular a first call, alone, runs the routine once, to its end. */
  lemma FirstCall(t: Thread) returns (n: nat)
    ensures var s := Run(Alone(t, n)); n > 0 && PcOf(s, t) == Outside && s.started == 1 && s.finished == 1
  {
    n := Completes([], t);
    assert [] + Alone(t, n) == Alone(t, n);
  }
}
