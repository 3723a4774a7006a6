/** Whole runs of throwing, catching, leaving handlers and rethrowing in one thread. */
module EhRun {
  import opened EhNesting
  import opened CxaExceptions

  datatype Event = ThrowNew | Catch | Leave | ThrowAgain

  // ----- what a list of events means -----

  /** The nesting, with exceptions numbered in the order in which they are thrown. */
  datatype Nesting = Nesting(frames: seq<Frame<nat>>, next: nat)

  /** An event the nesting does not allow is left out. */
  ghost function After(n: Nesting, ev: Event): Nesting {
    var top := |n.frames| - 1;
    var h := Handlers(n.frames);
    match ev
    case ThrowNew => Nesting(n.frames + [Flight(n.next)], n.next + 1)
    case Catch =>
      if n.frames != [] && n.frames[top].Flight? then n.(frames := n.frames[..top] + [Handler(n.frames[top].e)]) else n
    case Leave => if CanEnd(n.frames) then n.(frames := Ended(n.frames)) else n
    case ThrowAgain =>
      if h != [] && Flight(h[|h| - 1]) !in n.frames then n.(frames := n.frames + [Flight(h[|h| - 1])]) else n
  }

  ghost function Play(script: seq<Event>): Nesting {
    if script == [] then Nesting([], 0)
    else After(Play(script[..|script| - 1]), script[|script| - 1])
  }

  lemma PlayLast(script: seq<Event>, ev: Event)
    ensures Play(script + [ev]) == After(Play(script), ev)
  {
    assert (script + [ev])[..|script|] == script;
  }

  /** What throwing and catching mean: a new flight on top, and a flight on top that becomes a handler. */
  lemma ThrowAndCatchLaw(script: seq<Event>)
    ensures var n, k := Play(script), Play(script).next;
            && Play(script + [ThrowNew]) == Nesting(n.frames + [Flight(k)], k + 1)
            && Play(script + [ThrowNew, Catch]) == Nesting(n.frames + [Handler(k)], k + 1)
  {
    PlayLast(script, ThrowNew);
    PlayLast(script + [ThrowNew], Catch);
    assert script + [ThrowNew, Catch] == script + [ThrowNew] + [Catch];
    var frames := Play(script).frames;
    assert (frames + [Flight(Play(script).next)])[..|frames|] == frames;
  }

  /** What leaving means: the handler on top is gone, or the one below the exception that leaves it. */
  lemma LeaveLaw(script: seq<Event>, front: seq<Frame<nat>>, k: nat, j: nat)
    ensures Play(script).frames == front + [Handler(k)] ==> Play(script + [Leave]).frames == front
    ensures Play(script).frames == front + [Handler(k), Flight(j)] ==>
              Play(script + [Leave]).frames == front + [Flight(j)]
  {
    hide Handlers;
    PlayLast(script, Leave);
    var one, two := front + [Handler(k)], front + [Handler(k), Flight(j)];
    assert one[..|one| - 1] == front && two[..|two| - 2] + two[|two| - 1..] == front + [Flight(j)];
  }

  /** What rethrowing means: the innermost handler's exception is in flight again. */
  lemma ThrowAgainLaw(script: seq<Event>, front: seq<Frame<nat>>, k: nat, above: seq<Frame<nat>>)
    requires Play(script).frames == front + [Handler(k)] + above
    requires (forall i :: 0 <= i < |above| ==> above[i].Flight?) && Flight(k) !in Play(script).frames
    ensures Play(script + [ThrowAgain]).frames == Play(script).frames + [Flight(k)]
  {
    PlayLast(script, ThrowAgain);
    InnermostHandler(front, k, above);
  }

  lemma {:induction false} InnermostHandler(front: seq<Frame<nat>>, k: nat, above: seq<Frame<nat>>)
    requires forall i :: 0 <= i < |above| ==> above[i].Flight?
    ensures Handlers(front + [Handler(k)] + above) == Handlers(front) + [k]
  {
    hide Handlers;
    if above == [] {
      assert front + [Handler(k)] + above == front + [Handler(k)];
      HandlersPush(front, Handler(k));
    } else {
      var low, f := above[..|above| - 1], above[|above| - 1];
      assert front + [Handler(k)] + above == front + [Handler(k)] + low + [f];
      InnermostHandler(front, k, low);
      HandlersPush(front + [Handler(k)] + low, f);
    }
  }

  // ----- numbers for objects -----

  ghost predicate Numbered(frames: seq<Frame<nat>>, next: nat) {
    forall i :: 0 <= i < |frames| ==> frames[i].e < next
  }

  ghost function Rename(f: Frame<nat>, objects: seq<Exception>): Frame<Exception>
    requires f.e < |objects|
  {
    match f
    case Handler(k) => Handler(objects[k])
    case Flight(k) => Flight(objects[k])
  }

  /** The frames of the machine are those of the nesting. */
  ghost predicate Matches(frames: seq<Frame<Exception>>, n: Nesting, objects: seq<Exception>) {
    && n.next == |objects| && |frames| == |n.frames| && Numbered(n.frames, n.next)
    && (forall i, j :: 0 <= i < j < |objects| ==> objects[i] != objects[j])
    && (forall i :: 0 <= i < |frames| ==> frames[i] == Rename(n.frames[i], objects))
  }

  lemma {:induction false} SameHandlers(frames: seq<Frame<Exception>>, n: Nesting, objects: seq<Exception>)
    requires Matches(frames, n, objects)
    ensures |Handlers(frames)| == |Handlers(n.frames)|
    ensures forall i :: 0 <= i < |Handlers(frames)| ==>
              Handlers(n.frames)[i] < |objects| && Handlers(frames)[i] == objects[Handlers(n.frames)[i]]
    decreases |frames|
  {
    if frames != [] {
      SameHandlers(frames[..|frames| - 1], n.(frames := n.frames[..|frames| - 1]), objects);
    }
  }

  lemma SameMembers(frames: seq<Frame<Exception>>, n: Nesting, objects: seq<Exception>, f: Frame<nat>)
    requires Matches(frames, n, objects) && f.e < |objects|
    ensures f in n.frames <==> Rename(f, objects) in frames
  {
    if f in n.frames {
      var i :| 0 <= i < |n.frames| && n.frames[i] == f;
      assert frames[i] == Rename(f, objects);
    }
  }

  lemma MatchesThrow(frames: seq<Frame<Exception>>, n: Nesting, objects: seq<Exception>, e: Exception)
    requires Matches(frames, n, objects) && e !in objects
    ensures Matches(frames + [Flight(e)], After(n, ThrowNew), objects + [e])
  {
  }

  lemma MatchesCatch(frames: seq<Frame<Exception>>, n: Nesting, objects: seq<Exception>)
    requires Matches(frames, n, objects)
    ensures var top := |frames| - 1;
            if frames != [] && frames[top].Flight?
            then Matches(frames[..top] + [Handler(frames[top].e)], After(n, Catch), objects)
            else After(n, Catch) == n
  {
  }

  lemma MatchesFront(frames: seq<Frame<Exception>>, n: Nesting, objects: seq<Exception>)
    requires Matches(frames, n, objects) && frames != []
    ensures Matches(frames[..|frames| - 1], n.(frames := n.frames[..|frames| - 1]), objects)
  {
  }

  lemma MatchesWithout(frames: seq<Frame<Exception>>, n: Nesting, objects: seq<Exception>)
    requires Matches(frames, n, objects) && |frames| >= 2
    ensures var size := |frames|;
            Matches(frames[..size - 2] + frames[size - 1..],
                    n.(frames := n.frames[..size - 2] + n.frames[size - 1..]), objects)
  {
    var size := |frames|;
    var after, abs := frames[..size - 2] + frames[size - 1..], n.frames[..size - 2] + n.frames[size - 1..];
    forall i | 0 <= i < size - 1 ensures abs[i].e < n.next && after[i] == Rename(abs[i], objects) {
      var from := if i < size - 2 then i else size - 1;
      assert after[i] == frames[from] && abs[i] == n.frames[from];
    }
  }

  lemma MatchesKinds(frames: seq<Frame<Exception>>, n: Nesting, objects: seq<Exception>)
    requires Matches(frames, n, objects)
    ensures |frames| == |n.frames| && forall i :: 0 <= i < |frames| ==> frames[i].Handler? == n.frames[i].Handler?
  {
  }

  lemma AfterLeave(n: Nesting)
    ensures After(n, Leave) == if CanEnd(n.frames) then n.(frames := Ended(n.frames)) else n
  {
  }

  lemma MatchesLeave(frames: seq<Frame<Exception>>, n: Nesting, objects: seq<Exception>)
    requires Matches(frames, n, objects)
    ensures if CanEnd(frames) then Matches(Ended(frames), After(n, Leave), objects) else After(n, Leave) == n
  {
    hide After, Matches;
    AfterLeave(n);
    MatchesKinds(frames, n, objects);
    if CanEnd(frames) {
      if frames[|frames| - 1].Handler? {
        MatchesFront(frames, n, objects);
      } else {
        MatchesWithout(frames, n, objects);
      }
    }
  }

  lemma MatchesAgain(frames: seq<Frame<Exception>>, n: Nesting, objects: seq<Exception>)
    requires Matches(frames, n, objects)
    ensures var h := Handlers(frames);
            if h != [] && Flight(h[|h| - 1]) !in frames
            then Matches(frames + [Flight(h[|h| - 1])], After(n, ThrowAgain), objects)
            else After(n, ThrowAgain) == n
  {
    hide Handlers;
    SameHandlers(frames, n, objects);
    var h := Handlers(n.frames);
    if h != [] {
      SameMembers(frames, n, objects, Flight(h[|h| - 1]));
    }
  }

  // ----- the machine -----

  /** Every exception the state refers to was thrown; the one on top of the stack is the innermost handler's. */
  lemma StateOf(g: EhGlobals)
    requires g.Valid()
    ensures Nested(g.frames) && forall f :: f in g.frames ==> f.e in g.thrown
    ensures g.caughtExceptions != null ==> g.caughtExceptions in g.thrown
    ensures g.caughtExceptions == null <==> Handlers(g.frames) == []
    ensures g.caughtExceptions != null ==> Handlers(g.frames)[|Handlers(g.frames)| - 1] == g.caughtExceptions
  {
    hide Handlers, Nested, Flights;
    if g.caughtExceptions != null {
      TopIsInnermost(g.frames, g.caughtExceptions);
    }
  }

  /** Performs an event if the nesting allows it. */
  method Step(g: EhGlobals, ev: Event, frames: seq<Frame<Exception>>, ghost n: Nesting, ghost objects: seq<Exception>)
    returns (after: seq<Frame<Exception>>, ghost known: seq<Exception>)
    requires g.Valid() && g.frames == frames && g.thrown == (set e | e in objects)
    requires Matches(frames, n, objects)
    modifies g, g.thrown
    ensures g.Valid() && g.frames == after && g.thrown == (set e | e in known)
    ensures Matches(after, After(n, ev), known)
    ensures fresh(g.thrown - old(g.thrown)) && g.thrown >= old(g.thrown)
  {
    hide EhGlobals.Valid, Nested, Handlers, Accounted, Matches, After;
    var size := |frames|;
    after, known := frames, objects;
    StateOf(g);
    match ev
    case ThrowNew =>
      var e := g.Throw();
      MatchesThrow(frames, n, objects, e);
      after, known := frames + [Flight(e)], objects + [e];
    case Catch =>
      MatchesCatch(frames, n, objects);
      if size > 0 && frames[size - 1].Flight? {
        var e := frames[size - 1].e;
        g.BeginCatch(e);
        after := frames[..size - 1] + [Handler(e)];
      }
    case Leave =>
      MatchesLeave(frames, n, objects);
      if size > 0 && (frames[size - 1].Handler? || (size > 1 && frames[size - 2].Handler?)) {
        EndNested(frames);
        g.EndCatch();
        after := if frames[size - 1].Handler? then frames[..size - 1] else frames[..size - 2] + frames[size - 1..];
      }
    case ThrowAgain =>
      MatchesAgain(frames, n, objects);
      if g.caughtExceptions != null {
        var e: Exception := g.caughtExceptions;
        if Flight(e) !in frames {
          var stopped := g.Rethrow();
          after := frames + [Flight(e)];
        }
      }
  }

  /**
   Runs any list of events. The machine ends in the nesting the events mean, its counts, stack and
   uncaught count being those of the nesting; and exactly the exceptions that are neither handled
   nor in flight there have been destroyed, each once.
   */
  method Run(script: seq<Event>) returns (g: EhGlobals, ghost objects: seq<Exception>)
    ensures fresh(g) && g.Valid() && Matches(g.frames, Play(script), objects)
    ensures forall k :: 0 <= k < |objects| ==>
              (objects[k] in g.destroyed <==>
               Handler(k) !in Play(script).frames && Flight(k) !in Play(script).frames)
    ensures forall i, j :: 0 <= i < j < |g.destroyed| ==> g.destroyed[i] != g.destroyed[j]
  {
    hide EhGlobals.Valid, Play, After, Matches;
    g := new EhGlobals();
    var frames := [];
    objects := [];
    assert Matches(frames, Play([]), objects) by {
      NothingYet();
    }
    for k := 0 to |script|
      invariant fresh(g) && g.Valid() && g.frames == frames && fresh(g.thrown)
      invariant g.thrown == (set e | e in objects)
      invariant Matches(frames, Play(script[..k]), objects)
    {
      PlayNext(script, k);
      frames, objects := Step(g, script[k], frames, Play(script[..k]), objects);
    }
    assert script[..|script|] == script;
    forall k | 0 <= k < |objects|
      ensures objects[k] in g.destroyed <==>
              Handler(k) !in Play(script).frames && Flight(k) !in Play(script).frames
    {
      DestroyedIff(g, Play(script), objects, k);
    }
    DestroyedOnce(g);
  }

  lemma NothingYet()
    ensures Matches([], Play([]), [])
  {
  }

  lemma PlayNext(script: seq<Event>, k: nat)
    requires k < |script|
    ensures Play(script[..k + 1]) == After(Play(script[..k]), script[k])
  {
    assert script[..k + 1][..k] == script[..k];
  }

  lemma DestroyedIff(g: EhGlobals, n: Nesting, objects: seq<Exception>, k: nat)
    requires g.Valid() && Matches(g.frames, n, objects) && k < |objects| && g.thrown == (set e | e in objects)
    ensures objects[k] in g.destroyed <==> Handler(k) !in n.frames && Flight(k) !in n.frames
  {
    hide Nested, Linked, Counted;
    SameMembers(g.frames, n, objects, Handler(k));
    SameMembers(g.frames, n, objects, Flight(k));
  }

  lemma DestroyedOnce(g: EhGlobals)
    requires g.Valid()
    ensures forall i, j :: 0 <= i < j < |g.destroyed| ==> g.destroyed[i] != g.destroyed[j]
  {
  }
}
