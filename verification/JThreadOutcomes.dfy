/** What the result of Start tells about its run: an error only where pthread_create failed or another thread was
    found running, success only for a thread that went through Thread() to ThreadStarted, and one of the two
    whenever no step is left to take. */
module JThreadOutcomes {
  import opened JThread

  /** Moments in the life of a call and of its thread. */
  datatype Milestone = FoundRunning | FoundNone | CreateFailed | ThreadCreated | SawRunning | SaidStarted

  /** The step a takes call i, or its thread, past m. */
  predicate Makes(s: State, a: Action, i: nat, m: Milestone)
    requires Shaped(s) && i < |s.callers|
  {
    match m
    case FoundRunning => a.Call? && a.i == i && s.callers[i].Check? && s.running
    case FoundNone => a.Call? && a.i == i && s.callers[i].Check? && !s.running
    case CreateFailed => a == Call(i, false) && s.callers[i].Create?
    case ThreadCreated => a == Call(i, true) && s.callers[i].Create?
    case SawRunning => a.Call? && a.i == i && s.callers[i].Look? && s.running
    case SaidStarted => a == Work(i) && s.workers[i].Body?
  }

  predicate Made(s: State, actions: seq<Action>, i: nat, m: Milestone)
    requires Shaped(s) && i < |s.callers|
    decreases |actions|
  {
    && actions != [] && Step(s, actions[0]).Some?
    && (Makes(s, actions[0], i, m) || Made(Step(s, actions[0]).value, actions[1..], i, m))
  }

  /** Where call i and its thread are tells that m is behind them. */
  predicate Tells(s: State, i: nat, m: Milestone)
    requires Shaped(s) && i < |s.callers|
  {
    var c, w := s.callers[i], s.workers[i];
    match m
    case FoundRunning => c.Refuse? || c.Refused? || c == Returned(AlreadyRunning)
    case FoundNone =>
      !c.Idle? && !c.Begin? && !c.Check? && !c.Refuse? && !c.Refused? && c != Returned(AlreadyRunning)
    case CreateFailed => c.Failed? || c == Returned(CantStartThread)
    case ThreadCreated => !w.Absent?
    case SawRunning => c.Seen? || c.Release? || c.Await? || c.Passed? || c == Returned(Success)
    case SaidStarted => w.Announced? || w.Finish? || w.Finished? || w.Exited?
  }

  lemma CallTells(s: State, k: nat, created: bool, i: nat, m: Milestone)
    requires Shaped(s) && i < |s.callers| && (s.callers[i].Create? ==> s.workers[i].Absent?)
    requires CallStep(s, k, created).Some?
    ensures Tells(CallStep(s, k, created).value, i, m) <==> Tells(s, i, m) || Makes(s, Call(k, created), i, m)
  {
    if i != k {
      CallShape(s, k, created);
    }
  }

  lemma WorkTells(s: State, k: nat, i: nat, m: Milestone)
    requires Shaped(s) && i < |s.callers| && WorkStep(s, k).Some?
    ensures Tells(WorkStep(s, k).value, i, m) <==> Tells(s, i, m) || Makes(s, Work(k), i, m)
  {
  }

  lemma StepTells(s: State, a: Action, i: nat, m: Milestone)
    requires Inv(s) && i < |s.callers| && Step(s, a).Some?
    ensures Tells(Step(s, a).value, i, m) <==> Tells(s, i, m) || Makes(s, a, i, m)
  {
    hide Tells, Makes, CallStep, WorkStep, Locks;
    assert Local(s, i);
    match a {
      case Call(k, created) => CallTells(s, k, created, i, m);
      case Work(k) => WorkTells(s, k, i, m);
    }
  }

  lemma {:induction false} RunTells(s: State, actions: seq<Action>, i: nat, m: Milestone)
    requires Inv(s) && i < |s.callers| && Run(s, actions).Some?
    ensures |Run(s, actions).value.callers| == |s.callers|
    ensures Tells(Run(s, actions).value, i, m) <==> Tells(s, i, m) || Made(s, actions, i, m)
    decreases |actions|
  {
    hide Step, Tells, Makes, Local;
    if actions != [] {
      StepKeeps(s, actions[0]);
      StepTells(s, actions[0], i, m);
      RunTells(Step(s, actions[0]).value, actions[1..], i, m);
    }
  }

  /** Over every run of n calls: where a call and its thread stand is decided by what happened to them, and by
      nothing else. In particular Start fails only after a pthread_create of its own has failed, refuses only
      after it has found running set, and succeeds only after it has seen running set. */
  lemma OutcomeTold(n: nat, actions: seq<Action>, i: nat, m: Milestone)
    requires Run(Init(n), actions).Some? && i < n
    ensures |Run(Init(n), actions).value.callers| == n
    ensures Tells(Run(Init(n), actions).value, i, m) <==> Made(Init(n), actions, i, m)
  {
    InitHolds(n);
    RunTells(Init(n), actions, i, m);
  }

  predicate CreateWorks(actions: seq<Action>) {
    forall a :: a in actions && a.Call? ==> a.created
  }

  lemma {:induction false} NoFailureMade(s: State, actions: seq<Action>, i: nat)
    requires Shaped(s) && i < |s.callers| && CreateWorks(actions)
    ensures !Made(s, actions, i, CreateFailed)
    decreases |actions|
  {
    hide Step;
    if actions != [] && Step(s, actions[0]).Some? {
      assert actions[0] in actions;
      NoFailureMade(Step(s, actions[0]).value, actions[1..], i);
    }
  }

  /** As long as pthread_create works no call of Start fails. */
  lemma NeverFails(n: nat, actions: seq<Action>, i: nat)
    requires Run(Init(n), actions).Some? && i < n && CreateWorks(actions)
    ensures var t := Run(Init(n), actions).value;
            |t.callers| == n && !t.callers[i].Failed? && t.callers[i] != Returned(CantStartThread)
  {
    hide Run, Made;
    OutcomeTold(n, actions, i, CreateFailed);
    NoFailureMade(Init(n), actions, i);
  }

  // ----- what running means -----

  /** The threads between their two assignments to running. */
  predicate SomeRuns(s: State) {
    exists k :: 0 <= k < |s.workers| && Runs(s.workers[k])
  }

  lemma StepRuns(s: State, a: Action)
    requires Inv(s) && s.running ==> SomeRuns(s)
    requires Inv(s) && Step(s, a).Some? && Step(s, a).value.running
    ensures SomeRuns(Step(s, a).value)
  {
    hide Local;
    var t := Step(s, a).value;
    if s.running {
      var k :| 0 <= k < |s.workers| && Runs(s.workers[k]);
      RunnerStays(s, a, k);
    } else {
      assert Runs(t.workers[a.i]);
    }
  }

  lemma RunnerStays(s: State, a: Action, k: nat)
    requires Inv(s) && Step(s, a).Some? && Step(s, a).value.running && k < |s.workers| && Runs(s.workers[k])
    ensures Runs(Step(s, a).value.workers[k])
  {
    assert Local(s, k);
  }

  lemma {:induction false} RunningMeansRuns(s: State, actions: seq<Action>)
    requires Inv(s) && Run(s, actions).Some? && (s.running ==> SomeRuns(s))
    ensures var t := Run(s, actions).value; Inv(t) && (t.running <==> SomeRuns(t))
    decreases |actions|
  {
    hide Step, Local, Runs;
    if actions == [] {
      RunnerIsRunning(s);
    } else {
      var next := Step(s, actions[0]).value;
      StepKeeps(s, actions[0]);
      if next.running {
        StepRuns(s, actions[0]);
      }
      RunningMeansRuns(next, actions[1..]);
    }
  }

  lemma RunnerIsRunning(s: State)
    requires Inv(s)
    ensures SomeRuns(s) ==> s.running
  {
    if SomeRuns(s) {
      var k :| 0 <= k < |s.workers| && Runs(s.workers[k]);
      assert Local(s, k);
    }
  }

  /** In every reachable state running is set if and only if some thread is between setting and clearing it. */
  lemma RunningExactly(n: nat, actions: seq<Action>)
    requires Run(Init(n), actions).Some?
    ensures var t := Run(Init(n), actions).value; t.running <==> SomeRuns(t)
  {
    InitHolds(n);
    RunningMeansRuns(Init(n), actions);
  }

  // ----- who gets the thread -----

  /** Another call has created a thread. */
  predicate HasRival(s: State, i: nat) {
    exists k :: 0 <= k < |s.workers| && k != i && !s.workers[k].Absent?
  }

  lemma StepRival(s: State, a: Action, i: nat)
    requires Inv(s) && (s.running ==> SomeRuns(s)) && i < |s.callers| && Step(s, a).Some?
    requires (Tells(s, i, FoundRunning) && HasRival(s, i)) || Makes(s, a, i, FoundRunning)
    ensures HasRival(Step(s, a).value, i)
  {
    hide CallStep, WorkStep, Locks;
    assert Local(s, i);
    var k: nat;
    if Makes(s, a, i, FoundRunning) {
      k :| k < |s.workers| && Runs(s.workers[k]);
    } else {
      k :| k < |s.workers| && k != i && !s.workers[k].Absent?;
    }
    StepTells(s, a, k, ThreadCreated);
    assert !Step(s, a).value.workers[k].Absent?;
  }

  lemma {:induction false} RefusedHasRival(s: State, actions: seq<Action>, i: nat)
    requires Inv(s) && (s.running ==> SomeRuns(s)) && i < |s.callers| && Run(s, actions).Some?
    requires Tells(s, i, FoundRunning) ==> HasRival(s, i)
    ensures var t := Run(s, actions).value; |t.callers| == |s.callers| && (Tells(t, i, FoundRunning) ==> HasRival(t, i))
    decreases |actions|
  {
    hide Step, Tells, Makes, HasRival, Local, SomeRuns;
    if actions != [] {
      var a, next := actions[0], Step(s, actions[0]).value;
      StepKeeps(s, a);
      StepTells(s, a, i, FoundRunning);
      if next.running {
        StepRuns(s, a);
      }
      if Tells(next, i, FoundRunning) {
        StepRival(s, a, i);
      }
      RefusedHasRival(next, actions[1..], i);
    }
  }

  /** A call is refused only where another call has created a thread. */
  lemma RefusedForAnother(n: nat, actions: seq<Action>, i: nat)
    requires Run(Init(n), actions).Some? && i < n
    ensures var t := Run(Init(n), actions).value;
            |t.callers| == n && (t.callers[i] == Returned(AlreadyRunning) ==> HasRival(t, i))
  {
    hide Run, HasRival;
    InitHolds(n);
    RefusedHasRival(Init(n), actions, i);
  }

  // ----- where every run ends -----

  /** Nothing is left but polling, and that leads nowhere else. */
  ghost predicate Stuck(s: State)
    requires Shaped(s)
  {
    !CanAdvance(s, 2)
  }

  lemma StuckIsDone(n: nat, actions: seq<Action>, i: nat)
    requires Run(Init(n), actions).Some? && i < n && Stuck(Run(Init(n), actions).value)
    ensures var t := Run(Init(n), actions).value;
            |t.callers| == n && t.callers[i].Returned? && (t.workers[i].Absent? || t.workers[i].Exited?)
            && Matched(t.callers[i], t.workers[i])
  {
    hide Local, CanAdvance;
    var t := Run(Init(n), actions).value;
    OutcomeTold(n, actions, i, CreateFailed);
    assert Reachable(n, t);
    if Unfinished(t, i) {
      NoDeadlock(n, t, i);
    }
    ReachableKeeps(n, t);
    assert Local(t, i);
    IsMatched(t, i);
  }

  lemma IsMatched(s: State, i: nat)
    requires Shaped(s) && i < |s.callers| && Local(s, i)
    ensures Matched(s.callers[i], s.workers[i])
  {
    hide Locks, Matched;
  }

  /** A run of any number of calls that has nowhere left to go, with pthread_create working, has every call back:
      with success where its thread was created, went through Thread() and ended, and refused where another one's
      was. */
  lemma EveryCallServed(n: nat, actions: seq<Action>, i: nat)
    requires Run(Init(n), actions).Some? && i < n && CreateWorks(actions) && Stuck(Run(Init(n), actions).value)
    ensures var t := Run(Init(n), actions).value;
            && |t.callers| == n
            && (t.callers[i] == Returned(Success) || t.callers[i] == Returned(AlreadyRunning))
            && (t.callers[i] == Returned(Success) <==> Made(Init(n), actions, i, ThreadCreated))
            && (t.callers[i] == Returned(Success) ==> t.workers[i].Exited? && Made(Init(n), actions, i, SaidStarted))
            && (t.callers[i] == Returned(AlreadyRunning) ==> HasRival(t, i) && Made(Init(n), actions, i, FoundRunning))
  {
    hide Run, Made, HasRival, CreateWorks, Stuck;
    StuckIsDone(n, actions, i);
    NeverFails(n, actions, i);
    RefusedForAnother(n, actions, i);
    OutcomeTold(n, actions, i, ThreadCreated);
    OutcomeTold(n, actions, i, SaidStarted);
    OutcomeTold(n, actions, i, FoundRunning);
  }

  /** So some call always succeeds, and one that is alone does: its thread has been created, has gone through
      Thread() and has ended. */
  lemma SomeoneStarts(n: nat, actions: seq<Action>) returns (i: nat)
    requires Run(Init(n), actions).Some? && n > 0 && CreateWorks(actions) && Stuck(Run(Init(n), actions).value)
    ensures var t := Run(Init(n), actions).value;
            && i < n == |t.callers| && t.callers[i] == Returned(Success) && t.workers[i] == Exited
            && Made(Init(n), actions, i, SaidStarted)
  {
    hide Run, Made, CreateWorks, Stuck;
    var t := Run(Init(n), actions).value;
    i := 0;
    EveryCallServed(n, actions, i);
    if t.callers[i] == Returned(AlreadyRunning) {
      i :| i < |t.workers| && i != 0 && !t.workers[i].Absent?;
      StuckIsDone(n, actions, i);
      EveryCallServed(n, actions, i);
    }
  }

  lemma AloneStarts(actions: seq<Action>)
    requires Run(Init(1), actions).Some? && CreateWorks(actions) && Stuck(Run(Init(1), actions).value)
    ensures var t := Run(Init(1), actions).value; t.callers == [Returned(Success)] && t.workers == [Exited]
  {
    hide Run, Made, CreateWorks, Stuck;
    var i := SomeoneStarts(1, actions);
  }

  // ----- every run can be brought to such an end -----

  lemma {:induction false} RunOn(s: State, a: seq<Action>, b: seq<Action>)
    requires Shaped(s) && Run(s, a).Some?
    ensures Run(s, a + b) == Run(Run(s, a).value, b)
    decreases |a|
  {
    hide Step;
    if a == [] {
      assert a + b == b;
    } else {
      assert (a + b)[0] == a[0] && (a + b)[1..] == a[1..] + b;
      RunOn(Step(s, a[0]).value, a[1..], b);
    }
  }

  /** The same step with pthread_create working. */
  function Working(a: Action): Action {
    if a.Call? then Call(a.i, true) else a
  }

  lemma WorkingAdvances(s: State, a: Action)
    requires Shaped(s)
    ensures Advances(s, a) ==> Advances(s, Working(a))
    ensures Step(s, a).Some? && Polls(s, a) ==> Step(s, Working(a)) == Step(s, a)
  {
  }

  lemma {:induction false} MoveOn(s: State, fuel: nat) returns (more: seq<Action>)
    requires Inv(s) && CanAdvance(s, fuel)
    ensures CreateWorks(more) && Run(s, more).Some?
    ensures var t := Run(s, more).value; Inv(t) && |t.callers| == |s.callers| && Stage(t) > Stage(s)
    decreases fuel
  {
    hide Step, Polls, Stage, Local;
    var a: Action;
    if b :| Advances(s, b) {
      a := Working(b);
      WorkingAdvances(s, b);
      more := [];
    } else {
      a :| Step(s, a).Some? && Polls(s, a) && CanAdvance(Step(s, a).value, fuel - 1);
      WorkingAdvances(s, a);
      a := Working(a);
      StepKeeps(s, a);
      more := MoveOn(Step(s, a).value, fuel - 1);
    }
    StepKeeps(s, a);
    StepClimbs(s, a);
    assert ([a] + more)[1..] == more;
    more := [a] + more;
  }

  lemma {:induction false} GoOnToTheEnd(s: State) returns (more: seq<Action>)
    requires Inv(s)
    ensures CreateWorks(more) && Run(s, more).Some? && Stuck(Run(s, more).value)
    decreases 20 * |s.callers| - Stage(s)
  {
    hide Step, Stage, Local, CanAdvance;
    if Stuck(s) {
      more := [];
    } else {
      var first := MoveOn(s, 2);
      var rest := GoOnToTheEnd(Run(s, first).value);
      RunOn(s, first, rest);
      more := first + rest;
    }
  }

  /** Wherever a run of any number of calls has got to with pthread_create working, it can go on to an end where
      every call is back, and some of them with success. */
  lemma EveryRunCanEnd(n: nat, actions: seq<Action>) returns (more: seq<Action>)
    requires n > 0 && Run(Init(n), actions).Some? && CreateWorks(actions)
    ensures CreateWorks(actions + more) && Run(Init(n), actions + more).Some?
    ensures var t := Run(Init(n), actions + more).value;
            && |t.callers| == n && (forall i :: 0 <= i < n ==> t.callers[i].Returned?)
            && (exists i :: 0 <= i < n && t.callers[i] == Returned(Success))
  {
    hide Step, Stage, Local, CanAdvance, Inv;
    InitHolds(n);
    RunKeeps(Init(n), actions);
    more := GoOnToTheEnd(Run(Init(n), actions).value);
    RunOn(Init(n), actions, more);
    var first := SomeoneStarts(n, actions + more);
    forall i | 0 <= i < n ensures Run(Init(n), actions + more).value.callers[i].Returned? {
      StuckIsDone(n, actions + more, i);
    }
  }

  /** At most one thread is ever in its Thread(), before or after its call of ThreadStarted. */
  lemma OneInThread(n: nat, s: State, i: nat, j: nat)
    requires Reachable(n, s) && i < |s.workers| && j < |s.workers|
    requires (s.workers[i].Body? || s.workers[i].Announced?) && (s.workers[j].Body? || s.workers[j].Announced?)
    ensures i == j && s.running
  {
    hide Matched, Locks;
    ReachableKeeps(n, s);
    assert Local(s, i);
  }
}
