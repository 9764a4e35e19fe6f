/** The start handshake of jthread.cpp as interleaved steps over its three mutexes: any number of Start calls
    and the threads they create. Locking, unlocking and each access to running is a step of its own. The
    mutexes are initialised beforehand, Kill is not called, and Thread() calls ThreadStarted once. */
module JThread {
  import opened Bytes

  datatype Status = Success | AlreadyRunning | CantStartThread

  /** Where a call of Start is; next to each, the mutexes it holds there. */
  datatype Caller =
    | Idle
    | Begin                      // continuemutex
    | Check                      // continuemutex, runningmutex
    | Refuse                     // continuemutex, runningmutex
    | Refused                    // continuemutex
    | Clear                      // continuemutex, runningmutex
    | Create                     // continuemutex
    | Failed                     // continuemutex
    | Poll                       // continuemutex
    | Look                       // continuemutex, runningmutex
    | Sleep                      // continuemutex, runningmutex
    | Seen                       // continuemutex, runningmutex
    | Release                    // continuemutex
    | Await
    | Passed                     // continuemutex2
    | Returned(status: Status)

  /** Where the thread created by a call is. */
  datatype Worker =
    | Absent
    | Created
    | Entered                    // continuemutex2
    | Mark                       // continuemutex2, runningmutex
    | Marked                     // continuemutex2, runningmutex
    | Ready                      // continuemutex2
    | Cleared                    // continuemutex2, continuemutex
    | Body                       // continuemutex2; in Thread(), before ThreadStarted
    | Announced                  // in Thread(), after ThreadStarted
    | Finish                     // runningmutex
    | Finished                   // runningmutex
    | Exited

  datatype Owner = Free | ByCaller(i: nat) | ByWorker(i: nat)

  datatype State = State(
    continuemutex: Owner,
    runningmutex: Owner,
    continuemutex2: Owner,
    running: bool,
    callers: seq<Caller>,
    workers: seq<Worker>
  )

  /** A step of a call of Start, or of the thread it created; created is the outcome of pthread_create. */
  datatype Action = Call(i: nat, created: bool) | Work(i: nat)

  function Init(n: nat): State {
    State(Free, Free, Free, false, seq(n, i => Idle), seq(n, i => Absent))
  }

  predicate Shaped(s: State) {
    |s.callers| == |s.workers|
  }

  function CallStep(s: State, i: nat, created: bool): (r: Option<State>)
    requires Shaped(s)
    ensures r.Some? ==> Shaped(r.value) && i < |s.callers| == |r.value.callers|
  {
    if i >= |s.callers| then None else
    match s.callers[i]
    case Idle =>
      if s.continuemutex.Free? then Some(s.(continuemutex := ByCaller(i), callers := s.callers[i := Begin])) else None
    case Begin =>
      if s.runningmutex.Free? then Some(s.(runningmutex := ByCaller(i), callers := s.callers[i := Check])) else None
    case Check =>
      Some(s.(callers := s.callers[i := if s.running then Refuse else Clear]))
    case Refuse =>
      Some(s.(runningmutex := Free, callers := s.callers[i := Refused]))
    case Refused =>
      Some(s.(continuemutex := Free, callers := s.callers[i := Returned(AlreadyRunning)]))
    case Clear =>
      Some(s.(runningmutex := Free, callers := s.callers[i := Create]))
    case Create =>
      if created then Some(s.(callers := s.callers[i := Poll], workers := s.workers[i := Created]))
      else Some(s.(callers := s.callers[i := Failed]))
    case Failed =>
      Some(s.(continuemutex := Free, callers := s.callers[i := Returned(CantStartThread)]))
    case Poll =>
      if s.runningmutex.Free? then Some(s.(runningmutex := ByCaller(i), callers := s.callers[i := Look])) else None
    case Look =>
      Some(s.(callers := s.callers[i := if s.running then Seen else Sleep]))
    case Sleep =>
      Some(s.(runningmutex := Free, callers := s.callers[i := Poll]))
    case Seen =>
      Some(s.(runningmutex := Free, callers := s.callers[i := Release]))
    case Release =>
      Some(s.(continuemutex := Free, callers := s.callers[i := Await]))
    case Await =>
      if s.continuemutex2.Free? then Some(s.(continuemutex2 := ByCaller(i), callers := s.callers[i := Passed]))
      else None
    case Passed =>
      Some(s.(continuemutex2 := Free, callers := s.callers[i := Returned(Success)]))
    case Returned(_) => None
  }

  function WorkStep(s: State, i: nat): (r: Option<State>)
    requires Shaped(s)
    ensures r.Some? ==> Shaped(r.value) && i < |s.callers| == |r.value.callers|
  {
    if i >= |s.workers| then None else
    match s.workers[i]
    case Absent => None
    case Created =>
      if s.continuemutex2.Free? then Some(s.(continuemutex2 := ByWorker(i), workers := s.workers[i := Entered]))
      else None
    case Entered =>
      if s.runningmutex.Free? then Some(s.(runningmutex := ByWorker(i), workers := s.workers[i := Mark])) else None
    case Mark =>
      Some(s.(running := true, workers := s.workers[i := Marked]))
    case Marked =>
      Some(s.(runningmutex := Free, workers := s.workers[i := Ready]))
    case Ready =>
      if s.continuemutex.Free? then Some(s.(continuemutex := ByWorker(i), workers := s.workers[i := Cleared])) else None
    case Cleared =>
      Some(s.(continuemutex := Free, workers := s.workers[i := Body]))
    case Body =>
      Some(s.(continuemutex2 := Free, workers := s.workers[i := Announced]))
    case Announced =>
      if s.runningmutex.Free? then Some(s.(runningmutex := ByWorker(i), workers := s.workers[i := Finish])) else None
    case Finish =>
      Some(s.(running := false, workers := s.workers[i := Finished]))
    case Finished =>
      Some(s.(runningmutex := Free, workers := s.workers[i := Exited]))
    case Exited => None
  }

  function Step(s: State, a: Action): (r: Option<State>)
    requires Shaped(s)
    ensures r.Some? ==> Shaped(r.value) && a.i < |s.callers| == |r.value.callers|
  {
    match a
    case Call(i, created) => CallStep(s, i, created)
    case Work(i) => WorkStep(s, i)
  }

  function Run(s: State, actions: seq<Action>): (r: Option<State>)
    requires Shaped(s)
    ensures r.Some? ==> Shaped(r.value)
    decreases |actions|
  {
    if actions == [] then Some(s)
    else
      var next := Step(s, actions[0]);
      if next.None? then None else Run(next.value, actions[1..])
  }

  // ----- the invariant -----

  predicate HoldsContinue(c: Caller) {
    !c.Idle? && !c.Await? && !c.Passed? && !c.Returned?
  }

  predicate HoldsRunning(c: Caller) {
    c.Check? || c.Refuse? || c.Clear? || c.Look? || c.Sleep? || c.Seen?
  }

  predicate WorkerHoldsRunning(w: Worker) {
    w.Mark? || w.Marked? || w.Finish? || w.Finished?
  }

  predicate WorkerHoldsContinue2(w: Worker) {
    w.Entered? || w.Mark? || w.Marked? || w.Ready? || w.Cleared? || w.Body?
  }

  /** Created and not yet seen to run. */
  predicate Starting(w: Worker) {
    w.Created? || w.Entered? || w.Mark?
  }

  /** Between its two assignments to running. */
  predicate Runs(w: Worker) {
    w.Marked? || w.Ready? || w.Cleared? || w.Body? || w.Announced? || w.Finish?
  }

  predicate Active(w: Worker) {
    Starting(w) || Runs(w)
  }

  /** Found no thread running and has not created its own yet. */
  predicate Vacant(c: Caller) {
    c.Clear? || c.Create?
  }

  predicate HasAnnounced(w: Worker) {
    w.Announced? || w.Finish? || w.Finished? || w.Exited?
  }

  /** How far a call and its own thread can be apart. */
  predicate Matched(c: Caller, w: Worker) {
    match c
    case Poll => Starting(w) || w.Marked? || w.Ready?
    case Look => Starting(w) || w.Ready?
    case Sleep => Starting(w)
    case Seen => w.Ready?
    case Release => w.Ready?
    case Await => !w.Absent? && !Starting(w) && !w.Marked?
    case Passed => HasAnnounced(w)
    case Returned(status) => if status.Success? then HasAnnounced(w) else w.Absent?
    case _ => w.Absent?
  }

  /** What one call and its thread owe the mutexes. */
  predicate Locks(s: State, i: nat)
    requires Shaped(s) && i < |s.callers|
  {
    var c, w := s.callers[i], s.workers[i];
    && (HoldsContinue(c) <==> s.continuemutex == ByCaller(i))
    && (w.Cleared? <==> s.continuemutex == ByWorker(i))
    && (HoldsRunning(c) <==> s.runningmutex == ByCaller(i))
    && (WorkerHoldsRunning(w) <==> s.runningmutex == ByWorker(i))
    && (c.Passed? <==> s.continuemutex2 == ByCaller(i))
    && (WorkerHoldsContinue2(w) <==> s.continuemutex2 == ByWorker(i))
  }

  predicate Local(s: State, i: nat)
    requires Shaped(s) && i < |s.callers|
  {
    var c, w := s.callers[i], s.workers[i];
    && Locks(s, i)
    && Matched(c, w)
    && (Runs(w) ==> s.running)
    && (Starting(w) || Vacant(c) ==> !s.running)
    && (c.Refuse? || c.Seen? ==> s.running)
    && (c.Sleep? ==> !s.running)
  }

  predicate Known(o: Owner, n: nat) {
    o.Free? || o.i < n
  }

  predicate Inv(s: State) {
    && Shaped(s)
    && (forall i :: 0 <= i < |s.callers| ==> Local(s, i))
    && (forall i, j ::
          0 <= i < |s.workers| && 0 <= j < |s.workers| && Active(s.workers[i]) && Active(s.workers[j]) ==> i == j)
    && (forall i, j :: 0 <= i < |s.callers| && 0 <= j < |s.workers| && Vacant(s.callers[i]) ==> !Active(s.workers[j]))
    && OwnersKnown(s)
  }

  lemma InitHolds(n: nat)
    ensures Inv(Init(n))
  {
  }

  lemma CallSelfLocks(s: State, i: nat, created: bool)
    requires Shaped(s) && i < |s.callers| && Matched(s.callers[i], s.workers[i]) && Locks(s, i)
    requires CallStep(s, i, created).Some?
    ensures Locks(CallStep(s, i, created).value, i)
  {
  }

  lemma CallSelf(s: State, i: nat, created: bool)
    requires Shaped(s) && i < |s.callers| && Local(s, i) && CallStep(s, i, created).Some?
    ensures Local(CallStep(s, i, created).value, i)
  {
    CallSelfLocks(s, i, created);
    hide HoldsContinue, HoldsRunning;
  }

  lemma CallOther(s: State, i: nat, created: bool, j: nat)
    requires Shaped(s) && i < |s.callers| && j < |s.callers| && i != j && Local(s, i) && Local(s, j)
    requires CallStep(s, i, created).Some?
    ensures Local(CallStep(s, i, created).value, j)
  {
    hide Matched, WorkerHoldsRunning, WorkerHoldsContinue2, Runs;
  }

  /** A call that finds no thread running while it holds continuemutex finds no thread starting either. */
  lemma VacantFound(s: State, i: nat, j: nat)
    requires Inv(s) && i < |s.callers| && j < |s.callers| && s.callers[i].Check? && !s.running
    ensures !Active(s.workers[j])
  {
    assert Local(s, i) && Local(s, j);
  }

  lemma CallShape(s: State, i: nat, created: bool)
    requires Shaped(s) && CallStep(s, i, created).Some?
    ensures var t, c := CallStep(s, i, created).value, s.callers[i];
            && t.callers == s.callers[i := t.callers[i]]
            && t.workers == (if c.Create? && created then s.workers[i := Created] else s.workers)
            && (Vacant(t.callers[i]) ==> c.Clear? || (c.Check? && !s.running))
  {
  }

  predicate OwnersKnown(s: State) {
    Known(s.continuemutex, |s.callers|) && Known(s.runningmutex, |s.callers|) && Known(s.continuemutex2, |s.callers|)
  }

  lemma CallKnown(s: State, i: nat, created: bool)
    requires Shaped(s) && CallStep(s, i, created).Some? && OwnersKnown(s)
    ensures OwnersKnown(CallStep(s, i, created).value)
  {
  }

  lemma CallExclusive(s: State, i: nat, created: bool, j: nat, k: nat)
    requires Inv(s) && CallStep(s, i, created).Some? && j < |s.callers| && k < |s.callers|
    requires Vacant(CallStep(s, i, created).value.callers[j])
    requires HoldsContinue(s.callers[i]) && HoldsContinue(s.callers[j]) ==> i == j
    ensures !Active(CallStep(s, i, created).value.workers[k])
  {
    hide Local, CallStep;
    CallShape(s, i, created);
    if s.callers[i].Check? && !s.running {
      VacantFound(s, i, k);
    }
  }

  lemma CallKeeps(s: State, i: nat, created: bool)
    requires Inv(s) && CallStep(s, i, created).Some?
    ensures Inv(CallStep(s, i, created).value)
  {
    hide Local, CallStep, Active, Vacant, HoldsContinue;
    CallShape(s, i, created);
    CallKnown(s, i, created);
    var t := CallStep(s, i, created).value;
    forall j | 0 <= j < |s.callers| ensures Local(t, j) {
      if i == j {
        CallSelf(s, i, created);
      } else {
        CallOther(s, i, created, j);
      }
    }
    forall j, k | 0 <= j < |t.callers| && 0 <= k < |t.workers| && Vacant(t.callers[j])
      ensures !Active(t.workers[k])
    {
      if HoldsContinue(s.callers[i]) && HoldsContinue(s.callers[j]) {
        OneHolder(s, i, j);
      }
      CallExclusive(s, i, created, j, k);
    }
    forall j, k | 0 <= j < |t.workers| && 0 <= k < |t.workers| && Active(t.workers[j]) && Active(t.workers[k])
      ensures j == k
    {
      if s.callers[i].Create? && created {
        AloneAfterCreate(s, i, j);
        AloneAfterCreate(s, i, k);
      }
    }
  }

  lemma AloneAfterCreate(s: State, i: nat, j: nat)
    requires Inv(s) && i < |s.callers| && j < |s.callers| && s.callers[i].Create?
    ensures Active(s.workers[i := Created][j]) ==> i == j
  {
    assert Vacant(s.callers[i]);
  }

  lemma OneHolder(s: State, i: nat, j: nat)
    requires Shaped(s) && i < |s.callers| && j < |s.callers| && Local(s, i) && Local(s, j)
    requires HoldsContinue(s.callers[i]) && HoldsContinue(s.callers[j])
    ensures i == j
  {
  }

  lemma WorkSelf(s: State, i: nat)
    requires Shaped(s) && i < |s.callers| && Local(s, i) && WorkStep(s, i).Some?
    ensures Local(WorkStep(s, i).value, i)
  {
  }

  lemma WorkOther(s: State, i: nat, j: nat)
    requires Shaped(s) && i < |s.callers| && j < |s.callers| && i != j && Local(s, i) && Local(s, j)
    requires WorkStep(s, i).Some? && !(Active(s.workers[i]) && Active(s.workers[j]))
    requires Vacant(s.callers[j]) ==> !Active(s.workers[i])
    ensures Local(WorkStep(s, i).value, j)
  {
    hide Matched, HoldsContinue;
  }

  lemma WorkKeeps(s: State, i: nat)
    requires Inv(s) && WorkStep(s, i).Some?
    ensures Inv(WorkStep(s, i).value)
  {
    hide Local;
    var t := WorkStep(s, i).value;
    forall j | 0 <= j < |s.callers| ensures Local(t, j) {
      if i == j {
        WorkSelf(s, i);
      } else {
        WorkOther(s, i, j);
      }
    }
  }

  lemma StepKeeps(s: State, a: Action)
    requires Inv(s) && Step(s, a).Some?
    ensures Inv(Step(s, a).value)
  {
    hide Inv;
    match a {
      case Call(i, created) => CallKeeps(s, i, created);
      case Work(i) => WorkKeeps(s, i);
    }
  }

  lemma {:induction false} RunKeeps(s: State, actions: seq<Action>)
    requires Inv(s) && Run(s, actions).Some?
    ensures Inv(Run(s, actions).value)
    decreases |actions|
  {
    hide Local, CallStep, WorkStep;
    if actions != [] {
      StepKeeps(s, actions[0]);
      RunKeeps(Step(s, actions[0]).value, actions[1..]);
    }
  }

  // ----- what every reachable state guarantees -----

  ghost predicate Reachable(n: nat, s: State) {
    exists actions :: Run(Init(n), actions) == Some(s)
  }

  lemma ReachableKeeps(n: nat, s: State)
    requires Reachable(n, s)
    ensures Inv(s)
  {
    var actions :| Run(Init(n), actions) == Some(s);
    InitHolds(n);
    RunKeeps(Init(n), actions);
  }

  /** At most one thread is starting or running, and so at most one is in its Thread(). */
  lemma OneBody(n: nat, s: State, i: nat, j: nat)
    requires Reachable(n, s) && i < |s.workers| && j < |s.workers|
    requires var v, w := s.workers[i], s.workers[j];
             (Active(v) && Active(w)) || ((v.Body? || v.Announced?) && (w.Body? || w.Announced?))
    ensures i == j
  {
    hide Local;
    ReachableKeeps(n, s);
  }

  /** Start returns 0 only after the thread it created has called ThreadStarted, returns an error only when it
      created none, and its polling cannot miss running: once the thread has set it, it stays set while the
      call polls. */
  lemma StartIsHonest(n: nat, s: State, i: nat)
    requires Reachable(n, s) && i < |s.callers|
    ensures s.callers[i] == Returned(Success) ==> HasAnnounced(s.workers[i])
    ensures s.callers[i].Returned? && !s.callers[i].status.Success? ==> s.workers[i].Absent?
    ensures (s.callers[i].Poll? || s.callers[i].Look?) && !Starting(s.workers[i]) ==> s.running
  {
    ReachableKeeps(n, s);
    assert Local(s, i);
  }

  // ----- progress -----

  /** The steps of a polling round: every other step takes its call or thread forward for good. */
  predicate Polls(s: State, a: Action)
    requires Shaped(s)
  {
    a.Call? && a.i < |s.callers|
    && (s.callers[a.i].Poll? || (s.callers[a.i].Look? && !s.running) || s.callers[a.i].Sleep?)
  }

  predicate Advances(s: State, a: Action)
    requires Shaped(s)
  {
    Step(s, a).Some? && !Polls(s, a)
  }

  /** Some step other than polling can be taken, after at most fuel polling steps. */
  ghost predicate CanAdvance(s: State, fuel: nat)
    requires Shaped(s)
    decreases fuel
  {
    || (exists a :: Advances(s, a))
    || (fuel > 0 && exists a :: Step(s, a).Some? && Polls(s, a) && CanAdvance(Step(s, a).value, fuel - 1))
  }

  predicate Unfinished(s: State, i: nat)
    requires Shaped(s) && i < |s.callers|
  {
    !s.callers[i].Returned? || (!s.workers[i].Absent? && !s.workers[i].Exited?)
  }

  /** A thread that has not set running yet is held up by nobody but a call about to unlock continuemutex2. */
  lemma StarterAdvances(s: State, k: nat) returns (a: Action)
    requires Inv(s) && s.runningmutex.Free? && k < |s.workers| && Starting(s.workers[k])
    ensures Advances(s, a)
  {
    hide Local;
    LocalFacts(s, k);
    a := Work(k);
    if s.workers[k].Created? && !s.continuemutex2.Free? {
      var o := s.continuemutex2;
      LocalFacts(s, o.i);
      a := Call(o.i, false);
    }
  }

  /** Local, read for whoever holds a mutex. */
  lemma LocalFacts(s: State, i: nat)
    requires Shaped(s) && i < |s.callers| && Local(s, i)
    ensures s.continuemutex == ByCaller(i) <==> HoldsContinue(s.callers[i])
    ensures s.continuemutex == ByWorker(i) <==> s.workers[i].Cleared?
    ensures s.runningmutex == ByCaller(i) <==> HoldsRunning(s.callers[i])
    ensures s.runningmutex == ByWorker(i) <==> WorkerHoldsRunning(s.workers[i])
    ensures s.continuemutex2 == ByCaller(i) <==> s.callers[i].Passed?
    ensures s.continuemutex2 == ByWorker(i) <==> WorkerHoldsContinue2(s.workers[i])
    ensures s.callers[i].Poll? && !s.running ==> Starting(s.workers[i]) || s.workers[i].Marked?
    ensures s.callers[i].Sleep? ==> Starting(s.workers[i])
    ensures s.callers[i].Look? && !s.running ==> Starting(s.workers[i])
  {
  }

  lemma RunningHolder(s: State)
    requires Inv(s) && !s.runningmutex.Free?
    ensures CanAdvance(s, 2)
  {
    hide Local;
    var k := s.runningmutex.i;
    LocalFacts(s, k);
    if s.runningmutex.ByWorker? {
      assert Advances(s, Work(k));
    } else if s.callers[k].Look? && !s.running {
      SleepAdvances(Step(s, Call(k, false)).value, k, s);
      assert Polls(s, Call(k, false));
    } else if s.callers[k].Sleep? {
      SleepAdvances(s, k, s);
      More(s, 1);
    } else {
      assert Advances(s, Call(k, false));
    }
  }

  lemma More(s: State, fuel: nat)
    requires Shaped(s) && CanAdvance(s, fuel)
    ensures CanAdvance(s, fuel + 1)
    decreases fuel
  {
    if fuel > 0 && !exists a :: Advances(s, a) {
      var a :| Step(s, a).Some? && Polls(s, a) && CanAdvance(Step(s, a).value, fuel - 1);
      More(Step(s, a).value, fuel - 1);
    }
  }

  lemma SleepAdvances(s: State, k: nat, was: State)
    requires Inv(was) && k < |was.callers| && Shaped(s)
    requires s == was || Step(was, Call(k, false)) == Some(s)
    requires k < |s.callers| && s.callers[k].Sleep?
    ensures CanAdvance(s, 1)
  {
    if s != was {
      StepKeeps(was, Call(k, false));
    }
    hide Local;
    var t := Step(s, Call(k, false)).value;
    StepKeeps(s, Call(k, false));
    LocalFacts(s, k);
    var a := StarterAdvances(t, k);
    assert Advances(t, a);
    assert Polls(s, Call(k, false));
  }

  lemma ContinueHolder(s: State)
    requires Inv(s) && s.runningmutex.Free? && !s.continuemutex.Free?
    ensures CanAdvance(s, 1)
  {
    hide Local;
    var k := s.continuemutex.i;
    LocalFacts(s, k);
    if s.continuemutex.ByWorker? {
      assert Advances(s, Work(k));
    } else if s.callers[k].Poll? {
      if s.running {
        var t := Step(s, Call(k, false)).value;
        assert Advances(t, Call(k, false));
        assert Polls(s, Call(k, false));
      } else {
        var a := StarterAdvances(s, k);
        assert Advances(s, a);
      }
    } else {
      assert Advances(s, Call(k, false));
    }
  }

  /** With the other two mutexes free, whoever holds continuemutex2 moves on. */
  lemma Continue2Holder(s: State)
    requires Inv(s) && s.runningmutex.Free? && s.continuemutex.Free? && !s.continuemutex2.Free?
    ensures CanAdvance(s, 0)
  {
    hide Local;
    var k := s.continuemutex2.i;
    LocalFacts(s, k);
    if s.continuemutex2.ByWorker? {
      assert Advances(s, Work(k));
    } else {
      assert Advances(s, Call(k, false));
    }
  }

  /** No reachable state with an unfinished call or thread is deadlocked: within two polling steps something
      other than polling can happen. */
  lemma NoDeadlock(n: nat, s: State, i: nat)
    requires Reachable(n, s) && i < |s.callers| && Unfinished(s, i)
    ensures CanAdvance(s, 2)
  {
    hide Local;
    ReachableKeeps(n, s);
    if !s.runningmutex.Free? {
      RunningHolder(s);
    } else if !s.continuemutex.Free? {
      ContinueHolder(s);
      More(s, 1);
    } else if !s.continuemutex2.Free? {
      Continue2Holder(s);
      More(s, 0);
      More(s, 1);
    } else {
      LocalFacts(s, i);
      if s.callers[i].Returned? {
        assert Advances(s, Work(i));
      } else {
        assert Advances(s, Call(i, false));
      }
    }
  }

  // ----- every run ends, but for polling -----

  function CallerStage(c: Caller): (k: nat)
    ensures k <= 10
  {
    match c
    case Idle => 0
    case Begin => 1
    case Check => 2
    case Refuse => 3
    case Refused => 4
    case Clear => 3
    case Create => 4
    case Failed => 5
    case Poll => 5
    case Look => 5
    case Sleep => 5
    case Seen => 6
    case Release => 7
    case Await => 8
    case Passed => 9
    case Returned(_) => 10
  }

  function WorkerStage(w: Worker): (k: nat)
    ensures k <= 10
  {
    match w
    case Absent => 0
    case Created => 0
    case Entered => 1
    case Mark => 2
    case Marked => 3
    case Ready => 4
    case Cleared => 5
    case Body => 6
    case Announced => 7
    case Finish => 8
    case Finished => 9
    case Exited => 10
  }

  function Stages(callers: seq<Caller>, workers: seq<Worker>): (k: nat)
    requires |callers| == |workers|
    ensures k <= 20 * |callers|
  {
    if callers == [] then 0
    else CallerStage(callers[0]) + WorkerStage(workers[0]) + Stages(callers[1..], workers[1..])
  }

  lemma {:induction false} StagesUpdate(callers: seq<Caller>, workers: seq<Worker>, i: nat, c: Caller, w: Worker)
    requires |callers| == |workers| && i < |callers|
    ensures Stages(callers[i := c], workers[i := w]) + CallerStage(callers[i]) + WorkerStage(workers[i])
            == Stages(callers, workers) + CallerStage(c) + WorkerStage(w)
    decreases |callers|
  {
    if i == 0 {
      assert callers[0 := c][1..] == callers[1..] && workers[0 := w][1..] == workers[1..];
    } else {
      StagesUpdate(callers[1..], workers[1..], i - 1, c, w);
      assert callers[i := c][1..] == callers[1..][i - 1 := c] && workers[i := w][1..] == workers[1..][i - 1 := w];
    }
  }

  function Stage(s: State): (k: nat)
    requires Shaped(s)
    ensures k <= 20 * |s.callers|
  {
    Stages(s.callers, s.workers)
  }

  lemma CallClimbs(s: State, i: nat, created: bool)
    requires Inv(s) && CallStep(s, i, created).Some?
    ensures var t := CallStep(s, i, created).value;
            t.callers == s.callers[i := t.callers[i]] && t.workers == s.workers[i := t.workers[i]]
            && CallerStage(t.callers[i]) + WorkerStage(t.workers[i])
               >= CallerStage(s.callers[i]) + WorkerStage(s.workers[i])
               + if Polls(s, Call(i, created)) then 0 else 1
  {
    hide Locks;
    assert Local(s, i);
  }

  lemma WorkClimbs(s: State, i: nat)
    requires Shaped(s) && WorkStep(s, i).Some?
    ensures var t := WorkStep(s, i).value;
            t.callers == s.callers == s.callers[i := t.callers[i]] && t.workers == s.workers[i := t.workers[i]]
            && WorkerStage(t.workers[i]) >= WorkerStage(s.workers[i]) + 1
  {
  }

  lemma StepClimbs(s: State, a: Action)
    requires Inv(s) && Step(s, a).Some?
    ensures Stage(Step(s, a).value) >= Stage(s) + if Polls(s, a) then 0 else 1
  {
    hide CallStep, WorkStep, Stages, Local;
    var t := Step(s, a).value;
    match a {
      case Call(i, created) => CallClimbs(s, i, created);
      case Work(i) => WorkClimbs(s, i);
    }
    StagesUpdate(s.callers, s.workers, a.i, t.callers[a.i], t.workers[a.i]);
  }

  /** The steps of a run that are not polling. */
  function Forward(s: State, actions: seq<Action>): nat
    requires Shaped(s)
    decreases |actions|
  {
    if actions == [] || Step(s, actions[0]).None? then 0
    else (if Polls(s, actions[0]) then 0 else 1) + Forward(Step(s, actions[0]).value, actions[1..])
  }

  /** However long a run of n calls is, at most 20 n of its steps are anything but polling. */
  lemma {:induction false} ForwardBounded(s: State, actions: seq<Action>)
    requires Inv(s)
    ensures Forward(s, actions) + Stage(s) <= 20 * |s.callers|
    decreases |actions|
  {
    hide Step, Stage, Polls, Local;
    if actions != [] && Step(s, actions[0]).Some? {
      StepKeeps(s, actions[0]);
      StepClimbs(s, actions[0]);
      ForwardBounded(Step(s, actions[0]).value, actions[1..]);
    }
  }
}
