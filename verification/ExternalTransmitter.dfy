/** Waiting for and injecting packets in rtpexternaltransmitter.cpp, as interleaved steps of any number of
    calls over the two mutexes, the packet list, the abort count and the bytes in the abort pipe. The
    transmitter stays created, and the pipe takes every byte written to it. */
module ExternalTransmitter {
  import opened Bytes

  type Packet = seq<Byte>

  datatype Result = AlreadyWaiting | NotWaiting | SelectError | Data(available: bool) | Injected | Aborted
                    | Packet(p: Option<Packet>)

  /** Where a call is, with the mutexes it holds there. */
  datatype Call =
    // WaitForIncomingData
    | Wait
    | WaitCheck                    // main
    | WaitList                     // main; waitingfordata set
    | WaitNow                      // main; packets were there already
    | WaitEnter                    // main; about to take the wait mutex
    | WaitLeave                    // main, wait
    | Select                       // wait
    | Selected(isset: bool)        // wait
    | Wake(isset: bool)            // main, wait
    | Clear                        // main, wait
    | Cleared                      // main, wait
    | Report                       // main, wait
    | Broken                       // wait; select failed
    | BrokenWake                   // main, wait
    | UnlockWait(result: Result)   // wait
    // InjectRTP, InjectRTCP
    | Inject(p: Packet)
    | InjectPush(p: Packet)        // main
    | InjectSignal                 // main
    | InjectCount                  // main
    // AbortWait
    | Abort
    | AbortCheck                   // main
    | AbortCount                   // main
    // GetNextPacket
    | Get
    | GetPop                       // main
    // all
    | UnlockMain(result: Result)   // main
    | Done(result: Result)

  datatype Owner = Free | By(i: nat)

  datatype State = State(
    mainmutex: Owner,
    waitmutex: Owner,
    waitingfordata: bool,
    rawpacketlist: seq<Packet>,
    abortCount: nat,
    pipe: nat,
    calls: seq<Call>,
    injected: seq<Packet>,
    taken: seq<Packet>
  )

  datatype Next = Blocked | To(state: State)

  predicate Fresh(c: Call) {
    c.Wait? || c.Inject? || c.Abort? || c.Get?
  }

  predicate Initial(s: State) {
    && s.mainmutex.Free? && s.waitmutex.Free? && !s.waitingfordata
    && s.rawpacketlist == [] && s.injected == [] && s.taken == [] && s.abortCount == 0 && s.pipe == 0
    && forall i :: 0 <= i < |s.calls| ==> Fresh(s.calls[i])
  }

  /** What select comes back with; it can only report the descriptor readable when the pipe holds a byte. */
  datatype Outcome = Readable | TimedOut | Failed

  function LockMain(s: State, i: nat, c: Call): Next
    requires i < |s.calls|
  {
    if s.mainmutex.Free? then To(s.(mainmutex := By(i), calls := s.calls[i := c])) else Blocked
  }

  function ReleaseMain(s: State, i: nat, c: Call): State
    requires i < |s.calls|
  {
    s.(mainmutex := Free, calls := s.calls[i := c])
  }

  function Goes(s: State, i: nat, c: Call): State
    requires i < |s.calls|
  {
    s.(calls := s.calls[i := c])
  }

  function WaitStep(s: State, i: nat, o: Outcome): Next
    requires i < |s.calls|
  {
    match s.calls[i]
    case Wait => LockMain(s, i, WaitCheck)
    case WaitCheck =>
      if s.waitingfordata then To(Goes(s, i, UnlockMain(AlreadyWaiting)))
      else To(Goes(s, i, WaitList).(waitingfordata := true))
    case WaitList =>
      To(Goes(s, i, if s.rawpacketlist != [] then WaitNow else WaitEnter))
    case WaitNow =>
      To(Goes(s, i, UnlockMain(Data(true))).(waitingfordata := false))
    case WaitEnter =>
      if s.waitmutex.Free? then To(Goes(s, i, WaitLeave).(waitmutex := By(i))) else Blocked
    case WaitLeave => To(ReleaseMain(s, i, Select))
    case Select =>
      if o.Failed? then To(Goes(s, i, Broken))
      else if o.TimedOut? then To(Goes(s, i, Selected(false)))
      else if s.pipe > 0 then To(Goes(s, i, Selected(true))) else Blocked
    case Selected(isset) => LockMain(s, i, Wake(isset))
    case Wake(isset) => To(Goes(s, i, if isset then Clear else Report).(waitingfordata := false))
    case Clear =>
      if s.pipe > 0 then To(s.(pipe := s.pipe - 1)) else To(Goes(s, i, Cleared))
    case Cleared => To(Goes(s, i, Report).(abortCount := 0))
    case Report => To(ReleaseMain(s, i, UnlockWait(Data(s.rawpacketlist != []))))
    case Broken => LockMain(s, i, BrokenWake)
    case BrokenWake => To(ReleaseMain(s, i, UnlockWait(SelectError)).(waitingfordata := false))
    case UnlockWait(result) => To(Goes(s, i, Done(result)).(waitmutex := Free))
    case _ => Blocked
  }

  function OtherStep(s: State, i: nat): Next
    requires i < |s.calls|
  {
    match s.calls[i]
    case Inject(p) => LockMain(s, i, InjectPush(p))
    case InjectPush(p) =>
      To(Goes(s, i, InjectSignal).(rawpacketlist := s.rawpacketlist + [p], injected := s.injected + [p]))
    case InjectSignal =>
      if s.abortCount == 0 then To(Goes(s, i, InjectCount).(pipe := s.pipe + 1))
      else To(Goes(s, i, UnlockMain(Injected)))
    case InjectCount => To(Goes(s, i, UnlockMain(Injected)).(abortCount := s.abortCount + 1))
    case Abort => LockMain(s, i, AbortCheck)
    case AbortCheck =>
      if !s.waitingfordata then To(Goes(s, i, UnlockMain(NotWaiting)))
      else To(Goes(s, i, AbortCount).(pipe := s.pipe + 1))
    case AbortCount => To(Goes(s, i, UnlockMain(Aborted)).(abortCount := s.abortCount + 1))
    case Get => LockMain(s, i, GetPop)
    case GetPop =>
      if s.rawpacketlist == [] then To(Goes(s, i, UnlockMain(Packet(None))))
      else To(Goes(s, i, UnlockMain(Packet(Some(s.rawpacketlist[0]))))
                .(rawpacketlist := s.rawpacketlist[1..], taken := s.taken + [s.rawpacketlist[0]]))
    case UnlockMain(result) => To(ReleaseMain(s, i, Done(result)))
    case _ => Blocked
  }

  datatype Action = Action(i: nat, outcome: Outcome)

  predicate OtherCall(c: Call) {
    c.Inject? || c.InjectPush? || c.InjectSignal? || c.InjectCount? || c.Abort? || c.AbortCheck? || c.AbortCount?
    || c.Get? || c.GetPop? || c.UnlockMain?
  }

  function Step(s: State, a: Action): Next {
    if a.i >= |s.calls| then Blocked
    else if OtherCall(s.calls[a.i]) then OtherStep(s, a.i)
    else WaitStep(s, a.i, a.outcome)
  }

  function Run(s: State, actions: seq<Action>): Next
    decreases |actions|
  {
    if actions == [] then To(s)
    else if Step(s, actions[0]).Blocked? then Blocked
    else Run(Step(s, actions[0]).state, actions[1..])
  }

  // ----- the invariant -----

  predicate HoldsMain(c: Call) {
    c.WaitCheck? || c.WaitList? || c.WaitNow? || c.WaitEnter? || c.WaitLeave? || c.Wake? || c.Clear? || c.Cleared?
    || c.Report? || c.BrokenWake? || c.InjectPush? || c.InjectSignal? || c.InjectCount? || c.AbortCheck?
    || c.AbortCount? || c.GetPop? || c.UnlockMain?
  }

  predicate HoldsWait(c: Call) {
    c.WaitLeave? || c.Select? || c.Selected? || c.Wake? || c.Clear? || c.Cleared? || c.Report? || c.Broken?
    || c.BrokenWake? || c.UnlockWait?
  }

  /** Has set waitingfordata and not reset it. */
  predicate Waits(c: Call) {
    c.WaitList? || c.WaitNow? || c.WaitEnter? || c.WaitLeave? || c.Select? || c.Selected? || c.Wake? || c.Broken?
    || c.BrokenWake?
  }

  /** Each call holds what its position says, and a waiting call is known to be one. */
  predicate Local(s: State, i: nat)
    requires i < |s.calls|
  {
    var c := s.calls[i];
    && (HoldsMain(c) <==> s.mainmutex == By(i))
    && (HoldsWait(c) <==> s.waitmutex == By(i))
    && (Waits(c) ==> s.waitingfordata)
    && (c.WaitEnter? || c.WaitLeave? ==> s.rawpacketlist == [])
  }

  /** Bytes in the pipe against the abort count, by what the holder of the main mutex is doing. */
  predicate Balanced(s: State) {
    if s.mainmutex.Free? || s.mainmutex.i >= |s.calls| then s.pipe == s.abortCount
    else
      var c := s.calls[s.mainmutex.i];
      if c.InjectCount? || c.AbortCount? then s.pipe == s.abortCount + 1
      else if c.Clear? then true
      else if c.Cleared? then s.pipe == 0
      else s.pipe == s.abortCount
  }

  /** A packet in the list is announced, or about to be by the call holding the main mutex. */
  predicate Announced(s: State) {
    || s.abortCount > 0
    || (s.mainmutex.By? && s.mainmutex.i < |s.calls|
        && (s.calls[s.mainmutex.i].InjectSignal? || s.calls[s.mainmutex.i].InjectCount?))
  }

  predicate InSelect(c: Call) {
    c.Select?
  }

  predicate Inv(s: State) {
    && (forall i :: 0 <= i < |s.calls| ==> Local(s, i))
    && (forall i, j :: 0 <= i < |s.calls| && 0 <= j < |s.calls| && Waits(s.calls[i]) && Waits(s.calls[j]) ==> i == j)
    && (s.mainmutex.By? ==> s.mainmutex.i < |s.calls|)
    && (s.waitmutex.By? ==> s.waitmutex.i < |s.calls|)
    && Balanced(s)
    && (forall i :: 0 <= i < |s.calls| && InSelect(s.calls[i]) && s.rawpacketlist != [] ==> Announced(s))
    && InOrder(s)
  }

  lemma InitialHolds(s: State)
    requires Initial(s)
    ensures Inv(s)
  {
    forall i | 0 <= i < |s.calls| ensures Local(s, i) && !Waits(s.calls[i]) && !InSelect(s.calls[i]) {
      assert Fresh(s.calls[i]);
    }
  }

  /** A step moves one call; a call that starts to wait finds nobody waiting, one that stops was the one. */
  ghost predicate Shape(s: State, t: State, i: nat)
    requires i < |s.calls|
  {
    && |t.calls| == |s.calls| && t.calls == s.calls[i := t.calls[i]]
    && (Waits(t.calls[i]) && !Waits(s.calls[i]) ==> !s.waitingfordata)
    && (s.waitingfordata && !t.waitingfordata ==> Waits(s.calls[i]))
  }

  ghost predicate Owners(s: State, t: State, i: nat) {
    && (t.mainmutex == s.mainmutex || t.mainmutex.Free? || t.mainmutex == By(i))
    && (t.waitmutex == s.waitmutex || t.waitmutex.Free? || t.waitmutex == By(i))
  }

  predicate InOrder(s: State) {
    s.injected == s.taken + s.rawpacketlist
  }

  lemma OtherInOrder(s: State, i: nat)
    requires i < |s.calls| && OtherStep(s, i).To? && InOrder(s)
    ensures InOrder(OtherStep(s, i).state)
  {
    var t := OtherStep(s, i).state;
    if s.calls[i].InjectPush? {
      ConcatAssoc(s.taken, s.rawpacketlist, [s.calls[i].p]);
    }
  }

  lemma WaitInOrder(s: State, i: nat, o: Outcome)
    requires i < |s.calls| && WaitStep(s, i, o).To? && InOrder(s)
    ensures InOrder(WaitStep(s, i, o).state)
  {
  }

  lemma WaitShape(s: State, i: nat, o: Outcome)
    requires i < |s.calls| && WaitStep(s, i, o).To?
    ensures Shape(s, WaitStep(s, i, o).state, i)
  {
  }

  lemma WaitOwners(s: State, i: nat, o: Outcome)
    requires i < |s.calls| && WaitStep(s, i, o).To?
    ensures Owners(s, WaitStep(s, i, o).state, i)
  {
  }

  lemma OtherShape(s: State, i: nat)
    requires i < |s.calls| && OtherStep(s, i).To?
    ensures Shape(s, OtherStep(s, i).state, i)
  {
  }

  lemma OtherOwners(s: State, i: nat)
    requires i < |s.calls| && OtherStep(s, i).To?
    ensures Owners(s, OtherStep(s, i).state, i)
  {
  }

  lemma StepShape(s: State, a: Action)
    requires Step(s, a).To?
    ensures a.i < |s.calls| && Shape(s, Step(s, a).state, a.i) && Owners(s, Step(s, a).state, a.i)
    ensures InOrder(s) ==> InOrder(Step(s, a).state)
  {
    hide Shape, Owners, InOrder, WaitStep, OtherStep;
    if OtherCall(s.calls[a.i]) {
      OtherShape(s, a.i);
      OtherOwners(s, a.i);
      if InOrder(s) {
        OtherInOrder(s, a.i);
      }
    } else {
      WaitShape(s, a.i, a.outcome);
      WaitOwners(s, a.i, a.outcome);
      if InOrder(s) {
        WaitInOrder(s, a.i, a.outcome);
      }
    }
  }

  lemma LocalSelfWait(s: State, i: nat, o: Outcome)
    requires i < |s.calls| && Local(s, i) && WaitStep(s, i, o).To?
    ensures i < |WaitStep(s, i, o).state.calls| && Local(WaitStep(s, i, o).state, i)
  {
  }

  lemma LocalSelfOther(s: State, i: nat)
    requires i < |s.calls| && Local(s, i) && OtherStep(s, i).To?
    ensures i < |OtherStep(s, i).state.calls| && Local(OtherStep(s, i).state, i)
  {
  }

  lemma LocalSelf(s: State, a: Action)
    requires a.i < |s.calls| && Local(s, a.i) && Step(s, a).To?
    ensures a.i < |Step(s, a).state.calls| && Local(Step(s, a).state, a.i)
  {
    hide Local, WaitStep, OtherStep;
    if OtherCall(s.calls[a.i]) {
      LocalSelfOther(s, a.i);
    } else {
      LocalSelfWait(s, a.i, a.outcome);
    }
  }

  /** Only a call that holds the main mutex touches the list, the abort count or waitingfordata. */
  lemma LocalOther(s: State, a: Action, j: nat)
    requires a.i < |s.calls| && j < |s.calls| && j != a.i && Local(s, a.i) && Local(s, j) && Step(s, a).To?
    requires !(Waits(s.calls[a.i]) && Waits(s.calls[j]))
    ensures j < |Step(s, a).state.calls| && Local(Step(s, a).state, j)
  {
  }

  lemma StepBalances(s: State, a: Action)
    requires a.i < |s.calls| && Local(s, a.i) && Balanced(s) && Step(s, a).To?
    ensures Balanced(Step(s, a).state)
  {
  }

  lemma StepAnnounces(s: State, a: Action, j: nat)
    requires a.i < |s.calls| && j < |s.calls| && Local(s, a.i) && Local(s, j) && Balanced(s) && Step(s, a).To?
    requires InSelect(s.calls[j]) && s.rawpacketlist != [] ==> Announced(s)
    ensures var t := Step(s, a).state; j < |t.calls| && (InSelect(t.calls[j]) && t.rawpacketlist != [] ==> Announced(t))
  {
  }

  lemma StepKeeps(s: State, a: Action)
    requires Inv(s) && Step(s, a).To?
    ensures Inv(Step(s, a).state)
  {
    hide Step, Local, Balanced, Announced, Waits;
    StepShape(s, a);
    var t := Step(s, a).state;
    forall j | 0 <= j < |s.calls| ensures Local(t, j) {
      if j == a.i {
        LocalSelf(s, a);
      } else {
        LocalOther(s, a, j);
      }
    }
    StepBalances(s, a);
    forall j | 0 <= j < |s.calls| && InSelect(t.calls[j]) && t.rawpacketlist != [] ensures Announced(t) {
      StepAnnounces(s, a, j);
    }
    forall j, k | 0 <= j < |s.calls| && 0 <= k < |s.calls| && Waits(t.calls[j]) && Waits(t.calls[k]) ensures j == k {
      if !s.waitingfordata {
        NobodyWaits(s, j);
        NobodyWaits(s, k);
      }
    }
  }

  lemma NobodyWaits(s: State, j: nat)
    requires j < |s.calls| && Local(s, j) && !s.waitingfordata
    ensures !Waits(s.calls[j])
  {
  }

  lemma {:induction false} RunKeeps(s: State, actions: seq<Action>)
    requires Inv(s) && Run(s, actions).To?
    ensures Inv(Run(s, actions).state)
    decreases |actions|
  {
    hide Inv, Step;
    if actions != [] {
      StepKeeps(s, actions[0]);
      RunKeeps(Step(s, actions[0]).state, actions[1..]);
    }
  }

  // ----- what every reachable state guarantees -----

  ghost predicate Reachable(s: State) {
    exists init, actions :: Initial(init) && Run(init, actions) == To(s)
  }

  lemma ReachableKeeps(s: State)
    requires Reachable(s)
    ensures Inv(s)
  {
    hide Inv, Run;
    var init, actions :| Initial(init) && Run(init, actions) == To(s);
    InitialHolds(init);
    RunKeeps(init, actions);
  }

  /** Whenever the main mutex is free the pipe holds exactly the counted bytes, and a call blocked in select
      while a packet is in the list has a byte to wake it. */
  lemma NoLostWakeup(s: State, i: nat)
    requires Reachable(s) && s.mainmutex.Free? && i < |s.calls|
    ensures s.pipe == s.abortCount
    ensures s.calls[i].Select? && s.rawpacketlist != [] ==> s.pipe > 0 && Step(s, Action(i, Readable)).To?
  {
    ReachableKeeps(s);
    assert InSelect(s.calls[i]) && s.rawpacketlist != [] ==> Announced(s);
  }

  /** Packets come out in the order they went in; none is lost or delivered twice. */
  lemma FirstInFirstOut(s: State)
    requires Reachable(s)
    ensures s.taken + s.rawpacketlist == s.injected
  {
    ReachableKeeps(s);
  }

  lemma OneWaiter(s: State, i: nat, j: nat)
    requires Reachable(s) && i < |s.calls| && j < |s.calls|
    requires Waits(s.calls[i]) && Waits(s.calls[j])
    ensures i == j && s.waitingfordata
  {
    ReachableKeeps(s);
    assert Local(s, i);
  }

  /** A step that needs neither a timeout nor a failure of select. */
  predicate Moves(s: State, a: Action) {
    Step(s, a).To? && a.outcome.Readable?
  }

  predicate Dormant(s: State, i: nat)
    requires i < |s.calls|
  {
    s.calls[i].Select? && s.mainmutex.Free? && s.pipe == 0 && s.rawpacketlist == []
  }

  lemma MainHolderMoves(s: State)
    requires Inv(s) && s.mainmutex.By?
    ensures exists a :: Moves(s, a)
  {
    var k := s.mainmutex.i;
    assert Local(s, k);
    if s.calls[k].WaitEnter? && s.waitmutex.By? {
      var m := s.waitmutex.i;
      assert Local(s, m);
      assert Moves(s, Action(m, Readable));
    } else {
      assert Moves(s, Action(k, Readable));
    }
  }

  /** The two mutexes never deadlock: while a call is unfinished some call can move, unless the only thing
      left is a wait for data that is not there. */
  lemma NoDeadlock(s: State, i: nat)
    requires Reachable(s) && i < |s.calls| && !s.calls[i].Done?
    ensures (exists a :: Moves(s, a)) || Dormant(s, i)
  {
    hide Inv;
    ReachableKeeps(s);
    if s.mainmutex.By? {
      MainHolderMoves(s);
    } else {
      FreeMoves(s, i);
    }
  }

  lemma FreeMoves(s: State, i: nat)
    requires Inv(s) && s.mainmutex.Free? && i < |s.calls| && !s.calls[i].Done?
    ensures Moves(s, Action(i, Readable)) || Dormant(s, i)
  {
    assert Local(s, i);
    assert InSelect(s.calls[i]) && s.rawpacketlist != [] ==> Announced(s);
  }

  // ----- every run ends -----

  /** The steps a call can still take, one more for every byte it may yet write to the pipe. */
  function Left(c: Call): (k: nat)
    ensures k <= 12
  {
    match c
    case Wait => 12
    case WaitCheck => 11
    case WaitList => 10
    case WaitEnter => 9
    case WaitLeave => 8
    case Select => 7
    case Selected(_) => 6
    case Wake(_) => 5
    case Clear => 4
    case Cleared => 3
    case Report => 2
    case WaitNow => 2
    case Broken => 3
    case BrokenWake => 2
    case UnlockWait(_) => 1
    case Inject(_) => 6
    case InjectPush(_) => 5
    case InjectSignal => 4
    case InjectCount => 2
    case Abort => 5
    case AbortCheck => 4
    case AbortCount => 2
    case Get => 3
    case GetPop => 2
    case UnlockMain(_) => 1
    case Done(_) => 0
  }

  function LeftAll(calls: seq<Call>): (k: nat)
    ensures k <= 12 * |calls|
  {
    if calls == [] then 0 else Left(calls[0]) + LeftAll(calls[1..])
  }

  lemma {:induction false} LeftUpdate(calls: seq<Call>, i: nat, c: Call)
    requires i < |calls|
    ensures LeftAll(calls[i := c]) + Left(calls[i]) == LeftAll(calls) + Left(c)
    decreases |calls|
  {
    hide Left;
    if i == 0 {
      assert calls[0 := c][1..] == calls[1..];
    } else {
      LeftUpdate(calls[1..], i - 1, c);
      assert calls[i := c][1..] == calls[1..][i - 1 := c];
    }
  }

  /** What is left to do: the calls' own steps, and the bytes in the pipe that Clear has to read. */
  function Work(s: State): nat {
    LeftAll(s.calls) + s.pipe
  }

  /** Before select. */
  predicate Settling(c: Call) {
    c.Wait? || c.WaitCheck? || c.WaitList? || c.WaitNow? || c.WaitEnter? || c.WaitLeave?
  }

  lemma SettlingWorks(s: State, i: nat, o: Outcome)
    requires i < |s.calls| && Settling(s.calls[i]) && WaitStep(s, i, o).To?
    ensures var t := WaitStep(s, i, o).state;
            i < |t.calls| && Left(t.calls[i]) + t.pipe < Left(s.calls[i]) + s.pipe
  {
  }

  lemma WokenWorks(s: State, i: nat, o: Outcome)
    requires i < |s.calls| && !Settling(s.calls[i]) && WaitStep(s, i, o).To?
    ensures var t := WaitStep(s, i, o).state;
            i < |t.calls| && Left(t.calls[i]) + t.pipe < Left(s.calls[i]) + s.pipe
  {
  }

  lemma WaitWorks(s: State, i: nat, o: Outcome)
    requires i < |s.calls| && WaitStep(s, i, o).To?
    ensures var t := WaitStep(s, i, o).state;
            i < |t.calls| && Left(t.calls[i]) + t.pipe < Left(s.calls[i]) + s.pipe
  {
    hide WaitStep, Left;
    if Settling(s.calls[i]) {
      SettlingWorks(s, i, o);
    } else {
      WokenWorks(s, i, o);
    }
  }

  predicate Injecting(c: Call) {
    c.Inject? || c.InjectPush? || c.InjectSignal? || c.InjectCount?
  }

  lemma InjectingWorks(s: State, i: nat)
    requires i < |s.calls| && Injecting(s.calls[i]) && OtherStep(s, i).To?
    ensures var t := OtherStep(s, i).state;
            i < |t.calls| && Left(t.calls[i]) + t.pipe < Left(s.calls[i]) + s.pipe
  {
  }

  lemma RestWorks(s: State, i: nat)
    requires i < |s.calls| && !Injecting(s.calls[i]) && OtherStep(s, i).To?
    ensures var t := OtherStep(s, i).state;
            i < |t.calls| && Left(t.calls[i]) + t.pipe < Left(s.calls[i]) + s.pipe
  {
  }

  lemma OtherWorks(s: State, i: nat)
    requires i < |s.calls| && OtherStep(s, i).To?
    ensures var t := OtherStep(s, i).state;
            i < |t.calls| && Left(t.calls[i]) + t.pipe < Left(s.calls[i]) + s.pipe
  {
    hide OtherStep, Left;
    if Injecting(s.calls[i]) {
      InjectingWorks(s, i);
    } else {
      RestWorks(s, i);
    }
  }

  /** Every step, whatever select comes back with, leaves less to do. */
  lemma StepWorks(s: State, a: Action)
    requires Step(s, a).To?
    ensures Work(Step(s, a).state) < Work(s)
  {
    hide WaitStep, OtherStep, Left, LeftAll, Owners;
    StepShape(s, a);
    if OtherCall(s.calls[a.i]) {
      OtherWorks(s, a.i);
    } else {
      WaitWorks(s, a.i, a.outcome);
    }
    LeftUpdate(s.calls, a.i, Step(s, a).state.calls[a.i]);
  }

  lemma {:induction false} WorkSpent(s: State, actions: seq<Action>)
    requires Run(s, actions).To?
    ensures |actions| + Work(Run(s, actions).state) <= Work(s)
    decreases |actions|
  {
    hide Step, Work;
    if actions != [] {
      StepWorks(s, actions[0]);
      WorkSpent(Step(s, actions[0]).state, actions[1..]);
    }
  }

  /** No run of n calls has more than 12 n steps, bytes read from the pipe included. */
  lemma RunBounded(s: State, actions: seq<Action>)
    requires Initial(s) && Run(s, actions).To?
    ensures |actions| <= 12 * |s.calls|
  {
    WorkSpent(s, actions);
  }

  /** So every run comes to a state in which nothing can move; there every call is done, or sits in select with
      nothing queued and no byte to wake it. */
  lemma RunsEndWell(s: State, i: nat)
    requires Reachable(s) && i < |s.calls| && forall a :: !Moves(s, a)
    ensures s.calls[i].Done? || Dormant(s, i)
  {
    if !s.calls[i].Done? {
      NoDeadlock(s, i);
    }
  }
}
