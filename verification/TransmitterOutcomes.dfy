/** What the results of the external transmitter's calls tell about the run: which data was there when a wait
    reported it, which packet a fetch took, who was waiting when a call was refused, and that injecting and
    aborting wake the waiter. */
module TransmitterOutcomes {
  import opened Bytes
  import opened ExternalTransmitter

  /** Moments in the life of a call. */
  datatype Milestone =
    | FoundWaiting
    | SawData(available: bool)
    | SelectFailed
    | Pushed
    | FoundNobody
    | Signalled
    | FoundNothing
    | Took(p: seq<Byte>)

  /** The step a takes call i past m. */
  predicate Makes(s: State, a: Action, i: nat, m: Milestone)
    requires i < |s.calls|
  {
    && a.i == i
    && var c := s.calls[i];
       match m
       case FoundWaiting => c.WaitCheck? && s.waitingfordata
       case SawData(available) =>
         || (c.Report? && (available <==> s.rawpacketlist != []))
         || (c.WaitList? && available && s.rawpacketlist != [])
       case SelectFailed => c.Select? && a.outcome.Failed?
       case Pushed => c.InjectPush?
       case FoundNobody => c.AbortCheck? && !s.waitingfordata
       case Signalled => c.AbortCheck? && s.waitingfordata
       case FoundNothing => c.GetPop? && s.rawpacketlist == []
       case Took(p) => c.GetPop? && s.rawpacketlist != [] && s.rawpacketlist[0] == p
  }

  predicate Made(s: State, actions: seq<Action>, i: nat, m: Milestone)
    requires i < |s.calls|
    decreases |actions|
  {
    && actions != [] && Step(s, actions[0]).To? && i < |Step(s, actions[0]).state.calls|
    && (Makes(s, actions[0], i, m) || Made(Step(s, actions[0]).state, actions[1..], i, m))
  }

  /** The call is about to return r, or has. */
  predicate Has(c: Call, r: Result) {
    c == UnlockMain(r) || c == UnlockWait(r) || c == Call.Done(r)
  }

  /** Where a call is tells that m is behind it. */
  predicate Tells(c: Call, m: Milestone) {
    match m
    case FoundWaiting => Has(c, AlreadyWaiting)
    case SawData(available) => Has(c, Data(available)) || (c.WaitNow? && available)
    case SelectFailed => c.Broken? || c.BrokenWake? || Has(c, SelectError)
    case Pushed => c.InjectSignal? || c.InjectCount? || Has(c, Injected)
    case FoundNobody => Has(c, NotWaiting)
    case Signalled => c.AbortCount? || Has(c, Aborted)
    case FoundNothing => Has(c, Result.Packet(None))
    case Took(p) => Has(c, Result.Packet(Some(p)))
  }

  /** The stretches of a wait, and of the other calls. */
  predicate Entering(c: Call) {
    c.Wait? || c.WaitCheck? || c.WaitList?
  }

  predicate Looking(c: Call) {
    c.WaitNow? || c.WaitEnter? || c.WaitLeave?
  }

  predicate Selecting(c: Call) {
    c.Select? || c.Selected?
  }

  predicate Waking(c: Call) {
    c.Wake? || c.Clear? || c.Cleared?
  }

  predicate Aborting(c: Call) {
    c.Abort? || c.AbortCheck? || c.AbortCount?
  }

  lemma EnteringTells(s: State, i: nat, o: Outcome, m: Milestone)
    requires i < |s.calls| && Entering(s.calls[i]) && WaitStep(s, i, o).To?
    ensures |WaitStep(s, i, o).state.calls| == |s.calls|
    ensures Tells(WaitStep(s, i, o).state.calls[i], m) <==> Tells(s.calls[i], m) || Makes(s, Action(i, o), i, m)
  {
  }

  lemma LookingTells(s: State, i: nat, o: Outcome, m: Milestone)
    requires i < |s.calls| && Looking(s.calls[i]) && WaitStep(s, i, o).To?
    ensures |WaitStep(s, i, o).state.calls| == |s.calls|
    ensures Tells(WaitStep(s, i, o).state.calls[i], m) <==> Tells(s.calls[i], m) || Makes(s, Action(i, o), i, m)
  {
  }

  lemma SelectingTells(s: State, i: nat, o: Outcome, m: Milestone)
    requires i < |s.calls| && Selecting(s.calls[i]) && WaitStep(s, i, o).To?
    ensures |WaitStep(s, i, o).state.calls| == |s.calls|
    ensures Tells(WaitStep(s, i, o).state.calls[i], m) <==> Tells(s.calls[i], m) || Makes(s, Action(i, o), i, m)
  {
  }

  lemma WakingTells(s: State, i: nat, o: Outcome, m: Milestone)
    requires i < |s.calls| && Waking(s.calls[i]) && WaitStep(s, i, o).To?
    ensures |WaitStep(s, i, o).state.calls| == |s.calls|
    ensures Tells(WaitStep(s, i, o).state.calls[i], m) <==> Tells(s.calls[i], m) || Makes(s, Action(i, o), i, m)
  {
  }

  lemma LeavingTells(s: State, i: nat, o: Outcome, m: Milestone)
    requires i < |s.calls| && !OtherCall(s.calls[i]) && WaitStep(s, i, o).To?
    requires !Entering(s.calls[i]) && !Looking(s.calls[i]) && !Selecting(s.calls[i]) && !Waking(s.calls[i])
    ensures |WaitStep(s, i, o).state.calls| == |s.calls|
    ensures Tells(WaitStep(s, i, o).state.calls[i], m) <==> Tells(s.calls[i], m) || Makes(s, Action(i, o), i, m)
  {
  }

  lemma WaitTells(s: State, i: nat, o: Outcome, m: Milestone)
    requires i < |s.calls| && !OtherCall(s.calls[i]) && WaitStep(s, i, o).To?
    ensures |WaitStep(s, i, o).state.calls| == |s.calls|
    ensures Tells(WaitStep(s, i, o).state.calls[i], m) <==> Tells(s.calls[i], m) || Makes(s, Action(i, o), i, m)
  {
    hide WaitStep, Tells, Makes;
    if Entering(s.calls[i]) {
      EnteringTells(s, i, o, m);
    } else if Looking(s.calls[i]) {
      LookingTells(s, i, o, m);
    } else if Selecting(s.calls[i]) {
      SelectingTells(s, i, o, m);
    } else if Waking(s.calls[i]) {
      WakingTells(s, i, o, m);
    } else {
      LeavingTells(s, i, o, m);
    }
  }

  lemma InjectingTells(s: State, i: nat, o: Outcome, m: Milestone)
    requires i < |s.calls| && Injecting(s.calls[i]) && OtherStep(s, i).To?
    ensures |OtherStep(s, i).state.calls| == |s.calls|
    ensures Tells(OtherStep(s, i).state.calls[i], m) <==> Tells(s.calls[i], m) || Makes(s, Action(i, o), i, m)
  {
  }

  lemma AbortingTells(s: State, i: nat, o: Outcome, m: Milestone)
    requires i < |s.calls| && Aborting(s.calls[i]) && OtherStep(s, i).To?
    ensures |OtherStep(s, i).state.calls| == |s.calls|
    ensures Tells(OtherStep(s, i).state.calls[i], m) <==> Tells(s.calls[i], m) || Makes(s, Action(i, o), i, m)
  {
  }

  lemma GettingTells(s: State, i: nat, o: Outcome, m: Milestone)
    requires i < |s.calls| && !Injecting(s.calls[i]) && !Aborting(s.calls[i]) && OtherStep(s, i).To?
    ensures |OtherStep(s, i).state.calls| == |s.calls|
    ensures Tells(OtherStep(s, i).state.calls[i], m) <==> Tells(s.calls[i], m) || Makes(s, Action(i, o), i, m)
  {
  }

  lemma OtherTells(s: State, i: nat, o: Outcome, m: Milestone)
    requires i < |s.calls| && OtherCall(s.calls[i]) && OtherStep(s, i).To?
    ensures |OtherStep(s, i).state.calls| == |s.calls|
    ensures Tells(OtherStep(s, i).state.calls[i], m) <==> Tells(s.calls[i], m) || Makes(s, Action(i, o), i, m)
  {
    hide OtherStep, Tells, Makes;
    if Injecting(s.calls[i]) {
      InjectingTells(s, i, o, m);
    } else if Aborting(s.calls[i]) {
      AbortingTells(s, i, o, m);
    } else {
      GettingTells(s, i, o, m);
    }
  }

  lemma StepTells(s: State, a: Action, i: nat, m: Milestone)
    requires i < |s.calls| && Step(s, a).To?
    ensures |Step(s, a).state.calls| == |s.calls|
    ensures Tells(Step(s, a).state.calls[i], m) <==> Tells(s.calls[i], m) || Makes(s, a, i, m)
  {
    hide WaitStep, OtherStep, Tells, OtherCall, Owners, InOrder, Waits;
    StepShape(s, a);
    if a.i == i {
      if OtherCall(s.calls[i]) {
        OtherTells(s, i, a.outcome, m);
      } else {
        WaitTells(s, i, a.outcome, m);
      }
    }
  }

  lemma {:induction false} RunTells(s: State, actions: seq<Action>, i: nat, m: Milestone)
    requires i < |s.calls| && Run(s, actions).To?
    ensures |Run(s, actions).state.calls| == |s.calls|
    ensures Tells(Run(s, actions).state.calls[i], m) <==> Tells(s.calls[i], m) || Made(s, actions, i, m)
    decreases |actions|
  {
    hide Step, Tells, Makes;
    if actions != [] {
      StepTells(s, actions[0], i, m);
      RunTells(Step(s, actions[0]).state, actions[1..], i, m);
    }
  }

  /** Over every run the result of a call is decided by what it found and by nothing else. A wait reports data
      available if and only if the list held a packet when it looked; a second wait is refused if and only if it
      found one waiting; select's failure is the only one; a fetch returns the packet that was first, or none if
      and only if there was none; aborting does nothing if and only if nobody was waiting. */
  lemma OutcomeTold(s: State, actions: seq<Action>, i: nat, m: Milestone)
    requires Initial(s) && i < |s.calls| && Run(s, actions).To?
    ensures |Run(s, actions).state.calls| == |s.calls|
    ensures Tells(Run(s, actions).state.calls[i], m) <==> Made(s, actions, i, m)
  {
    hide Run, Made;
    RunTells(s, actions, i, m);
    assert Fresh(s.calls[i]);
  }

  // ----- what waitingfordata means -----

  predicate SomeoneWaits(s: State) {
    exists k :: 0 <= k < |s.calls| && Waits(s.calls[k])
  }

  lemma WaitMark(s: State, i: nat, o: Outcome)
    requires i < |s.calls| && WaitStep(s, i, o).To?
    ensures var t := WaitStep(s, i, o).state;
            && |t.calls| == |s.calls|
            && (Waits(s.calls[i]) && t.waitingfordata ==> Waits(t.calls[i]))
            && (!s.waitingfordata && t.waitingfordata ==> Waits(t.calls[i]))
  {
  }

  lemma StepMark(s: State, a: Action)
    requires Step(s, a).To?
    ensures var t := Step(s, a).state;
            && a.i < |t.calls| == |s.calls| && t.calls == s.calls[a.i := t.calls[a.i]]
            && (Waits(s.calls[a.i]) && t.waitingfordata ==> Waits(t.calls[a.i]))
            && (!s.waitingfordata && t.waitingfordata ==> Waits(t.calls[a.i]))
  {
    hide WaitStep, Owners, InOrder;
    StepShape(s, a);
    if !OtherCall(s.calls[a.i]) {
      WaitMark(s, a.i, a.outcome);
    }
  }

  lemma {:induction false} WaitingMeansWaits(s: State, actions: seq<Action>)
    requires Inv(s) && Run(s, actions).To? && (s.waitingfordata ==> SomeoneWaits(s))
    ensures var t := Run(s, actions).state; t.waitingfordata <==> SomeoneWaits(t)
    decreases |actions|
  {
    hide Step, Local, Waits, Balanced, Announced, InOrder;
    if actions == [] {
      WaiterMarked(s);
    } else {
      var a, t := actions[0], Step(s, actions[0]).state;
      StepKeeps(s, a);
      StepMark(s, a);
      if t.waitingfordata && s.waitingfordata {
        var k :| 0 <= k < |s.calls| && Waits(s.calls[k]);
        assert Waits(t.calls[k]);
      }
      WaitingMeansWaits(t, actions[1..]);
    }
  }

  lemma WaiterMarked(s: State)
    requires Inv(s)
    ensures SomeoneWaits(s) ==> s.waitingfordata
  {
    hide Waits;
    if SomeoneWaits(s) {
      var k :| 0 <= k < |s.calls| && Waits(s.calls[k]);
      assert Local(s, k);
    }
  }

  /** In every reachable state waitingfordata is set if and only if some call is waiting. */
  lemma WaitingExactly(s: State, actions: seq<Action>)
    requires Initial(s) && Run(s, actions).To?
    ensures var t := Run(s, actions).state; t.waitingfordata <==> SomeoneWaits(t)
  {
    hide Inv, Run;
    InitialHolds(s);
    WaitingMeansWaits(s, actions);
  }

  // ----- waking the waiter -----

  /** An abort, or the signal of an injected packet, lets a call that sits in select go on at once. */
  lemma SignalWakes(s: State, i: nat, o: Outcome, w: nat)
    requires Reachable(s) && i < |s.calls| && (s.calls[i].AbortCheck? || s.calls[i].InjectSignal?)
    requires w < |s.calls| && s.calls[w].Select?
    ensures Step(s, Action(i, o)).To?
    ensures var t := Step(s, Action(i, o)).state;
            t.pipe > 0 && Step(t, Action(w, Readable)).To? && !Tells(t.calls[i], FoundNobody)
  {
    ReachableKeeps(s);
    assert Local(s, i) && Local(s, w);
  }

  /** A wait that a byte woke has read them all: it reports with the pipe empty and the count at zero. */
  predicate Flushed(s: State, i: nat)
    requires i < |s.calls|
  {
    match s.calls[i]
    case Selected(isset) => isset
    case Wake(isset) => isset
    case Clear => true
    case Cleared => s.pipe == 0
    case Report => s.pipe == 0 && s.abortCount == 0
    case UnlockWait(_) => true
    case Done(_) => true
    case _ => false
  }

  /** Call i comes out of select because of a byte. */
  predicate Woken(s: State, a: Action, i: nat)
    requires i < |s.calls|
  {
    a.i == i && s.calls[i].Select? && a.outcome.Readable?
  }

  lemma OnlyHolder(s: State, a: Action)
    requires a.i < |s.calls| && !HoldsMain(s.calls[a.i]) && Step(s, a).To?
    ensures Step(s, a).state.pipe == s.pipe && Step(s, a).state.abortCount == s.abortCount
  {
  }

  lemma OwnFlushes(s: State, i: nat, o: Outcome)
    requires i < |s.calls| && !OtherCall(s.calls[i]) && WaitStep(s, i, o).To?
    requires Flushed(s, i) || (s.calls[i].Select? && o.Readable?)
    ensures i < |WaitStep(s, i, o).state.calls| && Flushed(WaitStep(s, i, o).state, i)
  {
  }

  lemma StepFlushes(s: State, a: Action, i: nat)
    requires i < |s.calls| && a.i < |s.calls| && Local(s, i) && Local(s, a.i) && Step(s, a).To?
    requires Flushed(s, i) || Woken(s, a, i)
    ensures i < |Step(s, a).state.calls| && Flushed(Step(s, a).state, i)
  {
    hide WaitStep, OtherStep, Waits, HoldsWait, Owners, InOrder;
    StepShape(s, a);
    if a.i == i {
      OwnFlushes(s, i, a.outcome);
    } else if s.calls[i].Cleared? || s.calls[i].Report? {
      OnlyHolder(s, a);
    }
  }

  lemma {:induction false} RunFlushes(s: State, actions: seq<Action>, i: nat)
    requires Inv(s) && i < |s.calls| && Run(s, actions).To?
    requires Flushed(s, i) || (actions != [] && Woken(s, actions[0], i))
    ensures i < |Run(s, actions).state.calls| && Flushed(Run(s, actions).state, i)
    decreases |actions|
  {
    hide Step, Local, Balanced, Announced, Waits, InOrder, Flushed, Woken;
    if actions != [] {
      var a := actions[0];
      StepKeeps(s, a);
      StepShape(s, a);
      assert Local(s, i) && Local(s, a.i);
      StepFlushes(s, a, i);
      RunFlushes(Step(s, a).state, actions[1..], i);
    }
  }

  /** However a run goes on after a byte has woken a wait, when the wait reports the pipe is empty and the count
      back at zero. */
  lemma WokenMeansFlushed(s: State, actions: seq<Action>, i: nat)
    requires Reachable(s) && i < |s.calls| && s.calls[i].Select?
    requires Run(s, [Action(i, Readable)] + actions).To?
    ensures var t := Run(s, [Action(i, Readable)] + actions).state;
            i < |t.calls| && (t.calls[i].Report? ==> t.pipe == 0 && t.abortCount == 0)
  {
    hide Run, Inv;
    ReachableKeeps(s);
    RunFlushes(s, [Action(i, Readable)] + actions, i);
  }

  // ----- where every run ends -----

  /** When no call can move without select timing out or failing, every call has returned or sits in select with
      nothing queued and no byte to wake it. */
  lemma NothingMoves(s: State, i: nat)
    requires Reachable(s) && i < |s.calls|
    requires forall k :: 0 <= k < |s.calls| ==> Step(s, Action(k, Readable)).Blocked?
    ensures s.calls[i].Done? || (s.calls[i].Select? && s.rawpacketlist == [] && s.pipe == 0 && s.abortCount == 0)
  {
    hide Step;
    forall a ensures !Moves(s, a) {
      if Moves(s, a) {
        assert a == Action(a.i, Readable);
        Beyond(s, a);
      }
    }
    RunsEndWell(s, i);
    ReachableKeeps(s);
  }

  lemma Beyond(s: State, a: Action)
    requires Step(s, a).To?
    ensures a.i < |s.calls|
  {
  }
}
