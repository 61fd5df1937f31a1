/** The scheduler over whole runs: what holds in every state and between the events of every interleaving. */
module SchedulerRuns {
  import opened Options
  import opened Gregorian
  import opened CronSearch
  import opened CronTheorems
  import opened CronRegimes
  import opened CronParse
  import opened Scheduler

  /** Every interleaving of the threads from the creation of the job on. */
  ghost predicate Run(states: seq<State>, labels: seq<Label>) {
    && |states| == |labels| + 1 && Init(states[0])
    && forall i :: 0 <= i < |labels| ==> Step(states[i], labels[i], states[i + 1])
  }

  function Remembered(labels: seq<Label>): Memory {
    if labels == [] then NOTHING
    else Seen(Remembered(labels[..|labels| - 1]), labels[|labels| - 1])
  }

  // The invariant

  lemma WorkerMovesSafe(s: State, t: State, m: Memory)
    requires Inv(s, m) && WorkerMoves(s, t)
    ensures Preserves(m, None, t)
  {
    hide Inv, Preserves, TakesMutex, WaitEnds, TestsTop, TestsIdle, TestsChecked, TestsTimed;
    hide SkipsCallback, GoesRound;
    if TakesMutex(s, t) { TakesMutexSafe(s, t, m); }
    else if WaitEnds(s, t) { WaitEndsSafe(s, t, m); }
    else if TestsTop(s, t) { TestsTopSafe(s, t, m); }
    else if TestsIdle(s, t) { TestsIdleSafe(s, t, m); }
    else if TestsChecked(s, t) { TestsCheckedSafe(s, t, m); }
    else if TestsTimed(s, t) { TestsTimedSafe(s, t, m); }
    else if SkipsCallback(s, t) { SkipsCallbackSafe(s, t, m); }
    else { GoesRoundSafe(s, t, m); }
  }

  lemma WorkerActsSafe(s: State, e: Label, t: State, m: Memory)
    requires Inv(s, m) && WorkerActs(s, e, t)
    ensures Preserves(m, e, t)
  {
    hide Inv, Preserves, Arms, Fires, Returns, Quits;
    if Arms(s, e, t) { ArmsSafe(s, e, t, m); }
    else if Fires(s, e, t) { FiresSafe(s, e, t, m); }
    else if Returns(s, e, t) { ReturnsSafe(s, e, t, m); }
    else { QuitsSafe(s, e, t, m); }
  }

  lemma ControllerGoesOnSafe(s: State, t: State, c: nat, op: Operation, m: Memory)
    requires Inv(s, m) && ControllerGoesOn(s, t, c, op)
    ensures Preserves(m, None, t)
  {
    hide Inv, Preserves, Calls, Enters, Signals, Leaves, Parses;
    if Calls(s, t, c, op) { CallsSafe(s, t, c, op, m); }
    else if Enters(s, t, c, op) { EntersSafe(s, t, c, op, m); }
    else if Signals(s, t, c, op) { SignalsSafe(s, t, c, op, m); }
    else if Leaves(s, t, c, op) { LeavesSafe(s, t, c, op, m); }
    else { ParsesSafe(s, t, c, op.pattern, m); }
  }

  lemma ControllerActsSafe(s: State, e: Label, t: State, c: nat, op: Operation, m: Memory)
    requires Inv(s, m) && ControllerActs(s, e, t, c, op)
    ensures Preserves(m, e, t)
  {
    hide Inv, Preserves, SetsStart, FailsStart, Stops, Terminates, JoinsAndFrees;
    if Stops(s, e, t, c) { StopsSafe(s, e, t, c, m); }
    else if Terminates(s, e, t, c) { TerminatesSafe(s, e, t, c, m); }
    else if JoinsAndFrees(s, e, t, c) { JoinsAndFreesSafe(s, e, t, c, m); }
    else if SetsStart(s, e, t, c, op.pattern) { SetsStartSafe(s, e, t, c, op.pattern, m); }
    else { FailsStartSafe(s, e, t, c, op.pattern, m); }
  }

  lemma StepSafe(s: State, e: Label, t: State, m: Memory)
    requires Inv(s, m) && Step(s, e, t)
    ensures Preserves(m, e, t)
  {
    hide Inv, Preserves, WorkerMoves, WorkerActs, ControllerGoesOn, ControllerActs, Ticks;
    if e == None && WorkerMoves(s, t) {
      WorkerMovesSafe(s, t, m);
    } else if e == None && Ticks(s, t) {
      TicksSafe(s, t, m);
    } else if WorkerActs(s, e, t) {
      WorkerActsSafe(s, e, t, m);
    } else if e == None && exists c: nat, op: Operation :: ControllerGoesOn(s, t, c, op) {
      var c: nat, op: Operation :| ControllerGoesOn(s, t, c, op);
      ControllerGoesOnSafe(s, t, c, op, m);
    } else {
      var c: nat, op: Operation :| ControllerActs(s, e, t, c, op);
      ControllerActsSafe(s, e, t, c, op, m);
    }
  }

  /** Every state of a run satisfies the invariant. */
  lemma {:induction false} StateSafe(states: seq<State>, labels: seq<Label>, i: nat)
    requires Run(states, labels) && i < |states|
    ensures Inv(states[i], Remembered(labels[..i]))
  {
    hide Step;
    if i == 0 {
      assert labels[..0] == [];
    } else {
      hide Inv;
      StateSafe(states, labels, i - 1);
      var before := labels[..i - 1];
      assert labels[..i][..i - 1] == before;
      assert Step(states[i - 1], labels[i - 1], states[i - 1 + 1]);
      StepSafe(states[i - 1], labels[i - 1], states[i], Remembered(before));
    }
  }

  /** Every event of a run is allowed after the events before it. */
  lemma EventAllowed(states: seq<State>, labels: seq<Label>, i: nat)
    requires Run(states, labels) && i < |labels| && labels[i].Some?
    ensures Allowed(Remembered(labels[..i]), labels[i].value)
  {
    hide Inv, Step, Allowed;
    StateSafe(states, labels, i);
    assert Step(states[i], labels[i], states[i + 1]);
    StepSafe(states[i], labels[i], states[i + 1], Remembered(labels[..i]));
  }

  // Events by their place in the run

  predicate Happens(labels: seq<Label>, i: int, e: Event) {
    0 <= i < |labels| && labels[i] == Some(e)
  }

  predicate Starts(l: Label) {
    l.Some? && l.value.Started?
  }

  predicate Arming(l: Label) {
    l.Some? && l.value.Armed?
  }

  predicate Begins(l: Label) {
    l.Some? && l.value.CallbackBegins?
  }

  /** No label from `i` up to `j` is a start. */
  predicate NoStart(labels: seq<Label>, i: int, j: int) {
    forall k :: 0 <= i <= k < j <= |labels| ==> !Starts(labels[k])
  }

  predicate NoArming(labels: seq<Label>, i: int, j: int) {
    forall k :: 0 <= i <= k < j <= |labels| ==> !Arming(labels[k])
  }

  lemma RememberedNext(labels: seq<Label>, i: nat)
    requires i < |labels|
    ensures Remembered(labels[..i + 1]) == Seen(Remembered(labels[..i]), labels[i])
  {
    assert labels[..i + 1][..i] == labels[..i];
  }

  /** The pattern remembered is that of the last start. */
  lemma {:induction false} LastStart(labels: seq<Label>, i: nat) returns (k: int)
    requires i <= |labels| && Remembered(labels[..i]).started.Some?
    ensures 0 <= k < i && Happens(labels, k, Started(Remembered(labels[..i]).started.value))
    ensures NoStart(labels, k + 1, i)
  {
    assert labels[..0] == [];
    RememberedNext(labels, i - 1);
    if Starts(labels[i - 1]) {
      k := i - 1;
    } else {
      k := LastStart(labels, i - 1);
    }
  }

  lemma {:induction false} LastArming(labels: seq<Label>, i: nat) returns (k: int)
    requires i <= |labels| && Remembered(labels[..i]).armed.Some?
    ensures 0 <= k < i && Arming(labels[k]) && labels[k].value.alarm == Remembered(labels[..i]).armed.value
    ensures NoArming(labels, k + 1, i)
  {
    assert labels[..0] == [];
    RememberedNext(labels, i - 1);
    if Arming(labels[i - 1]) {
      k := i - 1;
    } else {
      k := LastArming(labels, i - 1);
    }
  }

  /** What is remembered of an event stays so. */
  lemma {:induction false} StaysRemembered(labels: seq<Label>, i: nat, j: nat)
    requires i <= j <= |labels|
    ensures var m := Remembered(labels[..i]); var n := Remembered(labels[..j]);
            && (m.terminated ==> n.terminated) && (m.exited ==> n.exited) && m.latest <= n.latest
            && (NoStart(labels, i, j) && m.stopped ==> n.stopped && m.late <= n.late)
  {
    if i < j {
      StaysRemembered(labels, i, j - 1);
      RememberedNext(labels, j - 1);
    }
  }

  /** The worker has exited only if it said so. */
  lemma {:induction false} ExitHappened(labels: seq<Label>, i: nat) returns (k: int)
    requires i <= |labels| && Remembered(labels[..i]).exited
    ensures 0 <= k < i && Happens(labels, k, WorkerExits)
  {
    assert labels[..0] == [];
    RememberedNext(labels, i - 1);
    if Happens(labels, i - 1, WorkerExits) {
      k := i - 1;
    } else {
      k := ExitHappened(labels, i - 1);
    }
  }

  /** A callback that has begun is open until it ends. */
  lemma {:induction false} OpenUntilEnd(labels: seq<Label>, k: nat, i: nat)
    requires k < i <= |labels| && Begins(labels[k]) && !Remembered(labels[..i]).open
    ensures exists j :: k < j < i && Happens(labels, j, CallbackEnds)
  {
    RememberedNext(labels, i - 1);
    if Happens(labels, i - 1, CallbackEnds) {
    } else if i - 1 != k {
      OpenUntilEnd(labels, k, i - 1);
    }
  }

  // The theorems

  /** While the mutex is free and `startSched` is set, the masks are the complete result of compiling the
      pattern of the last start that succeeded. */
  lemma ExpressionIsInstalled(states: seq<State>, labels: seq<Label>, i: nat) returns (k: int)
    requires Run(states, labels) && i < |states| && states[i].owner == Free && states[i].startSched
    ensures 0 <= k < i && Starts(labels[k]) && NoStart(labels, k + 1, i)
    ensures Compiled(labels[k].value.pattern) == Some(states[i].parseData)
    ensures Accepted(states[i].parseData)
  {
    hide Step, Compiled, Accepted, NextFire;
    StateSafe(states, labels, i);
    k := LastStart(labels, i);
    CompiledIsAccepted(states[i].installed);
  }

  /** No wake-up is lost: with the mutex free and no signal on its way, a worker in the untimed wait has
      nothing to do, and one in the timed wait is not to terminate. */
  lemma NoLostWakeUp(states: seq<State>, labels: seq<Label>, i: nat)
    requires Run(states, labels) && i < |states| && states[i].owner == Free && !states[i].pending
    ensures states[i].worker == IdleWait ==> !states[i].startSched && !states[i].terminated
    ensures states[i].worker == TimedWait ==> !states[i].terminated
  {
    hide Step, Compiled, Accepted, NextFire;
    StateSafe(states, labels, i);
  }

  /** The signal is on its way, or its sender is about to send it, whenever the untimed wait is to end. */
  lemma WakeUpIsSent(states: seq<State>, labels: seq<Label>, i: nat)
    requires Run(states, labels) && i < |states| && states[i].worker == IdleWait
    requires states[i].startSched || states[i].terminated
    ensures states[i].pending
            || exists c <- states[i].controllers :: states[i].controllers[c].Signalling?
  {
    hide Step, Compiled, Accepted, NextFire;
    StateSafe(states, labels, i);
    assert HolderSignals(states[i]) ==> states[i].owner.id in states[i].controllers;
  }

  /** Once `terminated` is set no callback begins, and none is then in progress. */
  lemma NoCallbackAfterRemove(states: seq<State>, labels: seq<Label>, i: nat, k: nat)
    requires Run(states, labels) && Happens(labels, i, Event.Terminated)
    requires k < |labels| && Begins(labels[k])
    ensures k < i && exists j :: k < j < i && Happens(labels, j, CallbackEnds)
  {
    hide Run;
    EventAllowed(states, labels, i);
    EventAllowed(states, labels, k);
    RememberedNext(labels, i);
    if i < k {
      StaysRemembered(labels, i + 1, k);
    }
    OpenUntilEnd(labels, k, i);
  }

  /** The object is freed only after the worker has exited, and the worker stays so. */
  lemma FreedAfterExit(states: seq<State>, labels: seq<Label>, i: nat) returns (k: int)
    requires Run(states, labels) && Happens(labels, i, ObjectFreed)
    ensures 0 <= k < i && Happens(labels, k, WorkerExits)
    ensures forall j :: k < j < |states| ==> states[j].worker == Exited
  {
    hide Step, Compiled, Accepted, NextFire;
    EventAllowed(states, labels, i);
    k := ExitHappened(labels, i);
    RememberedNext(labels, k);
    forall j | k < j < |states|
      ensures states[j].worker == Exited
    {
      StaysRemembered(labels, k + 1, j);
      StateSafe(states, labels, j);
    }
  }

  /** After `startSched` is cleared, and until a start succeeds, nothing is armed. */
  lemma NothingArmedAfterStop(states: seq<State>, labels: seq<Label>, i: nat, k: nat)
    requires Run(states, labels) && Happens(labels, i, Cleared) && i < k < |labels| && Arming(labels[k])
    ensures !NoStart(labels, i + 1, k)
  {
    hide Run;
    EventAllowed(states, labels, k);
    RememberedNext(labels, i);
    StaysRemembered(labels, i + 1, k);
  }

  lemma MovesDoNotArm(s: State, t: State)
    requires WorkerMoves(s, t)
    ensures IsArmed(t.worker) ==> IsArmed(s.worker)
  {
  }

  lemma ControllersLeaveTheWorker(s: State, t: State, c: nat, op: Operation)
    requires ControllerGoesOn(s, t, c, op)
    ensures t.worker == s.worker
  {
    hide Compiled;
  }

  /** Only a step that arms takes the worker into the timed loop, and only a worker in it begins a callback. */
  lemma ArmingIsSaid(s: State, e: Label, t: State)
    requires Step(s, e, t)
    ensures IsArmed(t.worker) ==> IsArmed(s.worker) || Arming(e)
    ensures Begins(e) ==> IsArmed(s.worker)
  {
    hide Compiled, Accepted, NextFire, WorkerMoves, ControllerGoesOn;
    if e == None {
      if WorkerMoves(s, t) {
        MovesDoNotArm(s, t);
      } else if exists c: nat, op: Operation :: ControllerGoesOn(s, t, c, op) {
        var c: nat, op: Operation :| ControllerGoesOn(s, t, c, op);
        ControllersLeaveTheWorker(s, t, c, op);
      }
    }
  }

  lemma {:induction false} StaysDisarmed(states: seq<State>, labels: seq<Label>, i: nat, k: nat)
    requires Run(states, labels) && Happens(labels, i, Cleared) && !IsArmed(states[i].worker)
    requires i < k <= |labels| && NoStart(labels, i + 1, k)
    ensures !IsArmed(states[k].worker)
  {
    hide Step;
    assert Step(states[k - 1], labels[k - 1], states[k - 1 + 1]);
    ArmingIsSaid(states[k - 1], labels[k - 1], states[k]);
    if i < k - 1 {
      StaysDisarmed(states, labels, i, k - 1);
      if Arming(labels[k - 1]) {
        NothingArmedAfterStop(states, labels, i, k - 1);
      }
    }
  }

  /** Bounded stop: between a clearing of `startSched` and the next successful start at most one callback
      begins: one for the alarm that was armed when it was cleared. */
  lemma BoundedStop(states: seq<State>, labels: seq<Label>, i: nat, k: nat)
    requires Run(states, labels) && Happens(labels, i, Cleared)
    requires i < k < |labels| && Begins(labels[k]) && NoStart(labels, i + 1, k)
    ensures forall l :: i < l < |labels| && Begins(labels[l]) && NoStart(labels, i + 1, l) ==> l == k
    ensures IsArmed(states[i].worker) && states[i].alarm == labels[k].value.alarm
  {
    hide Step, Inv, Allowed;
    assert Step(states[k], labels[k], states[k + 1]);
    ArmingIsSaid(states[k], labels[k], states[k + 1]);
    if !IsArmed(states[i].worker) {
      StaysDisarmed(states, labels, i, k);
    }
    forall l | i < l < |labels| && Begins(labels[l]) && NoStart(labels, i + 1, l)
      ensures l == k
    {
      if l < k {
        OneLateCallback(states, labels, i, l, k);
      } else if k < l {
        OneLateCallback(states, labels, i, k, l);
      }
    }
    AlarmStays(states, labels, i, k);
  }

  /** The alarm of a callback after a stop is the one that was armed then. */
  lemma AlarmStays(states: seq<State>, labels: seq<Label>, i: nat, k: nat)
    requires Run(states, labels) && Happens(labels, i, Cleared) && IsArmed(states[i].worker)
    requires i < k < |labels| && Begins(labels[k]) && NoStart(labels, i + 1, k)
    ensures states[i].alarm == labels[k].value.alarm
  {
    hide Step, Compiled, Accepted, NextFire;
    EventAllowed(states, labels, k);
    var j := LastArming(labels, k);
    if i < j {
      NothingArmedAfterStop(states, labels, i, j);
    }
    StateSafe(states, labels, i);
    ArmedStays(labels, i, k);
  }

  lemma {:induction false} ArmedStays(labels: seq<Label>, i: nat, k: nat)
    requires i <= k <= |labels| && NoArming(labels, i, k)
    ensures Remembered(labels[..k]).armed == Remembered(labels[..i]).armed
  {
    if i < k {
      ArmedStays(labels, i, k - 1);
      RememberedNext(labels, k - 1);
    }
  }

  lemma OneLateCallback(states: seq<State>, labels: seq<Label>, i: nat, k: nat, l: nat)
    requires Run(states, labels) && Happens(labels, i, Cleared)
    requires i < k < l < |labels| && Begins(labels[k]) && Begins(labels[l])
    ensures !NoStart(labels, i + 1, l)
  {
    hide Run;
    if NoStart(labels, i + 1, l) {
      RememberedNext(labels, i);
      StaysRemembered(labels, i + 1, k);
      RememberedNext(labels, k);
      StaysRemembered(labels, k + 1, l);
      EventAllowed(states, labels, l);
    }
  }

  /** The cron instants of callbacks strictly increase, whatever is started and stopped between them. */
  lemma FireOrder(states: seq<State>, labels: seq<Label>, i: nat, k: nat)
    requires Run(states, labels) && i < k < |labels| && Begins(labels[i]) && Begins(labels[k])
    requires labels[k].value.alarm.fire != INVALID
    ensures labels[i].value.alarm.fire < labels[k].value.alarm.fire
  {
    hide Run;
    RememberedNext(labels, i);
    StaysRemembered(labels, i + 1, k);
    EventAllowed(states, labels, k);
  }

  /** What a callback runs for: the deadline armed last, reached by then; it is the next instant, at the
      time of arming, of the pattern started last at that time, and satisfies its masks when the day step
      of the search is safe. */
  lemma FireIsArmed(states: seq<State>, labels: seq<Label>, i: nat) returns (j: int, k: int)
    requires Run(states, labels) && i < |labels| && Begins(labels[i])
    ensures 0 <= k < j < i && Arming(labels[j]) && NoArming(labels, j + 1, i)
    ensures Starts(labels[k]) && NoStart(labels, k + 1, j)
    ensures var alarm := labels[i].value.alarm;
            var at := labels[j].value.at;
            var e := Compiled(labels[k].value.pattern);
            && labels[j].value.alarm == alarm && alarm.pattern == labels[k].value.pattern
            && 0 <= at
            && e.Some? && Accepted(e.value)
            && alarm.fire == NextFire(e.value, at / 1_000_000_000)
            && alarm.deadline == alarm.fire * 1_000_000_000 + at % 1_000_000_000
            && alarm.deadline <= labels[i].value.at
            && (if alarm.fire == INVALID then alarm.deadline < 0 else at < alarm.deadline)
            && (alarm.fire != INVALID && DayStepSafe(e.value) ==> MatchesAt(e.value, alarm.fire))
  {
    hide Run, NextFire, Compiled, Accepted, DayStepSafe, MatchesAt;
    EventAllowed(states, labels, i);
    j := LastArming(labels, i);
    EventAllowed(states, labels, j);
    k := LastStart(labels, j);
    var e := Compiled(labels[k].value.pattern).value;
    Progress(e, labels[j].value.at / SECOND_NS);
    if DayStepSafe(e) {
      NextFireIsSound(e, labels[j].value.at / SECOND_NS);
    }
  }

  /** A callback for a pattern without any real date has no cron instant: the deadline lies before 1970. */
  lemma GivenUpFires(states: seq<State>, labels: seq<Label>, i: nat)
    requires Run(states, labels) && i < |labels| && Begins(labels[i])
    ensures var alarm := labels[i].value.alarm;
            && Compiled(alarm.pattern).Some?
            && var e := Compiled(alarm.pattern).value;
               (DayStepSafe(e) && (forall n: nat :: DayOk(e, n) ==> MonthOf(n) !in e.months)) ==>
                 alarm.fire == INVALID && alarm.deadline < 0
  {
    hide Run, NextFire, Compiled, Accepted, DayStepSafe, MatchesAt, DayOk, MonthOf;
    var j, k := FireIsArmed(states, labels, i);
    var e := Compiled(labels[i].value.alarm.pattern).value;
    if DayStepSafe(e) && forall n: nat :: DayOk(e, n) ==> MonthOf(n) !in e.months {
      NoRealDate(e, labels[j].value.at / SECOND_NS);
    }
  }
}
