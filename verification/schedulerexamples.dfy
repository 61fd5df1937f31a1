/** Runs that show that the start-up works from the untimed wait on, that the bound on callbacks after a stop is
    reached, and that callbacks for an expression without a real date follow each other at once. */
module SchedulerExamples {
  import opened Options
  import opened CronSearch
  import opened CronTheorems
  import opened CronRegimes
  import opened CronParse
  import opened CronTexts
  import opened Scheduler
  import opened SchedulerRuns
  import opened SchedulerPaths

  // Runs

  function Created(masks: Expr): State {
    State(AtLock, false, Alarm("", 0, 0), map[], Free, false, false, false, masks, "", 0)
  }

  /** A path from the creation of the job through a state is a run through that state. */
  lemma RunThrough(s: State, k: seq<Label>, t: State, l: seq<Label>, u: State) returns (states: seq<State>)
    requires Init(s) && Leads(s, k, t) && Leads(t, l, u)
    ensures Run(states, k + l) && states[0] == s && states[|k|] == t && states[|k + l|] == u
  {
    hide Step;
    var a: seq<State> :| IsPath(a, k) && a[0] == s && a[|k|] == t;
    var b: seq<State> :| IsPath(b, l) && b[0] == t && b[|l|] == u;
    PathThrough(a, k, b, l);
    states := a + b[1..];
  }

  lemma RunTo(s: State, k: seq<Label>, t: State) returns (states: seq<State>)
    requires Init(s) && Leads(s, k, t)
    ensures Run(states, k) && states[0] == s && states[|k|] == t
  {
    hide Leads, Run;
    Stays(t);
    states := RunThrough(s, k, t, [], t);
    assert k + [] == k;
  }

  lemma InitIsReachable(s: State)
    requires Init(s)
    ensures Reachable(s)
  {
    hide Leads, Step;
    Stays(s);
    var labels: seq<Label> := [];
    var states := RunTo(s, labels, s);
    assert states[|labels|] == s;
  }

  /** The ordinary start-up: the worker blocks in the untimed wait, the job is started, the worker arms for its pattern
      and the callback begins. */
  lemma FiresFromTheWait(pattern: string)
    returns (states: seq<State>, labels: seq<Label>, m: nat, i: nat, j: nat, k: nat)
    requires Compiled(pattern).Some?
    ensures Run(states, labels) && m <= i < j < k < |labels| && states[m].worker == IdleWait
    ensures labels[i] == Some(Started(pattern)) && Arming(labels[j]) && Begins(labels[k])
    ensures labels[j].value.alarm.pattern == pattern && labels[k].value.alarm == labels[j].value.alarm
  {
    hide Compiled, Leads, Step, Sound, Reachable;
    var s := Created(Compiled(pattern).value);
    InitIsReachable(s);
    ReachableIsSound(s);
    var l1, s1 := GoesToIdle(s);
    var before := RunTo(s, l1, s1);
    assert Reachable(s1) by { EndIsReachable(before, l1); }
    var l2, t, i2, j2, k2, alarm := CanAlwaysFire(s1, pattern);
    states := RunThrough(s, l1, s1, l2, t);
    labels := l1 + l2;
    m, i, j, k := |l1|, |l1| + i2, |l1| + j2, |l1| + k2;
    assert states[m] == s1;
  }

  lemma EndIsReachable(states: seq<State>, labels: seq<Label>)
    requires Run(states, labels)
    ensures Reachable(states[|labels|])
  {
  }

  // Counting callbacks

  /** How many callbacks begin. */
  function Callbacks(labels: seq<Label>): nat {
    if labels == [] then 0
    else Callbacks(labels[..|labels| - 1]) + if Begins(labels[|labels| - 1]) then 1 else 0
  }

  lemma {:induction false} CallbacksAdd(k: seq<Label>, l: seq<Label>)
    ensures Callbacks(k + l) == Callbacks(k) + Callbacks(l)
  {
    if l == [] {
      assert k + l == k;
    } else {
      assert (k + l)[..|k + l| - 1] == k + l[..|l| - 1];
      CallbacksAdd(k, l[..|l| - 1]);
    }
  }

  lemma {:induction false} NoCallbacks(l: seq<Label>)
    requires forall x <- l :: !Begins(x)
    ensures Callbacks(l) == 0
  {
    if l != [] {
      NoCallbacks(l[..|l| - 1]);
    }
  }

  // The worker's way to a time-out

  lemma OneOnward(s: State)
    requires s.worker != Exited && (WantsMutex(s.worker) ==> s.owner == Free)
    ensures Leads(s, [GoOn(s).0], GoOn(s).1)
  {
    hide Leads, Step, GoOn;
    OnwardIsStep(s);
    Stays(s);
    LeadsOn(s, [], s, GoOn(s).0, GoOn(s).1);
    assert [] + [GoOn(s).0] == [GoOn(s).0];
  }

  lemma TwoOnward(s: State)
    requires s.worker != Exited && (WantsMutex(s.worker) ==> s.owner == Free)
    requires var t := GoOn(s).1; t.worker != Exited && (WantsMutex(t.worker) ==> t.owner == Free)
    ensures var (e, t) := GoOn(s); var (f, u) := GoOn(t);
            Leads(s, [e, f], u)
  {
    hide Leads, GoOn;
    OneOnward(s);
    OneOnward(GoOn(s).1);
    LeadsThrough(s, [GoOn(s).0], GoOn(s).1, [GoOn(GoOn(s).1).0], GoOn(GoOn(s).1).1);
    assert [GoOn(s).0] + [GoOn(GoOn(s).1).0] == [GoOn(s).0, GoOn(GoOn(s).1).0];
  }

  /** The worker of a job that is started arms. */
  lemma ArmsTheDeadline(s: State) returns (labels: seq<Label>, t: State)
    requires s.worker == AtLock && s.owner == Free && s.startSched && !s.terminated
    ensures labels == [None, None, None, None, Some(Armed(NextAlarm(s), s.clock))] && Leads(s, labels, t)
    ensures t == s.(worker := AtTimedTest, owner := ByWorker, alarm := NextAlarm(s))
  {
    hide NextAlarm, Leads;
    var s2 := s.(owner := ByWorker, worker := AtIdleTest);
    TwoOnward(s);
    var s4 := s.(owner := ByWorker, worker := AtArm);
    TwoOnward(s2);
    assert NextAlarm(s4) == NextAlarm(s) by { SameAlarm(s, s4); }
    OneOnward(s4);
    t := s.(worker := AtTimedTest, owner := ByWorker, alarm := NextAlarm(s));
    var armed: Label := Some(Armed(NextAlarm(s), s.clock));
    LeadsThrough(s, [None, None], s2, [None, None], s4);
    LeadsThrough(s, [None, None] + [None, None], s4, [armed], t);
    labels := [None, None] + [None, None] + [armed];
  }

  lemma SameAlarm(s: State, t: State)
    requires s.parseData == t.parseData && s.clock == t.clock && s.installed == t.installed
    ensures NextAlarm(s) == NextAlarm(t)
  {
  }

  /** The worker waits, the deadline passes, when it has not already, and the wait times out. */
  lemma DeadlinePasses(s: State) returns (labels: seq<Label>, t: State)
    requires s.worker == AtTimedTest && s.startSched && !s.terminated
    ensures Leads(s, labels, t) && forall x <- labels :: x == None
    ensures t == s.(worker := TimedOut, owner := Free, pending := false, clock := t.clock)
    ensures s.alarm.deadline <= s.clock ==> t.clock == s.clock
  {
    hide Leads;
    var s1 := s.(worker := TimedWait, owner := Free, pending := false);
    if s.alarm.deadline <= s.clock {
      t := s1.(worker := TimedOut);
      TwoOnward(s);
      labels := [None, None];
    } else {
      OneOnward(s);
      var s2 := s1.(clock := s.alarm.deadline);
      t := s2.(worker := TimedOut);
      TwoOnward(s1);
      LeadsThrough(s, [None], s1, [None, None], t);
      labels := [None] + [None, None];
    }
  }

  /** The callback of an alarm that timed out begins. */
  lemma CallbackBegan(s: State) returns (t: State)
    requires s.worker == TimedOut && s.owner == Free && !s.terminated
    ensures Leads(s, [None, Some(CallbackBegins(s.alarm, s.clock))], t)
    ensures t == s.(owner := ByWorker, worker := InCallback, timedOut := true)
  {
    hide Leads;
    TwoOnward(s);
    t := s.(owner := ByWorker, worker := InCallback, timedOut := true);
  }

  // The bound on callbacks after a stop is reached

  /** For every pattern that compiles there is a run in which a callback begins after a stop. */
  lemma OneCallbackAfterStop(pattern: string) returns (states: seq<State>, labels: seq<Label>, i: nat, k: nat)
    requires Compiled(pattern).Some?
    ensures Run(states, labels) && Happens(labels, i, Cleared)
    ensures i < k < |labels| && Begins(labels[k]) && NoStart(labels, i + 1, k)
  {
    hide Compiled, NextAlarm, Leads, Run;
    var s := Created(Compiled(pattern).value);
    var l1, s1 := StartCall(s, 0, pattern);
    var l2, s2 := ArmsTheDeadline(s1);
    var l3, s3 := DeadlinePasses(s2);
    var l4, s4 := StopCall(s3, 0);
    var s5 := CallbackBegan(s4);
    var l5: seq<Label> := [None, Some(CallbackBegins(s4.alarm, s4.clock))];
    LeadsThrough(s, l1, s1, l2, s2);
    LeadsThrough(s, l1 + l2, s2, l3, s3);
    LeadsThrough(s, l1 + l2 + l3, s3, l4, s4);
    LeadsThrough(s, l1 + l2 + l3 + l4, s4, l5, s5);
    labels := l1 + l2 + l3 + l4 + l5;
    states := RunTo(s, labels, s5);
    i, k := |l1 + l2 + l3| + 2, |l1 + l2 + l3| + 6;
    assert labels[i] == l4[2] && labels[k] == l5[1];
    assert labels[i + 1] == l4[3] && labels[i + 2] == l4[4] && labels[i + 3] == l5[0];
  }

  // Expressions without a real date

  /** One callback while the clock stands still, back to where the worker takes the mutex. */
  lemma CallbackAtOnce(s: State) returns (labels: seq<Label>, t: State)
    requires s.worker == AtLock && s.owner == Free && s.startSched && !s.terminated && 0 <= s.clock
    requires Accepted(s.parseData) && NextFire(s.parseData, s.clock / SECOND_NS) == INVALID
    ensures Leads(s, labels, t) && Callbacks(labels) == 1
    ensures t == s.(alarm := t.alarm, timedOut := true, pending := false)
  {
    hide Accepted, NextFire, Leads, Callbacks;
    var l1, s1 := ArmsTheDeadline(s);
    var l2, s2 := DeadlinePasses(s1);
    assert s2.clock == s.clock;
    var s3 := CallbackBegan(s2);
    var begins: Label := Some(CallbackBegins(s2.alarm, s2.clock));
    TwoOnward(s3);
    t := s3.(worker := AtLock, owner := Free);
    LeadsThrough(s, l1, s1, l2, s2);
    LeadsThrough(s, l1 + l2, s2, [None, begins], s3);
    LeadsThrough(s, l1 + l2 + [None, begins], s3, [Some(CallbackEnds), None], t);
    labels := l1 + l2 + [None, begins] + [Some(CallbackEnds), None];
    CallbacksAdd(l1 + l2 + [None, begins], [Some(CallbackEnds), None]);
    CallbacksAdd(l1 + l2, [None, begins]);
    CallbacksAdd(l1, l2);
    NoCallbacks(l1);
    NoCallbacks(l2);
    NoCallbacks([Some(CallbackEnds), None]);
    OneOfTwo(begins);
  }

  lemma OneOfTwo(begins: Label)
    requires Begins(begins)
    ensures Callbacks([None, begins]) == 1
  {
    assert [None, begins][..1] == [None];
    NoCallbacks([None]);
  }

  /** As many callbacks as one likes, all before the clock moves. */
  lemma {:induction false} CallbacksAtOnce(s: State, n: nat) returns (labels: seq<Label>, t: State)
    requires s.worker == AtLock && s.owner == Free && s.startSched && !s.terminated && 0 <= s.clock
    requires Accepted(s.parseData) && NextFire(s.parseData, s.clock / SECOND_NS) == INVALID
    ensures Leads(s, labels, t) && Callbacks(labels) == n && t.clock == s.clock
    decreases n
  {
    hide Accepted, NextFire, Leads;
    if n == 0 {
      Stays(s);
      labels, t := [], s;
    } else {
      var l1, s1 := CallbackAtOnce(s);
      var l2;
      l2, t := CallbacksAtOnce(s1, n - 1);
      LeadsThrough(s, l1, s1, l2, t);
      CallbacksAdd(l1, l2);
      labels := l1 + l2;
    }
  }

  /** For `0 0 30 2 *`, which compiles, and for every number there is a run in which as many callbacks begin while the
      clock stands still: the deadline that is armed lies in the past, again and again. */
  lemma February30RunsAtOnce(n: nat) returns (states: seq<State>, labels: seq<Label>)
    ensures Compiled("0 0 30 2 *").Some?
    ensures Run(states, labels) && Callbacks(labels) == n
    ensures states[0].clock == states[|labels|].clock
  {
    hide Compiled, Accepted, NextFire, Leads, Callbacks, Run;
    var pattern := "0 0 30 2 *";
    FebruaryTexts();
    CompiledIsAccepted(pattern);
    var e := Compiled(pattern).value;
    February30(e, 0);
    var s := Created(e);
    var l1, s1 := StartCall(s, 0, pattern);
    var l2, t := CallbacksAtOnce(s1, n);
    LeadsThrough(s, l1, s1, l2, t);
    labels := l1 + l2;
    CallbacksAdd(l1, l2);
    NoCallbacks(l1);
    states := RunTo(s, labels, t);
  }
}
