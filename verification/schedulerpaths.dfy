/** From every state a run can be in: nothing is stuck, and the job can still fire, come to rest or be removed. */
module SchedulerPaths {
  import opened Options
  import opened CronSearch
  import opened CronTheorems
  import opened CronParse
  import opened Scheduler
  import opened SchedulerRuns

  // Paths

  /** The steps with these labels lead from `s` to `t`. */
  ghost predicate Leads(s: State, labels: seq<Label>, t: State) {
    exists states: seq<State> :: IsPath(states, labels) && states[0] == s && states[|labels|] == t
  }

  ghost predicate IsPath(states: seq<State>, labels: seq<Label>) {
    && |states| == |labels| + 1
    && forall i :: 0 <= i < |labels| ==> Step(states[i], labels[i], states[i + 1])
  }

  lemma Stays(s: State)
    ensures Leads(s, [], s)
  {
    assert IsPath([s], []);
  }

  lemma PathThrough(a: seq<State>, k: seq<Label>, b: seq<State>, l: seq<Label>)
    requires IsPath(a, k) && IsPath(b, l) && a[|k|] == b[0]
    ensures IsPath(a + b[1..], k + l) && (a + b[1..])[|k + l|] == b[|l|]
  {
    hide Step;
    var states, labels := a + b[1..], k + l;
    forall i | 0 <= i < |labels|
      ensures Step(states[i], labels[i], states[i + 1])
    {
      if i < |k| {
        assert Step(a[i], k[i], a[i + 1]);
      } else {
        var j := i - |k|;
        assert states[i] == b[j] && states[i + 1] == b[j + 1];
        assert Step(b[j], l[j], b[j + 1]);
      }
    }
  }

  lemma LeadsThrough(s: State, k: seq<Label>, t: State, l: seq<Label>, u: State)
    requires Leads(s, k, t) && Leads(t, l, u)
    ensures Leads(s, k + l, u)
  {
    hide Step;
    var a: seq<State> :| IsPath(a, k) && a[0] == s && a[|k|] == t;
    var b: seq<State> :| IsPath(b, l) && b[0] == t && b[|l|] == u;
    PathThrough(a, k, b, l);
    assert (a + b[1..])[0] == s;
  }

  lemma LeadsOn(s: State, labels: seq<Label>, t: State, e: Label, u: State)
    requires Leads(s, labels, t) && Step(t, e, u)
    ensures Leads(s, labels + [e], u)
  {
    hide Step;
    assert IsPath([t, u], [e]);
    assert Leads(t, [e], u);
    LeadsThrough(s, labels, t, [e], u);
  }

  // The steps of a path, one kind at a time

  lemma WorkerMovesOn(s: State, labels: seq<Label>, t: State, u: State)
    requires Leads(s, labels, t) && WorkerMoves(t, u)
    ensures Leads(s, labels + [None], u)
  {
    hide WorkerMoves, WorkerActs, Leads;
    LeadsOn(s, labels, t, None, u);
  }

  lemma ControllerMovesOn(s: State, labels: seq<Label>, t: State, u: State, c: nat, op: Operation)
    requires Leads(s, labels, t) && ControllerGoesOn(t, u, c, op)
    ensures Leads(s, labels + [None], u)
  {
    hide ControllerGoesOn, ControllerActs, Leads;
    LeadsOn(s, labels, t, None, u);
  }

  lemma ControllerActsOn(s: State, labels: seq<Label>, t: State, e: Label, u: State, c: nat, op: Operation)
    requires Leads(s, labels, t) && ControllerActs(t, e, u, c, op)
    ensures Leads(s, labels + [e], u)
  {
    hide ControllerGoesOn, ControllerActs, Leads;
    LeadsOn(s, labels, t, e, u);
  }

  // Reachable states

  ghost predicate Reachable(s: State) {
    exists states: seq<State>, labels: seq<Label> :: Run(states, labels) && states[|labels|] == s
  }

  /** A state that satisfies the invariant after some events. */
  ghost predicate Sound(s: State) {
    exists m: Memory :: Inv(s, m)
  }

  lemma ReachableIsSound(s: State)
    requires Reachable(s)
    ensures Sound(s)
  {
    hide Step, Inv;
    var states: seq<State>, labels: seq<Label> :| Run(states, labels) && states[|labels|] == s;
    StateSafe(states, labels, |labels|);
  }

  lemma StepIsSound(s: State, e: Label, t: State)
    requires Sound(s) && Step(s, e, t)
    ensures Sound(t)
  {
    hide Step, Inv, Allowed;
    var m: Memory :| Inv(s, m);
    StepSafe(s, e, t, m);
  }

  lemma {:induction false} PathIsSound(states: seq<State>, labels: seq<Label>, i: nat)
    requires IsPath(states, labels) && Sound(states[0]) && i < |states|
    ensures Sound(states[i])
  {
    hide Step, Sound;
    if i > 0 {
      PathIsSound(states, labels, i - 1);
      assert Step(states[i - 1], labels[i - 1], states[i - 1 + 1]);
      StepIsSound(states[i - 1], labels[i - 1], states[i]);
    }
  }

  lemma LeadsToSound(s: State, labels: seq<Label>, t: State)
    requires Sound(s) && Leads(s, labels, t)
    ensures Sound(t)
  {
    hide Step, Sound;
    var states: seq<State> :| IsPath(states, labels) && states[0] == s && states[|labels|] == t;
    PathIsSound(states, labels, |labels|);
  }

  /** What is needed below of the invariant. */
  lemma SoundFacts(s: State)
    requires Sound(s)
    ensures WorkerHolds(s.worker) <==> s.owner == ByWorker
    ensures forall c <- s.controllers :: ControllerHolds(s.controllers[c]) <==> s.owner == ByController(c)
    ensures s.owner.ByController? ==> s.owner.id in s.controllers
    ensures s.worker == AtQuit || s.worker == Exited ==> s.terminated
    ensures s.worker == AtArm ==> s.startSched && !s.terminated
    ensures s.worker == InCallback ==> !s.terminated
  {
    hide Compiled, Accepted, NextFire;
  }

  // The worker's way on

  /** The alarm that the worker arms. */
  ghost function NextAlarm(s: State): Alarm {
    var fire := if Accepted(s.parseData) then NextFire(s.parseData, s.clock / SECOND_NS) else 0;
    Alarm(s.installed, fire, fire * SECOND_NS + s.clock % SECOND_NS)
  }

  /** A next step for the worker: it goes on at every program point, and in the timed wait the clock goes on until the
      deadline unless there is a reason to wake. */
  ghost function GoOn(s: State): (Label, State) {
    match s.worker
    case AtLock => (None, s.(owner := ByWorker, worker := AtTop))
    case AtTop => (None, s.(worker := if s.terminated then AtQuit else AtIdleTest))
    case AtIdleTest =>
      if !s.startSched && !s.terminated then (None, s.(worker := IdleWait, owner := Free, pending := false))
      else (None, s.(worker := AtChecked))
    case IdleWait => (None, s.(worker := IdleWoken, pending := false))
    case IdleWoken => (None, s.(owner := ByWorker, worker := AtIdleTest, timedOut := false))
    case AtChecked => (None, s.(worker := if s.terminated then AtQuit else if s.startSched then AtArm else AtUnlock))
    case AtArm => (Some(Armed(NextAlarm(s), s.clock)), s.(worker := AtTimedTest, alarm := NextAlarm(s)))
    case AtTimedTest =>
      if s.startSched && !s.terminated then (None, s.(worker := TimedWait, owner := Free, pending := false))
      else (None, s.(worker := AtAfter))
    case TimedWait =>
      if s.terminated || !s.startSched then (None, s.(worker := TimedWoken, pending := false))
      else if s.alarm.deadline <= s.clock then (None, s.(worker := TimedOut, pending := false))
      else (None, s.(clock := s.alarm.deadline))
    case TimedWoken => (None, s.(owner := ByWorker, worker := AtTimedTest, timedOut := false))
    case TimedOut => (None, s.(owner := ByWorker, worker := AtAfter, timedOut := true))
    case AtAfter =>
      if s.terminated then (None, s.(worker := AtQuit))
      else if s.timedOut then (Some(CallbackBegins(s.alarm, s.clock)), s.(worker := InCallback))
      else (None, s.(worker := AtUnlock))
    case InCallback => (Some(CallbackEnds), s.(worker := AtUnlock))
    case AtUnlock => (None, s.(worker := AtLock, owner := Free))
    case AtQuit => (Some(WorkerExits), s.(worker := Exited, owner := Free))
    case Exited => (None, s)
  }

  /** The points at which the worker needs the mutex. */
  predicate WantsMutex(w: Worker) {
    w == AtLock || w == IdleWoken || w == TimedWoken || w == TimedOut
  }

  lemma OnwardIsStep(s: State)
    requires s.worker != Exited && (WantsMutex(s.worker) ==> s.owner == Free)
    ensures Step(s, GoOn(s).0, GoOn(s).1)
  {
    hide Accepted, NextFire, ControllerGoesOn, ControllerActs;
    var (e, t) := GoOn(s);
    if Begins(e) || Arming(e) || s.worker == InCallback || s.worker == AtQuit {
      assert WorkerActs(s, e, t);
    } else if s.worker == TimedWait && t.worker == TimedWait {
      assert Ticks(s, t);
    } else {
      assert WorkerMoves(s, t);
    }
  }

  /** What a path of the worker keeps. */
  predicate SameJob(s: State, t: State) {
    && t.startSched == s.startSched && t.terminated == s.terminated && t.installed == s.installed
    && t.parseData == s.parseData && t.controllers == s.controllers
  }

  predicate NoController(s: State) {
    !s.owner.ByController?
  }

  lemma OnwardKeeps(s: State)
    ensures SameJob(s, GoOn(s).1)
  {
    hide NextAlarm;
  }

  lemma OnwardIsTheWorkers(s: State)
    ensures GoOn(s).1.owner == s.owner || NoController(GoOn(s).1)
  {
    hide NextAlarm;
  }

  /** One step of the worker in front of a path of the worker. */
  lemma OneStepOn(s: State)
    requires Sound(s) && NoController(s) && s.worker != Exited
    ensures var (e, t) := GoOn(s);
            Leads(s, [e], t) && Sound(t) && NoController(t) && SameJob(s, t)
  {
    hide Step, Sound, Leads, GoOn;
    SoundFacts(s);
    OnwardIsStep(s);
    OnwardKeeps(s);
    OnwardIsTheWorkers(s);
    StepIsSound(s, GoOn(s).0, GoOn(s).1);
    Stays(s);
    LeadsOn(s, [], s, GoOn(s).0, GoOn(s).1);
    assert [] + [GoOn(s).0] == [GoOn(s).0];
  }

  /** How far the worker is from arming, when the job is started. */
  function ToArm(s: State): nat {
    match s.worker
    case TimedWoken => 12
    case AtTimedTest => 11
    case TimedWait => if s.alarm.deadline <= s.clock then 9 else 10
    case TimedOut => 8
    case AtAfter => 7
    case InCallback => 6
    case AtUnlock => 5
    case AtLock => 4
    case IdleWait => 4
    case AtTop => 3
    case IdleWoken => 3
    case AtIdleTest => 2
    case AtChecked => 1
    case _ => 0
  }

  /** How far the worker is from the untimed wait, when the job is stopped. */
  function ToIdle(s: State): nat {
    match s.worker
    case TimedWait => 10
    case TimedWoken => 9
    case AtTimedTest => 8
    case TimedOut => 8
    case AtAfter => 7
    case InCallback => 6
    case AtChecked => 6
    case AtUnlock => 5
    case AtLock => 4
    case AtTop => 3
    case IdleWoken => 3
    case AtIdleTest => 2
    case _ => 0
  }

  /** How far the worker is from its exit, when the job is removed. */
  function ToExit(s: State): nat {
    match s.worker
    case AtUnlock => 6
    case TimedWait => 6
    case IdleWait => 6
    case TimedWoken => 5
    case AtLock => 5
    case IdleWoken => 5
    case AtTimedTest => 4
    case TimedOut => 4
    case AtTop => 4
    case AtIdleTest => 4
    case AtAfter => 3
    case AtChecked => 3
    case AtQuit => 1
    case _ => 0
  }

  /** How far the worker is from giving up the mutex. */
  function ToRelease(s: State): nat {
    match s.worker
    case AtTop => 8
    case AtIdleTest => 7
    case AtChecked => 6
    case AtArm => 5
    case AtTimedTest => 4
    case AtAfter => 3
    case InCallback => 2
    case _ => 1
  }

  lemma {:induction false} GoesToArm(s: State) returns (labels: seq<Label>, t: State)
    requires Sound(s) && NoController(s) && s.startSched && !s.terminated
    ensures Leads(s, labels, t) && Sound(t) && NoController(t) && SameJob(s, t) && t.worker == AtArm
    decreases ToArm(s)
  {
    hide Sound, Leads;
    SoundFacts(s);
    if s.worker == AtArm {
      Stays(s);
      labels, t := [], s;
    } else {
      OneStepOn(s);
      var (e, u) := GoOn(s);
      var l;
      l, t := GoesToArm(u);
      LeadsThrough(s, [e], u, l, t);
      labels := [e] + l;
    }
  }

  lemma {:induction false} GoesToIdle(s: State) returns (labels: seq<Label>, t: State)
    requires Sound(s) && NoController(s) && !s.startSched && !s.terminated
    ensures Leads(s, labels, t) && Sound(t) && NoController(t) && SameJob(s, t) && t.worker == IdleWait
    decreases ToIdle(s)
  {
    hide Sound, Leads;
    SoundFacts(s);
    if s.worker == IdleWait {
      Stays(s);
      labels, t := [], s;
    } else {
      OneStepOn(s);
      var (e, u) := GoOn(s);
      var l;
      l, t := GoesToIdle(u);
      LeadsThrough(s, [e], u, l, t);
      labels := [e] + l;
    }
  }

  lemma {:induction false} GoesToExit(s: State) returns (labels: seq<Label>, t: State)
    requires Sound(s) && NoController(s) && s.terminated
    ensures Leads(s, labels, t) && Sound(t) && NoController(t) && SameJob(s, t) && t.worker == Exited
    ensures s.worker == Exited ==> labels == []
    ensures s.worker != Exited ==> labels != [] && labels[|labels| - 1] == Some(WorkerExits)
    decreases ToExit(s)
  {
    hide Sound, Leads;
    SoundFacts(s);
    if s.worker == Exited {
      Stays(s);
      labels, t := [], s;
    } else {
      OneStepOn(s);
      var (e, u) := GoOn(s);
      var l;
      l, t := GoesToExit(u);
      LeadsThrough(s, [e], u, l, t);
      labels := [e] + l;
    }
  }

  lemma {:induction false} WorkerReleases(s: State) returns (labels: seq<Label>, t: State)
    requires Sound(s) && NoController(s)
    ensures Leads(s, labels, t) && Sound(t) && t.owner == Free && SameJob(s, t)
    decreases if s.owner == Free then 0 else ToRelease(s)
  {
    hide Sound, Leads;
    SoundFacts(s);
    if s.owner == Free {
      Stays(s);
      labels, t := [], s;
    } else {
      OneStepOn(s);
      var (e, u) := GoOn(s);
      var l;
      l, t := WorkerReleases(u);
      LeadsThrough(s, [e], u, l, t);
      labels := [e] + l;
    }
  }

  /** In the timed loop, once armed, the worker goes on to the callback of its alarm. */
  lemma {:induction false} GoesToCallback(s: State) returns (labels: seq<Label>, t: State, at: int)
    requires Sound(s) && NoController(s) && s.startSched && !s.terminated
    requires s.worker == AtTimedTest || s.worker == TimedWait || s.worker == TimedOut
             || (s.worker == AtAfter && s.timedOut)
    ensures Leads(s, labels, t) && labels != [] && labels[|labels| - 1] == Some(CallbackBegins(s.alarm, at))
    decreases ToArm(s)
  {
    hide Sound, Leads;
    OneStepOn(s);
    var (e, u) := GoOn(s);
    if s.worker == AtAfter {
      labels, t, at := [e], u, s.clock;
    } else {
      var l;
      l, t, at := GoesToCallback(u);
      LeadsThrough(s, [e], u, l, t);
      labels := [e] + l;
    }
  }

  // The controllers' way on

  /** The next step of the controller that has the mutex. */
  function HolderOnward(s: State, c: nat): (Label, State)
    requires c in s.controllers && ControllerHolds(s.controllers[c])
  {
    match s.controllers[c]
    case Inside(Start(pattern)) =>
      var r := Compiled(pattern);
      (None, Moved(s, c, Parsed(pattern, r.Some?)).(parseData := if r.Some? then r.value else s.parseData))
    case Inside(Stop) => (Some(Cleared), Moved(s, c, Signalling(Stop)).(startSched := false))
    case Inside(Remove) =>
      (Some(Event.Terminated), Moved(s, c, Signalling(Remove)).(startSched := false, terminated := true))
    case Parsed(pattern, ok) =>
      if ok then
        (Some(Started(pattern)), Moved(s, c, Signalling(Start(pattern))).(startSched := true, installed := pattern))
      else (Some(Cleared), Moved(s, c, Leaving(Start(pattern))).(startSched := false))
    case Signalling(op) => (None, Moved(s, c, Leaving(op)).(pending := s.pending || Blocked(s.worker)))
    case Leaving(op) =>
      (None, (if op.Remove? then Moved(s, c, Joining) else s.(controllers := s.controllers - {c})).(owner := Free))
  }

  lemma HolderOnwardIsStep(s: State, c: nat)
    requires c in s.controllers && ControllerHolds(s.controllers[c])
    ensures Step(s, HolderOnward(s, c).0, HolderOnward(s, c).1)
  {
    hide Compiled, WorkerMoves, WorkerActs;
    var (e, t) := HolderOnward(s, c);
    match s.controllers[c]
    case Inside(Start(pattern)) => assert ControllerGoesOn(s, t, c, Start(pattern));
    case Inside(op) => assert ControllerActs(s, e, t, c, op);
    case Parsed(pattern, ok) => assert ControllerActs(s, e, t, c, Start(pattern));
    case Signalling(op) => assert ControllerGoesOn(s, t, c, op);
    case Leaving(op) => assert ControllerGoesOn(s, t, c, op);
  }

  function HolderRank(k: Controller): nat {
    match k
    case Inside(_) => 4
    case Parsed(_, _) => 3
    case Signalling(_) => 2
    case _ => 1
  }

  /** A controller is about to set `terminated`. */
  predicate Removing(s: State) {
    Holder(s) == Some(Inside(Remove))
  }

  lemma HolderGoesOn(s: State, c: nat)
    requires Sound(s) && s.owner == ByController(c) && c in s.controllers && ControllerHolds(s.controllers[c])
    ensures var (e, u) := HolderOnward(s, c);
            && Leads(s, [e], u) && Sound(u)
            && (u.owner == Free
                || (u.owner == ByController(c) && c in u.controllers && ControllerHolds(u.controllers[c])
                    && HolderRank(u.controllers[c]) < HolderRank(s.controllers[c]) && !Removing(u)))
            && (u.terminated <==> s.terminated || Removing(s))
  {
    hide Sound, Leads, Compiled, Step;
    HolderOnwardIsStep(s, c);
    var (e, u) := HolderOnward(s, c);
    StepIsSound(s, e, u);
    Stays(s);
    LeadsOn(s, [], s, e, u);
    assert [] + [e] == [e];
  }

  lemma {:induction false} HolderLeaves(s: State) returns (labels: seq<Label>, t: State)
    requires Sound(s) && s.owner.ByController? && s.owner.id in s.controllers
    requires ControllerHolds(s.controllers[s.owner.id])
    ensures Leads(s, labels, t) && Sound(t) && t.owner == Free
    ensures t.terminated <==> s.terminated || Removing(s)
    decreases HolderRank(s.controllers[s.owner.id])
  {
    hide Sound, Leads, HolderOnward, Removing, HolderRank;
    var c := s.owner.id;
    HolderGoesOn(s, c);
    var (e, u) := HolderOnward(s, c);
    if u.owner == Free {
      labels, t := [e], u;
    } else {
      var l;
      l, t := HolderLeaves(u);
      LeadsThrough(s, [e], u, l, t);
      labels := [e] + l;
    }
  }

  /** From every sound state the mutex becomes free. */
  lemma MutexBecomesFree(s: State) returns (labels: seq<Label>, t: State)
    requires Sound(s)
    ensures Leads(s, labels, t) && Sound(t) && t.owner == Free
    ensures t.terminated <==> s.terminated || Removing(s)
  {
    hide Sound, Leads;
    SoundFacts(s);
    if s.owner.ByController? {
      labels, t := HolderLeaves(s);
    } else {
      labels, t := WorkerReleases(s);
    }
  }

  // Calls

  lemma FreshId(keys: set<nat>) returns (c: nat)
    ensures c !in keys && forall k <- keys :: k < c
  {
    c := 0;
    var left := keys;
    while left != {}
      invariant left <= keys && forall k <- keys :: k in left || k < c
      decreases |left|
    {
      var k :| k in left;
      left := left - {k};
      c := if k < c then c else k + 1;
    }
  }

  /** A call takes the mutex. */
  lemma EnterCall(s: State, c: nat, op: Operation) returns (labels: seq<Label>, t: State)
    requires s.owner == Free && c !in s.controllers
    ensures Leads(s, labels, t) && labels == [None, None]
    ensures t == Moved(s, c, Inside(op)).(owner := ByController(c))
  {
    hide Leads;
    Stays(s);
    var u := Moved(s, c, Calling(op));
    ControllerMovesOn(s, [], s, u, c, op);
    t := Moved(s, c, Inside(op)).(owner := ByController(c));
    assert t == Moved(u, c, Inside(op)).(owner := ByController(c));
    ControllerMovesOn(s, [] + [None], u, t, c, op);
    labels := [] + [None] + [None];
  }

  /** A call signals and gives up the mutex. */
  lemma LeaveCall(s: State, c: nat, op: Operation) returns (labels: seq<Label>, t: State)
    requires Scheduler.At(s, c, Signalling(op))
    ensures Leads(s, labels, t) && labels == [None, None]
    ensures t == s.(pending := s.pending || Blocked(s.worker), owner := Free,
                    controllers := if op.Remove? then s.controllers[c := Joining] else s.controllers - {c})
  {
    hide Leads;
    Stays(s);
    var u := Moved(s, c, Leaving(op)).(pending := s.pending || Blocked(s.worker));
    ControllerMovesOn(s, [], s, u, c, op);
    t := s.(pending := s.pending || Blocked(s.worker), owner := Free,
            controllers := if op.Remove? then s.controllers[c := Joining] else s.controllers - {c});
    assert t == (if op.Remove? then Moved(u, c, Joining) else u.(controllers := u.controllers - {c})).(owner := Free);
    ControllerMovesOn(s, [] + [None], u, t, c, op);
    labels := [] + [None] + [None];
  }

  /** What a call does between taking the mutex and signalling. */
  lemma WholeCall(s: State, c: nat, op: Operation, s1: State, l2: seq<Label>, s2: State)
    returns (labels: seq<Label>, t: State)
    requires s.owner == Free && c !in s.controllers && s1 == Moved(s, c, Inside(op)).(owner := ByController(c))
    requires Leads(s1, l2, s2) && Scheduler.At(s2, c, Signalling(op))
    ensures Leads(s, labels, t) && labels == [None, None] + l2 + [None, None]
    ensures t == s2.(pending := s2.pending || Blocked(s2.worker), owner := Free,
                     controllers := if op.Remove? then s2.controllers[c := Joining] else s2.controllers - {c})
  {
    hide Leads;
    var l1, u := EnterCall(s, c, op);
    var l3;
    l3, t := LeaveCall(s2, c, op);
    LeadsThrough(s, l1, s1, l2, s2);
    LeadsThrough(s, l1 + l2, s2, l3, t);
    labels := l1 + l2 + l3;
  }

  /** A controller starts the job. */
  lemma StartCall(s: State, c: nat, pattern: string) returns (labels: seq<Label>, t: State)
    requires s.owner == Free && c !in s.controllers && Compiled(pattern).Some?
    ensures Leads(s, labels, t) && labels == [None, None, None, Some(Started(pattern)), None, None]
    ensures t == s.(startSched := true, installed := pattern, parseData := Compiled(pattern).value,
                    pending := s.pending || Blocked(s.worker))
  {
    hide Compiled, Leads;
    var op := Start(pattern);
    var s1 := Moved(s, c, Inside(op)).(owner := ByController(c));
    Stays(s1);
    var s2 := Moved(s1, c, Parsed(pattern, true)).(parseData := Compiled(pattern).value);
    ControllerMovesOn(s1, [], s1, s2, c, op);
    var s3 := Moved(s2, c, Signalling(op)).(startSched := true, installed := pattern);
    ControllerActsOn(s1, [] + [None], s2, Some(Started(pattern)), s3, c, op);
    labels, t := WholeCall(s, c, op, s1, [] + [None] + [Some(Started(pattern))], s3);
    assert t.controllers == s.controllers;
  }

  /** A controller stops the job. */
  lemma StopCall(s: State, c: nat) returns (labels: seq<Label>, t: State)
    requires s.owner == Free && c !in s.controllers
    ensures Leads(s, labels, t) && labels == [None, None, Some(Cleared), None, None]
    ensures t == s.(startSched := false, pending := s.pending || Blocked(s.worker))
  {
    hide Leads;
    var s1 := Moved(s, c, Inside(Stop)).(owner := ByController(c));
    Stays(s1);
    var s2 := Moved(s1, c, Signalling(Stop)).(startSched := false);
    ControllerActsOn(s1, [], s1, Some(Cleared), s2, c, Stop);
    labels, t := WholeCall(s, c, Stop, s1, [] + [Some(Cleared)], s2);
    assert t.controllers == s.controllers;
  }

  /** A controller removes the job, as far as the join. */
  lemma RemoveCall(s: State, c: nat) returns (labels: seq<Label>, t: State)
    requires s.owner == Free && c !in s.controllers
    ensures Leads(s, labels, t) && labels == [None, None, Some(Event.Terminated), None, None]
    ensures t == s.(startSched := false, terminated := true, pending := s.pending || Blocked(s.worker),
                    controllers := s.controllers[c := Joining])
  {
    hide Leads;
    var s1 := Moved(s, c, Inside(Remove)).(owner := ByController(c));
    Stays(s1);
    var s2 := Moved(s1, c, Signalling(Remove)).(startSched := false, terminated := true);
    ControllerActsOn(s1, [], s1, Some(Event.Terminated), s2, c, Remove);
    labels, t := WholeCall(s, c, Remove, s1, [] + [Some(Event.Terminated)], s2);
    assert t.controllers == s.controllers[c := Joining];
  }

  // The theorems

  /** No thread is stuck: a worker that has the mutex, or waits for it while it is free, can take a step; a blocked
      worker can wake, at any time; and so it is with the controllers, where one that joins waits for the worker to
      exit. */
  lemma NothingIsStuck(s: State)
    requires Reachable(s)
    ensures WorkerHolds(s.worker) || (WantsMutex(s.worker) && s.owner == Free) ==>
              exists e: Label, t: State :: Step(s, e, t) && t.worker != s.worker
    ensures s.worker == IdleWait ==> exists t: State :: Step(s, None, t) && t.worker == IdleWoken
    ensures s.worker == TimedWait ==> exists t: State :: Step(s, None, t) && t.worker == TimedWoken
    ensures forall c <- s.controllers ::
              ControllerHolds(s.controllers[c]) || (s.controllers[c].Calling? && s.owner == Free)
              || (s.controllers[c].Joining? && s.worker == Exited) ==>
                exists e: Label, t: State ::
                  Step(s, e, t) && (c in t.controllers ==> t.controllers[c] != s.controllers[c])
    ensures s.owner == ByWorker ==> WorkerHolds(s.worker)
    ensures s.owner.ByController? ==>
              s.owner.id in s.controllers && ControllerHolds(s.controllers[s.owner.id])
  {
    hide Step, Sound, Reachable;
    ReachableIsSound(s);
    SoundFacts(s);
    if WorkerHolds(s.worker) || (WantsMutex(s.worker) && s.owner == Free) {
      OnwardIsStep(s);
      OnwardMoves(s);
    }
    if Blocked(s.worker) {
      BlockedCanWake(s);
    }
    forall c <- s.controllers |
      ControllerHolds(s.controllers[c]) || (s.controllers[c].Calling? && s.owner == Free)
      || (s.controllers[c].Joining? && s.worker == Exited)
      ensures exists e: Label, t: State ::
                Step(s, e, t) && (c in t.controllers ==> t.controllers[c] != s.controllers[c])
    {
      var e, t := ControllerCanStep(s, c);
    }
  }

  lemma OnwardMoves(s: State)
    requires s.worker != Exited && s.worker != TimedWait
    ensures GoOn(s).1.worker != s.worker
  {
    hide NextAlarm;
  }

  lemma BlockedCanWake(s: State)
    requires Blocked(s.worker)
    ensures exists t: State ::
              Step(s, None, t) && t.worker == (if s.worker == IdleWait then IdleWoken else TimedWoken)
  {
    hide ControllerGoesOn, ControllerActs, WorkerActs;
    var t := s.(worker := if s.worker == IdleWait then IdleWoken else TimedWoken, pending := false);
    assert WaitEnds(s, t);
  }

  lemma ControllerCanStep(s: State, c: nat) returns (e: Label, t: State)
    requires c in s.controllers
    requires ControllerHolds(s.controllers[c]) || (s.controllers[c].Calling? && s.owner == Free)
             || (s.controllers[c].Joining? && s.worker == Exited)
    ensures Step(s, e, t) && (c in t.controllers ==> t.controllers[c] != s.controllers[c])
  {
    hide Compiled, WorkerMoves, WorkerActs;
    match s.controllers[c]
    case Calling(op) =>
      e, t := None, Moved(s, c, Inside(op)).(owner := ByController(c));
      assert ControllerGoesOn(s, t, c, op);
    case Joining =>
      e, t := Some(ObjectFreed), s.(controllers := s.controllers - {c});
      assert ControllerActs(s, e, t, c, Remove);
    case _ =>
      HolderOnwardIsStep(s, c);
      e, t := HolderOnward(s, c).0, HolderOnward(s, c).1;
  }

  /** From every state of every run in which the job is not being removed, and for every pattern that compiles: the job
      can be started, then armed for the pattern, then its callback begins. */
  lemma CanAlwaysFire(s: State, pattern: string)
    returns (labels: seq<Label>, t: State, i: nat, j: nat, k: nat, alarm: Alarm)
    requires Reachable(s) && !s.terminated && !Removing(s) && Compiled(pattern).Some?
    ensures Leads(s, labels, t) && i < j < k < |labels| && alarm.pattern == pattern
    ensures labels[i] == Some(Started(pattern))
    ensures labels[j].Some? && labels[j].value.Armed? && labels[j].value.alarm == alarm
    ensures labels[k].Some? && labels[k].value.CallbackBegins? && labels[k].value.alarm == alarm
  {
    hide Sound, Leads, Compiled, Reachable, Removing;
    ReachableIsSound(s);
    var l1, s1 := MutexBecomesFree(s);
    var c := FreshId(s1.controllers.Keys);
    var l2, s2 := StartCall(s1, c, pattern);
    LeadsToSound(s1, l2, s2);
    var l3, s3 := GoesToArm(s2);
    OneStepOn(s3);
    var (e, s4) := GoOn(s3);
    var l4, s5, at := GoesToCallback(s4);
    t, alarm := s5, s4.alarm;
    LeadsThrough(s, l1, s1, l2, s2);
    LeadsThrough(s, l1 + l2, s2, l3, s3);
    LeadsThrough(s, l1 + l2 + l3, s3, [e], s4);
    LeadsThrough(s, l1 + l2 + l3 + [e], s4, l4, t);
    labels := l1 + l2 + l3 + [e] + l4;
    i, j, k := |l1| + 3, |l1| + 6 + |l3|, |labels| - 1;
    assert labels[i] == l2[3];
    assert labels[j] == e;
    assert labels[k] == l4[|l4| - 1];
  }

  /** From every such state the job can be stopped, and the worker comes to rest in the untimed wait. */
  lemma CanAlwaysRest(s: State) returns (labels: seq<Label>, t: State, i: nat)
    requires Reachable(s) && !s.terminated && !Removing(s)
    ensures Leads(s, labels, t) && i < |labels| && labels[i] == Some(Cleared) && t.worker == IdleWait
    ensures !t.startSched && !t.terminated && t.owner == Free
  {
    hide Sound, Leads, Reachable, Removing;
    ReachableIsSound(s);
    var l1, s1 := MutexBecomesFree(s);
    var c := FreshId(s1.controllers.Keys);
    var l2, s2 := StopCall(s1, c);
    LeadsToSound(s1, l2, s2);
    var l3;
    l3, t := GoesToIdle(s2);
    SoundFacts(t);
    LeadsThrough(s, l1, s1, l2, s2);
    LeadsThrough(s, l1 + l2, s2, l3, t);
    labels := l1 + l2 + l3;
    i := |l1| + 2;
    assert labels[i] == l2[2];
  }

  /** From every such state the job can be removed: `terminated` is set, the worker exits and the object is freed. */
  lemma CanAlwaysRemove(s: State) returns (labels: seq<Label>, t: State, i: nat, j: nat, k: nat)
    requires Reachable(s) && !s.terminated && !Removing(s)
    ensures Leads(s, labels, t) && i < j < k < |labels|
    ensures labels[i] == Some(Event.Terminated) && labels[j] == Some(WorkerExits) && labels[k] == Some(ObjectFreed)
  {
    hide Sound, Leads, Reachable, Removing;
    ReachableIsSound(s);
    var l1, s1 := MutexBecomesFree(s);
    var c := FreshId(s1.controllers.Keys);
    var l2, s2 := RemoveCall(s1, c);
    LeadsToSound(s1, l2, s2);
    SoundFacts(s1);
    var l3, s3 := GoesToExit(s2);
    t := s3.(controllers := s3.controllers - {c});
    LeadsThrough(s, l1, s1, l2, s2);
    LeadsThrough(s, l1 + l2, s2, l3, s3);
    ControllerActsOn(s, l1 + l2 + l3, s3, Some(ObjectFreed), t, c, Remove);
    labels := l1 + l2 + l3 + [Some(ObjectFreed)];
    i, j, k := |l1| + 2, |labels| - 2, |labels| - 1;
    assert labels[i] == l2[2];
    assert labels[j] == l3[|l3| - 1];
  }

  /** Once `terminated` is set the worker can exit. */
  lemma CanAlwaysExit(s: State) returns (labels: seq<Label>, t: State)
    requires Reachable(s) && (s.terminated || Removing(s))
    ensures Leads(s, labels, t) && t.worker == Exited
  {
    hide Sound, Leads, Reachable, Removing;
    ReachableIsSound(s);
    var l1, s1 := MutexBecomesFree(s);
    var l2;
    l2, t := GoesToExit(s1);
    LeadsThrough(s, l1, s1, l2, t);
    labels := l1 + l2;
  }
}
