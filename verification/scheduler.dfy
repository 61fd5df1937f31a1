/** The scheduler of one job: a worker thread and any number of controller threads that share a mutex, a
    condition variable, two flags and the compiled expression.

    A step is one thread moving from one program point to the next, or the clock moving on; some steps
    carry an event. Waiting on the condition variable is three steps: the mutex is released, the wait ends
    (by a signal, spuriously or by time-out), and the mutex is taken again. */
module Scheduler {
  import opened Options
  import opened CronSearch
  import opened CronTheorems
  import opened CronParse

  const SECOND_NS := 1_000_000_000

  /** Program points of `dcmSchedulerThread`. */
  datatype Worker =
    | AtLock                 // takes the mutex
    | AtTop                  // tests `terminated`
    | AtIdleTest             // tests the idle loop
    | IdleWait               // blocked in `pthread_cond_wait`, mutex released
    | IdleWoken              // the wait is over, the mutex not yet taken again
    | AtChecked              // tests `terminated`, then `startSched`
    | AtArm                  // reads the clock and computes the deadline
    | AtTimedTest            // tests the timed loop
    | TimedWait              // blocked in `pthread_cond_timedwait`, mutex released
    | TimedWoken             // woken before the deadline, the mutex not yet taken again
    | TimedOut               // timed out, the mutex not yet taken again
    | AtAfter                // after the timed loop
    | InCallback
    | AtUnlock               // releases the mutex and goes round
    | AtQuit                 // releases the mutex and leaves
    | Exited

  datatype Operation = Start(pattern: string) | Stop | Remove

  /** Program points of a controller inside one call. */
  datatype Controller =
    | Calling(op: Operation)               // wants the mutex
    | Inside(op: Operation)                // has the mutex
    | Parsed(pattern: string, ok: bool)    // a start that has written the masks, not yet `startSched`
    | Signalling(op: Operation)            // has written the flags, about to signal
    | Leaving(op: Operation)               // about to release the mutex
    | Joining                              // waits for the worker to exit

  datatype Owner = Free | ByWorker | ByController(id: nat)

  /** What a wait was armed with: the pattern installed then, the cron instant, and the deadline in
      nanoseconds. */
  datatype Alarm = Alarm(pattern: string, fire: int, deadline: int)

  datatype Event =
    | Started(pattern: string)             // `startSched` set
    | Cleared                              // `startSched` cleared by a stop or by a start that fails
    | Terminated                           // `terminated` set
    | Armed(alarm: Alarm, at: int)
    | CallbackBegins(alarm: Alarm, at: int)
    | CallbackEnds
    | WorkerExits
    | ObjectFreed

  /** The last result of a wait is `timedOut`; `installed` is the pattern of the last start that succeeded. */
  datatype State = State(
    worker: Worker, timedOut: bool, alarm: Alarm,
    controllers: map<nat, Controller>, owner: Owner, pending: bool,
    startSched: bool, terminated: bool, parseData: Expr, installed: string, clock: int)

  type Label = Option<Event>

  predicate Init(s: State) {
    && s.worker == AtLock && !s.timedOut
    && s.controllers == map[] && s.owner == Free && !s.pending
    && !s.startSched && !s.terminated
    && 0 <= s.clock
  }

  predicate Blocked(w: Worker) {
    w == IdleWait || w == TimedWait
  }

  // The worker

  predicate TakesMutex(s: State, t: State) {
    && s.owner == Free
    && ((s.worker == AtLock && t == s.(owner := ByWorker, worker := AtTop))
        || (s.worker == IdleWoken && t == s.(owner := ByWorker, worker := AtIdleTest, timedOut := false))
        || (s.worker == TimedWoken && t == s.(owner := ByWorker, worker := AtTimedTest, timedOut := false))
        || (s.worker == TimedOut && t == s.(owner := ByWorker, worker := AtAfter, timedOut := true)))
  }

  /** The waits end at any time, or at the deadline by time-out. */
  predicate WaitEnds(s: State, t: State) {
    || (s.worker == IdleWait && t == s.(worker := IdleWoken, pending := false))
    || (s.worker == TimedWait && t == s.(worker := TimedWoken, pending := false))
    || (s.worker == TimedWait && s.alarm.deadline <= s.clock && t == s.(worker := TimedOut, pending := false))
  }

  predicate TestsTop(s: State, t: State) {
    s.worker == AtTop && t == s.(worker := if s.terminated then AtQuit else AtIdleTest)
  }

  /** Entering a wait releases the mutex. */
  predicate TestsIdle(s: State, t: State) {
    && s.worker == AtIdleTest
    && t == if !s.startSched && !s.terminated then s.(worker := IdleWait, owner := Free, pending := false)
            else s.(worker := AtChecked)
  }

  predicate TestsChecked(s: State, t: State) {
    && s.worker == AtChecked
    && t == s.(worker := if s.terminated then AtQuit else if s.startSched then AtArm else AtUnlock)
  }

  predicate TestsTimed(s: State, t: State) {
    && s.worker == AtTimedTest
    && t == if s.startSched && !s.terminated then s.(worker := TimedWait, owner := Free, pending := false)
            else s.(worker := AtAfter)
  }

  /** The deadline is the cron instant, with the nanoseconds of the clock reading. */
  ghost predicate Arms(s: State, e: Label, t: State) {
    && s.worker == AtArm
    && (Accepted(s.parseData) ==> t.alarm.fire == NextFire(s.parseData, s.clock / SECOND_NS))
    && t.alarm.pattern == s.installed
    && t.alarm.deadline == t.alarm.fire * SECOND_NS + s.clock % SECOND_NS
    && t == s.(worker := AtTimedTest, alarm := t.alarm)
    && e == Some(Armed(t.alarm, s.clock))
  }

  /** Only a wait that timed out runs the callback; the flag `startSched` is not read again. */
  predicate Fires(s: State, e: Label, t: State) {
    && s.worker == AtAfter && !s.terminated && s.timedOut
    && t == s.(worker := InCallback)
    && e == Some(CallbackBegins(s.alarm, s.clock))
  }

  predicate SkipsCallback(s: State, t: State) {
    && s.worker == AtAfter && (s.terminated || !s.timedOut)
    && t == s.(worker := if s.terminated then AtQuit else AtUnlock)
  }

  predicate Returns(s: State, e: Label, t: State) {
    s.worker == InCallback && t == s.(worker := AtUnlock) && e == Some(CallbackEnds)
  }

  predicate GoesRound(s: State, t: State) {
    s.worker == AtUnlock && t == s.(worker := AtLock, owner := Free)
  }

  predicate Quits(s: State, e: Label, t: State) {
    s.worker == AtQuit && t == s.(worker := Exited, owner := Free) && e == Some(WorkerExits)
  }

  // The controllers

  predicate At(s: State, c: nat, k: Controller) {
    c in s.controllers && s.controllers[c] == k
  }

  function Moved(s: State, c: nat, k: Controller): State {
    s.(controllers := s.controllers[c := k])
  }

  predicate Calls(s: State, t: State, c: nat, op: Operation) {
    c !in s.controllers && t == Moved(s, c, Calling(op))
  }

  predicate Enters(s: State, t: State, c: nat, op: Operation) {
    At(s, c, Calling(op)) && s.owner == Free && t == Moved(s, c, Inside(op)).(owner := ByController(c))
  }

  /** A rejected pattern leaves masks behind that are compiled in part: any masks. */
  ghost predicate Parses(s: State, t: State, c: nat, pattern: string) {
    && At(s, c, Inside(Start(pattern)))
    && (Compiled(pattern).Some? ==> t.parseData == Compiled(pattern).value)
    && t == Moved(s, c, Parsed(pattern, Compiled(pattern).Some?)).(parseData := t.parseData)
  }

  predicate SetsStart(s: State, e: Label, t: State, c: nat, pattern: string) {
    && At(s, c, Parsed(pattern, true))
    && t == Moved(s, c, Signalling(Start(pattern))).(startSched := true, installed := pattern)
    && e == Some(Started(pattern))
  }

  /** A failed start clears the flag and does not signal. */
  predicate FailsStart(s: State, e: Label, t: State, c: nat, pattern: string) {
    && At(s, c, Parsed(pattern, false))
    && t == Moved(s, c, Leaving(Start(pattern))).(startSched := false)
    && e == Some(Cleared)
  }

  predicate Stops(s: State, e: Label, t: State, c: nat) {
    At(s, c, Inside(Stop)) && t == Moved(s, c, Signalling(Stop)).(startSched := false) && e == Some(Cleared)
  }

  predicate Terminates(s: State, e: Label, t: State, c: nat) {
    && At(s, c, Inside(Remove))
    && t == Moved(s, c, Signalling(Remove)).(startSched := false, terminated := true)
    && e == Some(Event.Terminated)
  }

  predicate Signals(s: State, t: State, c: nat, op: Operation) {
    && At(s, c, Signalling(op))
    && t == Moved(s, c, Leaving(op)).(pending := s.pending || Blocked(s.worker))
  }

  predicate Leaves(s: State, t: State, c: nat, op: Operation) {
    && At(s, c, Leaving(op))
    && t == (if op.Remove? then Moved(s, c, Joining) else s.(controllers := s.controllers - {c})).(owner := Free)
  }

  predicate JoinsAndFrees(s: State, e: Label, t: State, c: nat) {
    && At(s, c, Joining) && s.worker == Exited
    && t == s.(controllers := s.controllers - {c})
    && e == Some(ObjectFreed)
  }

  /** The clock never goes back. */
  predicate Ticks(s: State, t: State) {
    s.clock <= t.clock && t == s.(clock := t.clock)
  }

  /** The worker's steps that carry no event, and those that do. */
  predicate WorkerMoves(s: State, t: State) {
    || TakesMutex(s, t) || WaitEnds(s, t) || TestsTop(s, t) || TestsIdle(s, t) || TestsChecked(s, t)
    || TestsTimed(s, t) || SkipsCallback(s, t) || GoesRound(s, t)
  }

  ghost predicate WorkerActs(s: State, e: Label, t: State) {
    Arms(s, e, t) || Fires(s, e, t) || Returns(s, e, t) || Quits(s, e, t)
  }

  ghost predicate ControllerGoesOn(s: State, t: State, c: nat, op: Operation) {
    || Calls(s, t, c, op) || Enters(s, t, c, op) || Signals(s, t, c, op) || Leaves(s, t, c, op)
    || (op.Start? && Parses(s, t, c, op.pattern))
  }

  predicate ControllerActs(s: State, e: Label, t: State, c: nat, op: Operation) {
    || (op.Start? && (SetsStart(s, e, t, c, op.pattern) || FailsStart(s, e, t, c, op.pattern)))
    || Stops(s, e, t, c) || Terminates(s, e, t, c) || JoinsAndFrees(s, e, t, c)
  }

  ghost predicate Step(s: State, e: Label, t: State) {
    || (e == None && (WorkerMoves(s, t) || Ticks(s, t)))
    || WorkerActs(s, e, t)
    || (e == None && exists c: nat, op: Operation :: ControllerGoesOn(s, t, c, op))
    || exists c: nat, op: Operation :: ControllerActs(s, e, t, c, op)
  }

  // What the events so far have said

  /** The pattern last started; whether `startSched` was cleared since, and how many callbacks began after
      that; the last alarm; the greatest cron instant a callback ran for. */
  datatype Memory = Memory(
    started: Option<string>, stopped: bool, late: nat, armed: Option<Alarm>, latest: int,
    open: bool, terminated: bool, exited: bool)

  const NOTHING := Memory(None, false, 0, None, INVALID, false, false, false)

  function Observe(m: Memory, e: Event): Memory {
    match e
    case Started(pattern) => m.(started := Some(pattern), stopped := false, late := 0)
    case Cleared => if m.stopped then m else m.(stopped := true, late := 0)
    case Terminated => m.(terminated := true)
    case Armed(alarm, _) => m.(armed := Some(alarm))
    case CallbackBegins(alarm, _) =>
      m.(open := true, late := if m.stopped then m.late + 1 else m.late,
         latest := if m.latest < alarm.fire then alarm.fire else m.latest)
    case CallbackEnds => m.(open := false)
    case WorkerExits => m.(exited := true)
    case ObjectFreed => m
  }

  function Seen(m: Memory, e: Label): Memory {
    if e.Some? then Observe(m, e.value) else m
  }

  /** What may happen next: the safety properties of the scheduler, event by event. */
  ghost predicate Allowed(m: Memory, e: Event) {
    match e
    case Armed(alarm, at) =>
      && 0 <= at && !m.terminated && !m.stopped && m.started == Some(alarm.pattern)
      && Compiled(alarm.pattern).Some? && Accepted(Compiled(alarm.pattern).value)
      && alarm.fire == NextFire(Compiled(alarm.pattern).value, at / SECOND_NS)
      && alarm.deadline == alarm.fire * SECOND_NS + at % SECOND_NS
    case CallbackBegins(alarm, at) =>
      && m.armed == Some(alarm) && alarm.deadline <= at
      && !m.terminated && !m.open
      && (m.stopped ==> m.late == 0)
      && (alarm.fire != INVALID ==> m.latest < alarm.fire)
    case CallbackEnds => m.open
    case Terminated => !m.open
    case WorkerExits => m.terminated && !m.open
    case ObjectFreed => m.exited
    case _ => !m.open
  }

  // What every step keeps

  predicate WorkerHolds(w: Worker) {
    match w
    case AtLock | IdleWait | IdleWoken | TimedWait | TimedWoken | TimedOut | Exited => false
    case _ => true
  }

  predicate ControllerHolds(k: Controller) {
    k.Inside? || k.Parsed? || k.Signalling? || k.Leaving?
  }

  /** The owner of the mutex is the one thread at a program point that has it. */
  ghost predicate MutexInv(s: State) {
    && (WorkerHolds(s.worker) <==> s.owner == ByWorker)
    && (forall c <- s.controllers :: ControllerHolds(s.controllers[c]) <==> s.owner == ByController(c))
    && (s.owner.ByController? ==> s.owner.id in s.controllers)
  }

  /** The controller that has the mutex. */
  function Holder(s: State): Option<Controller> {
    if s.owner.ByController? && s.owner.id in s.controllers then Some(s.controllers[s.owner.id]) else None
  }

  /** A controller has written the masks, not yet the flag. */
  predicate HolderParsed(s: State) {
    Holder(s).Some? && Holder(s).value.Parsed?
  }

  /** A controller has written the flags and is about to signal. */
  predicate HolderSignals(s: State) {
    Holder(s).Some? && Holder(s).value.Signalling?
  }

  ghost predicate Installed(s: State, pattern: string) {
    Compiled(pattern) == Some(s.parseData)
  }

  /** While `startSched` is set the masks are those of the installed pattern, unless a start is between
      writing the masks and writing the flag. */
  ghost predicate ExpressionInv(s: State) {
    && (s.startSched && !HolderParsed(s) ==> Installed(s, s.installed))
    && (HolderParsed(s) && Holder(s).value.ok ==> Installed(s, Holder(s).value.pattern))
  }

  /** A flag that ends a wait is followed by its signal. */
  ghost predicate WakeInv(s: State) {
    && (s.worker == IdleWait && !s.pending ==> (!s.startSched && !s.terminated) || HolderSignals(s))
    && (s.worker == TimedWait && !s.pending && s.terminated ==> HolderSignals(s))
  }

  predicate IsArmed(w: Worker) {
    w == AtTimedTest || w == TimedWait || w == TimedWoken || w == TimedOut || w == AtAfter
  }

  ghost predicate FlagInv(s: State, m: Memory) {
    && (s.startSched ==> m.started == Some(s.installed) && !m.stopped)
    && (s.terminated <==> m.terminated)
    && (s.worker == InCallback <==> m.open)
    && (s.worker == Exited <==> m.exited)
    && (s.worker == AtQuit || s.worker == Exited ==> s.terminated)
    && (s.worker == InCallback ==> !s.terminated)
    && (s.worker == AtArm || (s.worker == AtTimedTest && s.timedOut) ==> s.startSched && !s.terminated)
    && (m.stopped ==> m.late + (if IsArmed(s.worker) then 1 else 0) <= 1)
  }

  ghost predicate AlarmInv(s: State, m: Memory) {
    && 0 <= s.clock && m.latest * SECOND_NS <= s.clock
    && (IsArmed(s.worker) ==>
          && m.armed == Some(s.alarm)
          && s.alarm.fire * SECOND_NS <= s.alarm.deadline
          && (s.alarm.fire != INVALID ==> m.latest < s.alarm.fire))
    && (s.worker == TimedOut || (s.worker == AtAfter && s.timedOut) ==> s.alarm.deadline <= s.clock)
  }

  ghost predicate Inv(s: State, m: Memory) {
    MutexInv(s) && ExpressionInv(s) && WakeInv(s) && FlagInv(s, m) && AlarmInv(s, m)
  }

  /** What a step says is allowed, and the invariant holds after it. */
  ghost predicate Preserves(m: Memory, e: Label, t: State) {
    (e.Some? ==> Allowed(m, e.value)) && Inv(t, Seen(m, e))
  }

  // Who has the mutex

  lemma WorkerHasIt(s: State)
    requires MutexInv(s) && WorkerHolds(s.worker)
    ensures s.owner == ByWorker && Holder(s) == None
  {
  }

  lemma ControllerHasIt(s: State, c: nat)
    requires MutexInv(s) && c in s.controllers && ControllerHolds(s.controllers[c])
    ensures s.owner == ByController(c) && Holder(s) == Some(s.controllers[c]) && !WorkerHolds(s.worker)
  {
  }

  lemma ControllerMoves(s: State, t: State, c: nat, k: Controller)
    requires MutexInv(s) && s.owner == ByController(c)
    requires t.worker == s.worker && t.owner == s.owner && t.controllers == s.controllers[c := k]
    requires ControllerHolds(k)
    ensures MutexInv(t) && Holder(t) == Some(k)
  {
  }

  lemma OtherController(s: State, t: State, c: nat, k: Controller)
    requires MutexInv(s) && s.owner != ByController(c) && !ControllerHolds(k)
    requires t.worker == s.worker && t.owner == s.owner
    requires t.controllers == s.controllers[c := k] || t.controllers == s.controllers - {c}
    ensures MutexInv(t) && Holder(t) == Holder(s)
  {
  }

  // The worker's steps are safe

  lemma TakesMutexSafe(s: State, t: State, m: Memory)
    requires Inv(s, m) && TakesMutex(s, t)
    ensures Preserves(m, None, t)
  {
    hide NextFire, Compiled, Accepted;
  }

  lemma WaitEndsSafe(s: State, t: State, m: Memory)
    requires Inv(s, m) && WaitEnds(s, t)
    ensures Preserves(m, None, t)
  {
    hide NextFire, Compiled, Accepted;
  }

  lemma TestsTopSafe(s: State, t: State, m: Memory)
    requires Inv(s, m) && TestsTop(s, t)
    ensures Preserves(m, None, t)
  {
    hide NextFire, Compiled, Accepted;
  }

  lemma TestsIdleSafe(s: State, t: State, m: Memory)
    requires Inv(s, m) && TestsIdle(s, t)
    ensures Preserves(m, None, t)
  {
    hide NextFire, Compiled, Accepted;
  }

  lemma TestsCheckedSafe(s: State, t: State, m: Memory)
    requires Inv(s, m) && TestsChecked(s, t)
    ensures Preserves(m, None, t)
  {
    hide NextFire, Compiled, Accepted;
  }

  lemma TestsTimedSafe(s: State, t: State, m: Memory)
    requires Inv(s, m) && TestsTimed(s, t)
    ensures Preserves(m, None, t)
  {
    hide NextFire, Compiled, Accepted;
  }

  lemma SkipsCallbackSafe(s: State, t: State, m: Memory)
    requires Inv(s, m) && SkipsCallback(s, t)
    ensures Preserves(m, None, t)
  {
    hide NextFire, Compiled, Accepted;
  }

  lemma GoesRoundSafe(s: State, t: State, m: Memory)
    requires Inv(s, m) && GoesRound(s, t)
    ensures Preserves(m, None, t)
  {
    hide NextFire, Compiled, Accepted;
  }

  lemma ArmsSafe(s: State, e: Label, t: State, m: Memory)
    requires Inv(s, m) && Arms(s, e, t)
    ensures Preserves(m, e, t)
  {
    hide NextFire, Compiled, Accepted;
    WorkerHasIt(s);
    CompiledIsAccepted(s.installed);
    Progress(s.parseData, s.clock / SECOND_NS);
  }

  lemma FiresSafe(s: State, e: Label, t: State, m: Memory)
    requires Inv(s, m) && Fires(s, e, t)
    ensures Preserves(m, e, t)
  {
    hide NextFire, Compiled, Accepted;
  }

  lemma ReturnsSafe(s: State, e: Label, t: State, m: Memory)
    requires Inv(s, m) && Returns(s, e, t)
    ensures Preserves(m, e, t)
  {
    hide NextFire, Compiled, Accepted;
  }

  lemma QuitsSafe(s: State, e: Label, t: State, m: Memory)
    requires Inv(s, m) && Quits(s, e, t)
    ensures Preserves(m, e, t)
  {
    hide NextFire, Compiled, Accepted;
  }

  // The controllers' steps and the clock are safe

  lemma TicksSafe(s: State, t: State, m: Memory)
    requires Inv(s, m) && Ticks(s, t)
    ensures Preserves(m, None, t)
  {
    hide NextFire, Compiled, Accepted;
  }

  lemma CallsSafe(s: State, t: State, c: nat, op: Operation, m: Memory)
    requires Inv(s, m) && Calls(s, t, c, op)
    ensures Preserves(m, None, t)
  {
    hide NextFire, Compiled, Accepted;
    OtherController(s, t, c, Calling(op));
  }

  lemma EntersSafe(s: State, t: State, c: nat, op: Operation, m: Memory)
    requires Inv(s, m) && Enters(s, t, c, op)
    ensures Preserves(m, None, t)
  {
    hide NextFire, Compiled, Accepted;
  }

  lemma ParsesSafe(s: State, t: State, c: nat, pattern: string, m: Memory)
    requires Inv(s, m) && Parses(s, t, c, pattern)
    ensures Preserves(m, None, t)
  {
    hide NextFire, Compiled, Accepted;
    ControllerHasIt(s, c);
    ControllerMoves(s, t, c, t.controllers[c]);
  }

  lemma SetsStartSafe(s: State, e: Label, t: State, c: nat, pattern: string, m: Memory)
    requires Inv(s, m) && SetsStart(s, e, t, c, pattern)
    ensures Preserves(m, e, t)
  {
    hide NextFire, Compiled, Accepted;
    ControllerHasIt(s, c);
    ControllerMoves(s, t, c, t.controllers[c]);
  }

  lemma FailsStartSafe(s: State, e: Label, t: State, c: nat, pattern: string, m: Memory)
    requires Inv(s, m) && FailsStart(s, e, t, c, pattern)
    ensures Preserves(m, e, t)
  {
    hide NextFire, Compiled, Accepted;
    ControllerHasIt(s, c);
    ControllerMoves(s, t, c, t.controllers[c]);
  }

  lemma StopsSafe(s: State, e: Label, t: State, c: nat, m: Memory)
    requires Inv(s, m) && Stops(s, e, t, c)
    ensures Preserves(m, e, t)
  {
    hide NextFire, Compiled, Accepted;
    ControllerHasIt(s, c);
    ControllerMoves(s, t, c, t.controllers[c]);
  }

  lemma TerminatesSafe(s: State, e: Label, t: State, c: nat, m: Memory)
    requires Inv(s, m) && Terminates(s, e, t, c)
    ensures Preserves(m, e, t)
  {
    hide NextFire, Compiled, Accepted;
    ControllerHasIt(s, c);
    ControllerMoves(s, t, c, t.controllers[c]);
  }

  lemma SignalsSafe(s: State, t: State, c: nat, op: Operation, m: Memory)
    requires Inv(s, m) && Signals(s, t, c, op)
    ensures Preserves(m, None, t)
  {
    hide NextFire, Compiled, Accepted;
    ControllerHasIt(s, c);
    ControllerMoves(s, t, c, t.controllers[c]);
  }

  lemma LeavesSafe(s: State, t: State, c: nat, op: Operation, m: Memory)
    requires Inv(s, m) && Leaves(s, t, c, op)
    ensures Preserves(m, None, t)
  {
    hide NextFire, Compiled, Accepted;
    ControllerHasIt(s, c);
  }

  lemma JoinsAndFreesSafe(s: State, e: Label, t: State, c: nat, m: Memory)
    requires Inv(s, m) && JoinsAndFrees(s, e, t, c)
    ensures Preserves(m, e, t)
  {
    hide NextFire, Compiled, Accepted;
    OtherController(s, t, c, Joining);
  }
}
