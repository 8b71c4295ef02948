/**
 The whole protocol as a transition system: the scheduler thread (Scheduler.cpp), the
 workers (Worker.h), any number of control calls in progress (TreadmillFB303.cpp) and the
 runner (Treadmill.h). Any enabled step of any actor may come next, so a run is an
 arbitrary interleaving; shared accesses are sequentially consistent.
 */
module System {
  import opened Events
  import opened Dealing
  import opened MemcachedWorkload
  import opened WorkerModel

  /** The scheduler thread's position in Scheduler::loop. */
  datatype SchedulerPc =
    | NotStarted
    | Resetting(i: nat)    // messageAllWorkers(RESET), queue i is next
    | AtCheck              // before the test of the inner while
    | Ticking              // RUNNING was seen; pacing, then one SEND_REQUEST
    | AtPause              // before the test of the PAUSED loop
    | AtOuter              // before the test of the outer do-while
    | Finishing(i: nat)    // messageAllWorkers(STOP), queue i is next
    | Done                 // the loop has returned

  /** A control call that sends an event to every queue. */
  datatype Call =
    | Loading                                            // limit stored, before it is read back
    | Broadcasting(e: Event, pos: seq<nat>, resume: bool) // pos[i]: where queue i holds the event
    | Returned(e: Event, pos: seq<nat>, ends: seq<nat>)   // ends[i]: length of queue i at the return

  datatype RunnerPc =
    | Starting(i: nat)
    | Launching
    | Waiting
    | Joining
    | PollRunning(i: nat, remaining: nat, seconds: nat, passes: nat)
    | PollOutstanding(i: nat, remaining: nat, seconds: nat, passes: nat)
    | StoppingWorkers(i: nat, drained: bool)
    | Finished(drained: bool)

  datatype System = System(
    state: RunState,
    sched: SchedulerPc,
    epochs: seq<nat>,       // ticks dealt in each epoch begun
    next: nat,              // next_
    workers: seq<Worker>,
    calls: seq<Call>,
    maxOutstanding: int,    // max_outstanding_requests_ of the scheduler
    everSet: bool,          // some limit change was requested
    overlapped: bool,       // the limit change asked for last began while another was in progress
    runner: RunnerPc)

  // ---------- Initial states ----------

  /** Division of int by a positive int in C++: toward zero. */
  function TruncDiv(x: int, n: nat): int
    requires n > 0
  {
    if x >= 0 then x / n else -((-x) / n)
  }

  function InitialLimit(c: Config): int
    requires c.Valid()
  {
    TruncDiv(c.maxOutstanding, c.workers)
  }

  function InitialWorker(c: Config): Worker
    requires c.Valid()
  {
    Worker([], 0, 0, false, false, false, Idle, InitialLimit(c), 0, 0, 0, {}, {}, 0,
           seq(c.connections, _ => 0), INITIAL, "", [], 0)
  }

  function Init(c: Config): System
    requires c.Valid()
  {
    System(if c.waitForRunnerReady then PAUSED else RUNNING, NotStarted, [], 0,
           seq(c.workers, _ => InitialWorker(c)), [], ToUint32(c.maxOutstanding), false, false, Starting(0))
  }

  // ---------- Steps ----------

  datatype Step =
    | SchedulerStep
    | Pause
    | Resume
    | StartResume2(name: string)
    | StartSetMaxOutstanding(value: int)
    | CallStep(j: nat)
    | TakeStep(i: nat)
    | ActStep(i: nat, exhausted: bool)
    | CompleteStep(i: nat, id: nat)
    | RunnerStep

  function PutTo(s: System, i: nat, e: Event): System
    requires i < |s.workers|
  {
    s.(workers := s.workers[i := Put(s.workers[i], e)])
  }

  /** One access of the scheduler thread to the shared state. */
  function SchedulerNext(c: Config, s: System): System
    requires c.Valid() && |s.workers| == c.workers
  {
    match s.sched
    case NotStarted => s
    case Resetting(i) =>
      if i < c.workers then PutTo(s, i, RESET_EVENT).(sched := Resetting(i + 1))
      else s.(next := 0, sched := AtCheck)
    case AtCheck => s.(sched := if s.state == RUNNING then Ticking else AtPause)
    case Ticking =>
      if s.epochs == [] || s.next >= c.workers then s
      else PutTo(s, s.next, SEND_EVENT).(
        epochs := Bump(s.epochs),
        next := if s.next + 1 == c.workers then 0 else s.next + 1,
        sched := AtCheck)
    case AtPause => if s.state == PAUSED then s else s.(sched := AtOuter)
    case AtOuter =>
      if s.state != STOPPING then s.(epochs := s.epochs + [0], sched := Resetting(0))
      else s.(sched := Finishing(0))
    case Finishing(i) =>
      if i < c.workers then PutTo(s, i, STOP_EVENT).(sched := Finishing(i + 1))
      else s.(sched := Done)
    case Done => s
  }

  predicate IsSetter(call: Call) {
    call.Loading? || (call.Broadcasting? && call.e.kind == SET_MAX_OUTSTANDING)
  }

  predicate SetterActive(s: System) {
    exists j :: 0 <= j < |s.calls| && IsSetter(s.calls[j])
  }

  function Lens(s: System): (r: seq<nat>)
    ensures |r| == |s.workers|
  {
    seq(|s.workers|, i requires 0 <= i < |s.workers| => |s.workers[i].log|)
  }

  /** One access of control call `j` to the shared state. */
  function CallNext(c: Config, s: System, j: nat): System
    requires |s.workers| == c.workers && j < |s.calls|
  {
    match s.calls[j]
    case Loading =>
      s.(calls := s.calls[j := Broadcasting(Event(SET_MAX_OUTSTANDING, Int(s.maxOutstanding)), [], false)])
    case Broadcasting(e, pos, resume) =>
      if |pos| < c.workers then
        PutTo(s, |pos|, e).(calls := s.calls[j := Broadcasting(e, pos + [|s.workers[|pos|].log|], resume)])
      else
        s.(calls := s.calls[j := Returned(e, pos, Lens(s))],
           state := if resume && s.state == PAUSED then RUNNING else s.state)
    case Returned(_, _, _) => s
  }

  /** One access of the runner to the shared state. */
  function RunnerNext(c: Config, s: System): System
    requires c.Valid() && |s.workers| == c.workers
  {
    match s.runner
    case Starting(i) =>
      if i < c.workers then s.(workers := s.workers[i := Start(s.workers[i])], runner := Starting(i + 1))
      else s.(runner := Launching)
    case Launching => s.(epochs := [0], sched := Resetting(0), runner := Waiting)
    case Waiting => s.(state := STOPPING, runner := Joining)
    case Joining =>
      s.(runner := if c.shutdownDelay > 0 then PollRunning(0, 0, c.shutdownDelay, 1)
                   else StoppingWorkers(0, false))
    case PollRunning(i, remaining, seconds, passes) =>
      s.(runner :=
        if i < c.workers then
          if s.workers[i].running then PollRunning(i + 1, remaining + 1, seconds, passes)
          else PollOutstanding(i, remaining, seconds, passes)
        else if remaining == 0 then StoppingWorkers(0, true)
        else if seconds > 1 then PollRunning(0, 0, seconds - 1, passes + 1)
        else StoppingWorkers(0, false))
    case PollOutstanding(i, remaining, seconds, passes) =>
      if i < c.workers then
        s.(runner := PollRunning(
            i + 1, remaining + (if s.workers[i].outstanding > 0 then 1 else 0), seconds, passes))
      else s
    case StoppingWorkers(i, drained) =>
      if i < c.workers
      then s.(workers := s.workers[i := StopWorker(s.workers[i])], runner := StoppingWorkers(i + 1, drained))
      else s.(runner := Finished(drained))
    case Finished(_) => s
  }

  function ActNext(c: Config, s: System, i: nat, exhausted: bool): System
    requires c.Valid() && i < |s.workers|
    requires |s.workers[i].perConnection| == c.connections && s.workers[i].connection < c.connections
  {
    var w := s.workers[i];
    s.(workers := s.workers[i := Act(c, w, exhausted)],
       state := if w.pc.Terminating? then STOPPING else s.state)
  }

  /** setPhase aborts the process unless PAUSED when --wait_for_runner_ready is given. */
  ghost predicate Enabled(c: Config, s: System, step: Step)
    requires c.Valid() && |s.workers| == c.workers
  {
    match step
    case SchedulerStep => !s.sched.NotStarted? && !s.sched.Done?
    case Pause => true
    case Resume => true
    case StartResume2(_) => c.waitForRunnerReady ==> s.state == PAUSED
    case StartSetMaxOutstanding(value) => IsInt32(value)
    case CallStep(j) => j < |s.calls| && !s.calls[j].Returned?
    case TakeStep(i) => i < c.workers && CanTake(s.workers[i])
    case ActStep(i, _) =>
      && i < c.workers
      && !s.workers[i].pc.Idle?
      && |s.workers[i].perConnection| == c.connections
      && s.workers[i].connection < c.connections
    case CompleteStep(i, id) => i < c.workers && CanComplete(s.workers[i], id)
    case RunnerStep => !s.runner.Finished? && (s.runner.Joining? ==> s.sched.Done?)
  }

  function Apply(c: Config, s: System, step: Step): System
    requires c.Valid() && |s.workers| == c.workers && Enabled(c, s, step)
  {
    match step
    case SchedulerStep => SchedulerNext(c, s)
    case Pause => if s.state == RUNNING then s.(state := PAUSED) else s
    case Resume => if s.state == PAUSED then s.(state := RUNNING) else s
    case StartResume2(name) =>
      s.(calls := s.calls + [Broadcasting(Event(SET_PHASE, Str(name)), [], true)])
    case StartSetMaxOutstanding(value) =>
      s.(maxOutstanding := ToUint32(value), everSet := true,
         overlapped := SetterActive(s), calls := s.calls + [Loading])
    case CallStep(j) => CallNext(c, s, j)
    case TakeStep(i) => s.(workers := s.workers[i := Take(s.workers[i])])
    case ActStep(i, exhausted) => ActNext(c, s, i, exhausted)
    case CompleteStep(i, id) => s.(workers := s.workers[i := Complete(s.workers[i], id)])
    case RunnerStep => RunnerNext(c, s)
  }

  ghost predicate Next(c: Config, s: System, s': System)
    requires c.Valid()
  {
    |s.workers| == c.workers && exists step :: Enabled(c, s, step) && s' == Apply(c, s, step)
  }

  ghost predicate StepTaken(c: Config, run: seq<System>, k: nat)
    requires c.Valid() && k + 1 < |run|
  {
    Next(c, run[k], run[k + 1])
  }

  /** A finite sequence of states, each reached from the one before by a step of some actor. */
  ghost predicate IsPath(c: Config, run: seq<System>)
    requires c.Valid()
  {
    |run| > 0 && forall k :: 0 <= k < |run| - 1 ==> StepTaken(c, run, k)
  }

  /** A run of the program: a path from the initial state. */
  ghost predicate IsRun(c: Config, run: seq<System>)
    requires c.Valid()
  {
    IsPath(c, run) && run[0] == Init(c)
  }
}
