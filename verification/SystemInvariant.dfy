/**
 The inductive invariant of the protocol, in parts that are kept by every step of every
 actor: what the scheduler has dealt, what each worker made of it, who may have stopped
 running, what the runner knows from polling, and where the control calls stand.
 */
module SystemInvariant {
  import opened Events
  import opened Dealing
  import opened WorkerModel
  import opened WorkerInvariant
  import opened System

  // ---------- What the scheduler has dealt ----------

  /** The epochs whose RESET queue `i` already holds. */
  function Begun(s: System, i: nat): seq<nat> {
    if s.sched.Resetting? && i >= s.sched.i && s.epochs != []
    then s.epochs[..|s.epochs| - 1] else s.epochs
  }

  predicate StopPut(s: System, i: nat) {
    s.sched.Done? || (s.sched.Finishing? && i < s.sched.i)
  }

  /** Exactly what the scheduler thread should have put into queue `i`. */
  function Expected(c: Config, s: System, i: nat): seq<Event>
    requires c.Valid()
  {
    var dealt := Dealings(Begun(s, i), c.workers, i);
    if StopPut(s, i) then dealt + [STOP_EVENT] else dealt
  }

  ghost predicate SchedulerPosition(c: Config, s: System)
    requires c.Valid()
  {
    && (s.sched.NotStarted? <==> s.runner.Starting? || s.runner.Launching?)
    && (s.sched.NotStarted? <==> s.epochs == [])
    && (s.sched.Resetting? ==> s.sched.i <= c.workers && s.epochs[|s.epochs| - 1] == 0)
    && (s.sched.AtCheck? || s.sched.Ticking? ==> s.next == Pointer(s.epochs[|s.epochs| - 1], c.workers) < c.workers)
    && (s.sched.Finishing? ==> s.sched.i <= c.workers)
    && (s.sched.Finishing? || s.sched.Done? ==> s.state == STOPPING)
  }

  ghost predicate QueuesDealt(c: Config, s: System)
    requires c.Valid() && |s.workers| == c.workers
  {
    forall i :: 0 <= i < c.workers ==> SchedulerPart(s.workers[i].log) == Expected(c, s, i)
  }

  ghost predicate SchedulerInv(c: Config, s: System)
    requires c.Valid()
  {
    |s.workers| == c.workers && SchedulerPosition(c, s) && QueuesDealt(c, s)
  }

  ghost predicate SameLogs(s: System, s': System) {
    |s.workers| == |s'.workers| &&
    forall k :: 0 <= k < |s.workers| ==> s'.workers[k].log == s.workers[k].log
  }

  lemma DealNothing(c: Config, s: System, s': System)
    requires c.Valid() && |s.workers| == c.workers && QueuesDealt(c, s) && SameLogs(s, s')
    requires forall k :: 0 <= k < c.workers ==> Begun(s', k) == Begun(s, k) && StopPut(s', k) == StopPut(s, k)
    ensures QueuesDealt(c, s')
  {
    forall k | 0 <= k < c.workers
      ensures SchedulerPart(s'.workers[k].log) == Expected(c, s', k)
    {
      assert SchedulerPart(s.workers[k].log) == Expected(c, s, k);
    }
  }

  /** A step of another actor that leaves the logs alone. */
  lemma SchedulerUntouched(c: Config, s: System, s': System)
    requires c.Valid() && SchedulerInv(c, s) && SameLogs(s, s')
    requires s'.sched == s.sched && s'.epochs == s.epochs && s'.next == s.next
    requires s.state == STOPPING ==> s'.state == STOPPING
    requires s'.runner.Starting? || s'.runner.Launching? <==> s.runner.Starting? || s.runner.Launching?
    ensures SchedulerInv(c, s')
  {
    DealNothing(c, s, s');
  }

  /** Putting one event into queue `i` keeps the queues as dealt if it is what queue `i` should get next. */
  lemma DealOne(c: Config, s: System, s': System, i: nat, e: Event)
    requires c.Valid() && |s.workers| == c.workers && QueuesDealt(c, s) && i < c.workers
    requires FromScheduler(e) && s'.workers == PutTo(s, i, e).workers
    requires forall k :: 0 <= k < c.workers ==>
               Expected(c, s', k) == if k == i then Expected(c, s, k) + [e] else Expected(c, s, k)
    ensures QueuesDealt(c, s')
  {
    PartAppend(s.workers[i].log, e);
    forall k | 0 <= k < c.workers
      ensures SchedulerPart(s'.workers[k].log) == Expected(c, s', k)
    {
      assert SchedulerPart(s.workers[k].log) == Expected(c, s, k);
    }
  }

  lemma ExpectedOnReset(c: Config, s: System, k: nat)
    requires c.Valid() && SchedulerPosition(c, s) && |s.workers| == c.workers && k < c.workers
    requires s.sched.Resetting? && s.sched.i < c.workers
    ensures
      var s' := s.(sched := Resetting(s.sched.i + 1));
      Expected(c, s', k) == if k == s.sched.i then Expected(c, s, k) + [RESET_EVENT] else Expected(c, s, k)
  {
    var front := s.epochs[..|s.epochs| - 1];
    if k == s.sched.i {
      assert s.epochs == front + [0];
      DealNewEpoch(front, c.workers, k);
    }
  }

  lemma OnReset(c: Config, s: System)
    requires c.Valid() && SchedulerInv(c, s) && s.sched.Resetting? && s.sched.i < c.workers
    ensures SchedulerInv(c, SchedulerNext(c, s))
  {
    var i, s' := s.sched.i, SchedulerNext(c, s);
    forall k | 0 <= k < c.workers
      ensures Expected(c, s', k) == if k == i then Expected(c, s, k) + [RESET_EVENT] else Expected(c, s, k)
    {
      ExpectedOnReset(c, s, k);
    }
    DealOne(c, s, s', i, RESET_EVENT);
  }

  lemma ExpectedOnTick(c: Config, s: System, i: nat)
    requires c.Valid() && SchedulerInv(c, s) && s.sched.Ticking? && i < c.workers
    ensures Expected(c, SchedulerNext(c, s), i) ==
            if i == s.next then Expected(c, s, i) + [SEND_EVENT] else Expected(c, s, i)
  {
    DealTick(s.epochs, c.workers, i);
  }

  lemma PositionOnTick(c: Config, s: System)
    requires c.Valid() && |s.workers| == c.workers && SchedulerPosition(c, s) && s.sched.Ticking?
    ensures SchedulerPosition(c, SchedulerNext(c, s))
  {
    PointerInRange(s.epochs[|s.epochs| - 1] + 1, c.workers);
  }

  lemma OnTick(c: Config, s: System)
    requires c.Valid() && SchedulerInv(c, s) && s.sched.Ticking?
    ensures SchedulerInv(c, SchedulerNext(c, s))
  {
    var s' := SchedulerNext(c, s);
    PositionOnTick(c, s);
    forall i | 0 <= i < c.workers
      ensures Expected(c, s', i) == if i == s.next then Expected(c, s, i) + [SEND_EVENT] else Expected(c, s, i)
    {
      ExpectedOnTick(c, s, i);
    }
    DealOne(c, s, s', s.next, SEND_EVENT);
  }

  lemma OnStop(c: Config, s: System)
    requires c.Valid() && SchedulerInv(c, s) && s.sched.Finishing? && s.sched.i < c.workers
    ensures SchedulerInv(c, SchedulerNext(c, s))
  {
    DealOne(c, s, SchedulerNext(c, s), s.sched.i, STOP_EVENT);
  }

  /** All RESETs are put: the inner loop begins. */
  lemma OnEpochStart(c: Config, s: System)
    requires c.Valid() && SchedulerInv(c, s) && s.sched.Resetting? && s.sched.i == c.workers
    ensures SchedulerInv(c, SchedulerNext(c, s))
  {
    DealNothing(c, s, SchedulerNext(c, s));
  }

  /** The moves of the scheduler that put nothing and begin no epoch. */
  lemma OnTest(c: Config, s: System)
    requires c.Valid() && SchedulerInv(c, s) && !s.sched.Ticking? && !s.sched.Resetting?
    requires s.sched.Finishing? ==> s.sched.i == c.workers
    requires s.sched.AtOuter? ==> s.state == STOPPING
    ensures SchedulerInv(c, SchedulerNext(c, s))
  {
    var s' := SchedulerNext(c, s);
    assert s'.workers == s.workers && s'.epochs == s.epochs && s'.next == s.next;
    assert forall k :: 0 <= k < c.workers ==> Begun(s', k) == Begun(s, k) && StopPut(s', k) == StopPut(s, k);
    DealNothing(c, s, s');
  }

  lemma OnNewEpoch(c: Config, s: System)
    requires c.Valid() && SchedulerInv(c, s) && s.sched.AtOuter? && s.state != STOPPING
    ensures SchedulerInv(c, SchedulerNext(c, s))
  {
    assert (s.epochs + [0])[..|s.epochs|] == s.epochs;
    DealNothing(c, s, SchedulerNext(c, s));
  }

  lemma SchedulerInvOnScheduler(c: Config, s: System)
    requires c.Valid() && SchedulerInv(c, s)
    ensures SchedulerInv(c, SchedulerNext(c, s))
  {
    if s.sched.Ticking? {
      OnTick(c, s);
    } else if s.sched.Resetting? && s.sched.i < c.workers {
      OnReset(c, s);
    } else if s.sched.Resetting? {
      OnEpochStart(c, s);
    } else if s.sched.Finishing? && s.sched.i < c.workers {
      OnStop(c, s);
    } else if s.sched.AtOuter? && s.state != STOPPING {
      OnNewEpoch(c, s);
    } else {
      OnTest(c, s);
    }
  }

  lemma SchedulerInvOnForeignPut(c: Config, s: System, i: nat, e: Event)
    requires c.Valid() && SchedulerInv(c, s) && i < c.workers && !FromScheduler(e)
    ensures SchedulerInv(c, PutTo(s, i, e))
  {
    var s' := PutTo(s, i, e);
    ForeignPut(s.workers[i].log, e);
    forall k | 0 <= k < c.workers
      ensures SchedulerPart(s'.workers[k].log) == Expected(c, s', k)
    {
      assert SchedulerPart(s.workers[k].log) == Expected(c, s, k);
      assert Expected(c, s', k) == Expected(c, s, k);
      assert k != i ==> s'.workers[k].log == s.workers[k].log;
    }
  }

  lemma SchedulerInvOnCall(c: Config, s: System, j: nat)
    requires c.Valid() && SchedulerInv(c, s) && j < |s.calls|
    requires s.calls[j].Broadcasting? ==> !FromScheduler(s.calls[j].e)
    ensures SchedulerInv(c, CallNext(c, s, j))
  {
    var call, s' := s.calls[j], CallNext(c, s, j);
    if call.Broadcasting? && |call.pos| < c.workers {
      SchedulerInvOnForeignPut(c, s, |call.pos|, call.e);
      SchedulerUntouched(c, PutTo(s, |call.pos|, call.e), s');
    } else {
      SchedulerUntouched(c, s, s');
    }
  }

  lemma RunnerKeepsLogs(c: Config, s: System)
    requires c.Valid() && |s.workers| == c.workers
    ensures SameLogs(s, RunnerNext(c, s))
  {
  }

  lemma SchedulerInvOnRunner(c: Config, s: System)
    requires c.Valid() && SchedulerInv(c, s)
    ensures SchedulerInv(c, RunnerNext(c, s))
  {
    var s' := RunnerNext(c, s);
    RunnerKeepsLogs(c, s);
    if s.runner.Launching? {
      assert forall k :: 0 <= k < c.workers ==> Begun(s', k) == [] == Begun(s, k);
      DealNothing(c, s, s');
    } else {
      SchedulerUntouched(c, s, s');
    }
  }

  lemma SchedulerInvStep(c: Config, s: System, step: Step)
    requires c.Valid() && SchedulerInv(c, s) && CallsInv(c, s) && Enabled(c, s, step)
    ensures SchedulerInv(c, Apply(c, s, step))
  {
    match step
    case SchedulerStep => SchedulerInvOnScheduler(c, s);
    case CallStep(j) =>
      assert CallInv(c, s, s.calls[j]);
      SchedulerInvOnCall(c, s, j);
    case ActStep(i, exhausted) => SchedulerUntouched(c, s, ActNext(c, s, i, exhausted));
    case RunnerStep => SchedulerInvOnRunner(c, s);
    case _ => SchedulerUntouched(c, s, Apply(c, s, step));
  }

  /** The dealt events follow the grammar (RESET SEND_REQUEST*)+ STOP. */
  lemma DealtLogIsGrammatical(c: Config, s: System, i: nat)
    requires c.Valid() && SchedulerInv(c, s) && i < c.workers
    ensures Grammatical(s.workers[i].log)
    ensures Automaton(SchedulerPart(s.workers[i].log)) == 2 <==> StopPut(s, i)
    ensures STOP_EVENT in s.workers[i].log <==> StopPut(s, i)
  {
    var part, dealt := SchedulerPart(s.workers[i].log), Dealings(Begun(s, i), c.workers, i);
    DealingsGrammar(Begun(s, i), c.workers, i);
    if StopPut(s, i) {
      assert part == dealt + [STOP_EVENT] && part[|dealt|] == STOP_EVENT;
    } else {
      assert part == dealt;
    }
    PartKeepsMembers(s.workers[i].log, STOP_EVENT);
  }

  // ---------- Control calls ----------

  ghost predicate CallInv(c: Config, s: System, call: Call)
    requires |s.workers| == c.workers
  {
    match call
    case Loading => true
    case Broadcasting(e, pos, _) =>
      && !FromScheduler(e)
      && |pos| <= c.workers
      && (forall i :: 0 <= i < |pos| ==> pos[i] < |s.workers[i].log| && s.workers[i].log[pos[i]] == e)
    case Returned(e, pos, ends) =>
      && |pos| == |ends| == c.workers
      && (forall i :: 0 <= i < c.workers ==>
            pos[i] < ends[i] <= |s.workers[i].log| && s.workers[i].log[pos[i]] == e)
  }

  ghost predicate CallsInv(c: Config, s: System) {
    |s.workers| == c.workers && forall j :: 0 <= j < |s.calls| ==> CallInv(c, s, s.calls[j])
  }

  ghost predicate LogsGrow(s: System, s': System) {
    |s.workers| == |s'.workers| &&
    forall i :: 0 <= i < |s.workers| ==> s.workers[i].log <= s'.workers[i].log
  }

  lemma CallInvGrows(c: Config, s: System, s': System, call: Call)
    requires |s.workers| == c.workers && LogsGrow(s, s') && CallInv(c, s, call)
    ensures CallInv(c, s', call)
  {
  }

  lemma LogsGrowStep(c: Config, s: System, step: Step)
    requires c.Valid() && |s.workers| == c.workers && Enabled(c, s, step)
    ensures LogsGrow(s, Apply(c, s, step))
  {
    var s' := Apply(c, s, step);
    StepChangesWorker(c, s, step, 0);
    forall i | 0 <= i < c.workers
      ensures s.workers[i].log <= s'.workers[i].log
    {
      StepChangesWorker(c, s, step, i);
    }
  }

  lemma CallsInvStep(c: Config, s: System, step: Step)
    requires c.Valid() && CallsInv(c, s) && Enabled(c, s, step)
    ensures CallsInv(c, Apply(c, s, step))
  {
    var s' := Apply(c, s, step);
    LogsGrowStep(c, s, step);
    forall j | 0 <= j < |s'.calls|
      ensures CallInv(c, s', s'.calls[j])
    {
      if j < |s.calls| {
        CallInvGrows(c, s, s', s.calls[j]);
        if step == CallStep(j) {
          CallInvOnCall(c, s, j);
        } else {
          assert s'.calls[j] == s.calls[j];
        }
      }
    }
  }

  lemma CallInvOnCall(c: Config, s: System, j: nat)
    requires |s.workers| == c.workers && j < |s.calls| && CallInv(c, s, s.calls[j])
    ensures CallInv(c, CallNext(c, s, j), CallNext(c, s, j).calls[j])
  {
  }

  // ---------- What each worker made of its queue ----------

  ghost predicate WorkersInv(c: Config, s: System)
    requires c.Valid()
  {
    |s.workers| == c.workers &&
    forall i :: 0 <= i < c.workers ==> WorkerInv(c, InitialLimit(c), s.workers[i])
  }

  /** A step changes a worker by at most one of its actions. */
  ghost predicate WorkerChange(c: Config, s: System, step: Step, w: Worker, w': Worker)
    requires c.Valid()
  {
    || w' == w
    || (exists e :: w' == Put(w, e))
    || (step.TakeStep? && CanTake(w) && w' == Take(w))
    || (step.ActStep? && !w.pc.Idle? && |w.perConnection| == c.connections && w.connection < c.connections
        && w' == Act(c, w, step.exhausted))
    || (step.CompleteStep? && CanComplete(w, step.id) && w' == Complete(w, step.id))
    || (step.RunnerStep? && s.runner.Starting? && w' == Start(w))
    || (step.RunnerStep? && s.runner.StoppingWorkers? && w' == StopWorker(w))
  }

  lemma StepChangesWorker(c: Config, s: System, step: Step, i: nat)
    requires c.Valid() && |s.workers| == c.workers && Enabled(c, s, step) && i < c.workers
    ensures |Apply(c, s, step).workers| == c.workers
    ensures WorkerChange(c, s, step, s.workers[i], Apply(c, s, step).workers[i])
  {
    match step
    case SchedulerStep => SchedulerChangesWorker(c, s, i);
    case CallStep(j) => CallChangesWorker(c, s, j, i);
    case RunnerStep => RunnerChangesWorker(c, s, i);
    case _ =>
  }

  lemma SchedulerChangesWorker(c: Config, s: System, i: nat)
    requires c.Valid() && |s.workers| == c.workers && i < c.workers
    ensures
      var w, w' := s.workers[i], SchedulerNext(c, s).workers[i];
      w' == w || w' == Put(w, RESET_EVENT) || w' == Put(w, SEND_EVENT) || w' == Put(w, STOP_EVENT)
  {
  }

  lemma CallChangesWorker(c: Config, s: System, j: nat, i: nat)
    requires c.Valid() && |s.workers| == c.workers && i < c.workers && j < |s.calls|
    ensures
      var w, w' := s.workers[i], CallNext(c, s, j).workers[i];
      w' == w || (s.calls[j].Broadcasting? && w' == Put(w, s.calls[j].e))
  {
  }

  lemma RunnerChangesWorker(c: Config, s: System, i: nat)
    requires c.Valid() && |s.workers| == c.workers && i < c.workers
    ensures
      var w, w' := s.workers[i], RunnerNext(c, s).workers[i];
      || w' == w
      || (s.runner == Starting(i) && w' == Start(w))
      || (s.runner.StoppingWorkers? && w' == StopWorker(w))
  {
  }

  lemma WorkerInvStart(c: Config, initialLimit: int, w: Worker)
    requires c.Valid() && WorkerInv(c, initialLimit, w)
    ensures WorkerInv(c, initialLimit, StopWorker(w))
    ensures !w.started ==> WorkerInv(c, initialLimit, Start(w))
  {
  }

  lemma WorkerInvChange(c: Config, s: System, step: Step, w: Worker, w': Worker)
    requires c.Valid() && WorkerChange(c, s, step, w, w')
    requires WorkerInv(c, InitialLimit(c), w) && Grammatical(w.log)
    requires step.RunnerStep? && s.runner.Starting? && w' != w ==> !w.started
    ensures WorkerInv(c, InitialLimit(c), w')
  {
    var limit := InitialLimit(c);
    if w' == w {
    } else if step.TakeStep? && CanTake(w) && w' == Take(w) {
      WorkerInvTake(c, limit, w);
    } else if step.ActStep? && w' == Act(c, w, step.exhausted) {
      WorkerInvAct(c, limit, w, step.exhausted);
    } else if step.CompleteStep? && CanComplete(w, step.id) && w' == Complete(w, step.id) {
      WorkerInvComplete(c, limit, w, step.id);
    } else if step.RunnerStep? && (w' == Start(w) || w' == StopWorker(w)) {
      WorkerInvStart(c, limit, w);
    } else {
      var e :| w' == Put(w, e);
      WorkerInvPut(c, limit, w, e);
    }
  }

  lemma WorkersInvStep(c: Config, s: System, step: Step)
    requires c.Valid() && SchedulerInv(c, s) && WorkersInv(c, s) && StopInv(c, s) && Enabled(c, s, step)
    ensures WorkersInv(c, Apply(c, s, step))
  {
    var s' := Apply(c, s, step);
    assert |s'.workers| == c.workers by {
      StepChangesWorker(c, s, step, 0);
    }
    forall i | 0 <= i < c.workers
      ensures WorkerInv(c, InitialLimit(c), s'.workers[i])
    {
      StepChangesWorker(c, s, step, i);
      DealtLogIsGrammatical(c, s, i);
      assert HaltInv(c, s, i);
      if step.RunnerStep? {
        RunnerChangesWorker(c, s, i);
      }
      WorkerInvChange(c, s, step, s.workers[i], s'.workers[i]);
    }
  }

  // ---------- Who may have stopped running ----------

  predicate ShuttingDown(r: RunnerPc) {
    r.StoppingWorkers? || r.Finished?
  }

  predicate SchedulerStopped(r: RunnerPc) {
    r.Joining? || r.PollRunning? || r.PollOutstanding? || ShuttingDown(r)
  }

  /** Worker `i` stopped running only for a reason that makes the scheduler STOPPING. */
  predicate Halts(state: RunState, runner: RunnerPc, i: nat, w: Worker) {
    && (w.started && !w.running && !w.pc.Terminating? ==> state == STOPPING)
    && (w.pc.Halting? ==> state == STOPPING)
    && (w.pc.Terminating? ==> w.started && !w.running)
    && (w.pc.Sending? && !w.running ==> ShuttingDown(runner))
    && (runner.Starting? ==> (w.started <==> i < runner.i))
  }

  ghost predicate HaltInv(c: Config, s: System, i: nat)
    requires i < |s.workers|
  {
    Halts(s.state, s.runner, i, s.workers[i])
  }

  ghost predicate StopInv(c: Config, s: System)
    requires c.Valid()
  {
    && |s.workers| == c.workers
    && (SchedulerStopped(s.runner) ==> s.state == STOPPING)
    && (forall i :: 0 <= i < c.workers ==> HaltInv(c, s, i))
  }

  /** STOPPING is absorbing. */
  lemma StoppingIsAbsorbing(c: Config, s: System, step: Step)
    requires c.Valid() && |s.workers| == c.workers && Enabled(c, s, step) && s.state == STOPPING
    ensures Apply(c, s, step).state == STOPPING
  {
    match step
    case CallStep(j) =>
      match s.calls[j] {
        case Broadcasting(e, pos, resume) =>
        case _ =>
      }
    case _ =>
  }

  /** A worker that handles STOP, or finds itself not running, does so only when the scheduler is STOPPING. */
  lemma HaltingMeansStopping(c: Config, s: System, i: nat, e: Event)
    requires c.Valid() && SchedulerInv(c, s) && WorkersInv(c, s) && StopInv(c, s) && i < c.workers
    requires s.workers[i].pc == Handling(e) && (e.kind == STOP || !s.workers[i].running)
    ensures s.state == STOPPING
  {
    var w := s.workers[i];
    assert HaltInv(c, s, i);
    assert WorkerInv(c, InitialLimit(c), w);
    if w.running {
      DealtLogIsGrammatical(c, s, i);
      GrammaticalNext(w.log, w.live, Lengths(w.outcomes));
      assert STOP_EVENT in w.log;
    }
  }

  lemma HaltsOnAct(c: Config, state: RunState, runner: RunnerPc, i: nat, w: Worker, exhausted: bool)
    requires c.Valid() && |w.perConnection| == c.connections && w.connection < c.connections
    requires Position(w) && Halts(state, runner, i, w)
    requires w.pc.Handling? && (w.pc.e.kind == STOP || !w.running) ==> state == STOPPING
    ensures Halts(if w.pc.Terminating? then STOPPING else state, runner, i, Act(c, w, exhausted))
  {
  }

  lemma HaltsOnChange(c: Config, s: System, step: Step, i: nat, w: Worker, w': Worker, state': RunState)
    requires c.Valid() && Halts(s.state, s.runner, i, w) && WorkerChange(c, s, step, w, w') && !step.ActStep?
    requires s.state == STOPPING ==> state' == STOPPING
    requires SchedulerStopped(s.runner) ==> s.state == STOPPING
    requires !step.RunnerStep?
    ensures Halts(state', s.runner, i, w')
  {
  }

  lemma HaltsOnRunner(c: Config, s: System, i: nat)
    requires c.Valid() && |s.workers| == c.workers && i < c.workers && Halts(s.state, s.runner, i, s.workers[i])
    requires SchedulerStopped(s.runner) ==> s.state == STOPPING
    ensures Halts(RunnerNext(c, s).state, RunnerNext(c, s).runner, i, RunnerNext(c, s).workers[i])
  {
    RunnerChangesWorker(c, s, i);
  }

  lemma RunnerOrder(c: Config, s: System, step: Step)
    requires c.Valid() && |s.workers| == c.workers && Enabled(c, s, step)
    requires SchedulerStopped(s.runner) ==> s.state == STOPPING
    ensures
      var s' := Apply(c, s, step);
      && (SchedulerStopped(s'.runner) ==> s'.state == STOPPING)
      && (ShuttingDown(s.runner) ==> ShuttingDown(s'.runner))
      && (s'.runner.Starting? ==> s.runner.Starting?)
      && (!step.RunnerStep? ==> s'.runner == s.runner)
  {
    if s.state == STOPPING {
      StoppingIsAbsorbing(c, s, step);
    }
    match step
    case CallStep(j) =>
      match s.calls[j] {
        case Broadcasting(e, pos, resume) =>
        case _ =>
      }
    case _ =>
  }

  lemma HaltInvChange(c: Config, s: System, step: Step, i: nat)
    requires c.Valid() && SchedulerInv(c, s) && WorkersInv(c, s) && StopInv(c, s)
    requires Enabled(c, s, step) && i < c.workers
    ensures |Apply(c, s, step).workers| == c.workers && HaltInv(c, Apply(c, s, step), i)
  {
    var s', w := Apply(c, s, step), s.workers[i];
    StepChangesWorker(c, s, step, i);
    RunnerOrder(c, s, step);
    assert HaltInv(c, s, i);
    if s.state == STOPPING {
      StoppingIsAbsorbing(c, s, step);
    }
    if step.RunnerStep? {
      HaltsOnRunner(c, s, i);
    } else if step.ActStep? && step.i == i {
      if w.pc.Handling? && (w.pc.e.kind == STOP || !w.running) {
        HaltingMeansStopping(c, s, i, w.pc.e);
      }
      assert WorkerInv(c, InitialLimit(c), w);
      HaltsOnAct(c, s.state, s.runner, i, w, step.exhausted);
    } else if !step.ActStep? {
      HaltsOnChange(c, s, step, i, w, s'.workers[i], s'.state);
    }
  }

  lemma StopInvStep(c: Config, s: System, step: Step)
    requires c.Valid() && SchedulerInv(c, s) && WorkersInv(c, s) && StopInv(c, s) && Enabled(c, s, step)
    ensures StopInv(c, Apply(c, s, step))
  {
    RunnerOrder(c, s, step);
    forall i | 0 <= i < c.workers
      ensures |Apply(c, s, step).workers| == c.workers && HaltInv(c, Apply(c, s, step), i)
    {
      HaltInvChange(c, s, step, i);
    }
    assert HaltInv(c, Apply(c, s, step), 0);
  }

  // ---------- What the runner knows from polling ----------

  ghost predicate QuietUpTo(s: System, k: nat)
    requires k <= |s.workers|
  {
    forall j :: 0 <= j < k ==> Quiet(s.workers[j])
  }

  ghost predicate PollInv(c: Config, s: System)
    requires c.Valid() && |s.workers| == c.workers
  {
    match s.runner
    case PollRunning(i, remaining, seconds, passes) =>
      && i <= c.workers && 1 <= seconds && passes + seconds == c.shutdownDelay + 1
      && (remaining == 0 ==> QuietUpTo(s, i))
    case PollOutstanding(i, remaining, seconds, passes) =>
      && i < c.workers && 1 <= seconds && passes + seconds == c.shutdownDelay + 1
      && (remaining == 0 ==> QuietUpTo(s, i))
      && !s.workers[i].running && !s.workers[i].pc.Sending?
    case StoppingWorkers(i, drained) => i <= c.workers && (drained ==> QuietUpTo(s, c.workers))
    case Finished(drained) => drained ==> QuietUpTo(s, c.workers)
    case _ => true
  }

  /** Being quiet is stable: no action of any actor but a start can end it. */
  lemma QuietIsStable(c: Config, s: System, step: Step, w: Worker, w': Worker)
    requires c.Valid() && w.outstanding == |w.inFlight| && WorkerChange(c, s, step, w, w') && !s.runner.Starting?
    ensures !w.running ==> !w'.running
    ensures !w.running && !w.pc.Sending? ==> !w'.pc.Sending?
    ensures Quiet(w) ==> Quiet(w')
  {
  }

  lemma QuietStaysUpTo(c: Config, s: System, step: Step, k: nat)
    requires c.Valid() && WorkersInv(c, s) && Enabled(c, s, step) && !s.runner.Starting?
    requires k <= c.workers && QuietUpTo(s, k)
    ensures |Apply(c, s, step).workers| == c.workers && QuietUpTo(Apply(c, s, step), k)
  {
    StepChangesWorker(c, s, step, 0);
    forall j | 0 <= j < k
      ensures Quiet(Apply(c, s, step).workers[j])
    {
      StepChangesWorker(c, s, step, j);
      assert WorkerInv(c, InitialLimit(c), s.workers[j]);
      QuietIsStable(c, s, step, s.workers[j], Apply(c, s, step).workers[j]);
    }
  }

  lemma PollInvOnRunner(c: Config, s: System)
    requires c.Valid() && |s.workers| == c.workers && PollInv(c, s)
    requires forall i :: 0 <= i < c.workers ==> 0 <= s.workers[i].outstanding && HaltInv(c, s, i)
    ensures PollInv(c, RunnerNext(c, s))
  {
    match s.runner
    case PollRunning(i, remaining, seconds, passes) =>
      if i < c.workers {
        assert HaltInv(c, s, i);
      }
    case StoppingWorkers(i, drained) =>
      assert drained ==> QuietUpTo(RunnerNext(c, s), c.workers);
    case _ =>
  }

  lemma PollInvStep(c: Config, s: System, step: Step)
    requires c.Valid() && WorkersInv(c, s) && StopInv(c, s) && PollInv(c, s) && Enabled(c, s, step)
    ensures |Apply(c, s, step).workers| == c.workers && PollInv(c, Apply(c, s, step))
  {
    var s' := Apply(c, s, step);
    StepChangesWorker(c, s, step, 0);
    if step.RunnerStep? {
      forall i | 0 <= i < c.workers
        ensures 0 <= s.workers[i].outstanding && HaltInv(c, s, i)
      {
        assert WorkerInv(c, InitialLimit(c), s.workers[i]);
      }
      PollInvOnRunner(c, s);
    } else {
      RunnerOrder(c, s, step);
      PollInvOnOthers(c, s, step);
    }
  }

  lemma PollInvOnOthers(c: Config, s: System, step: Step)
    requires c.Valid() && WorkersInv(c, s) && StopInv(c, s) && PollInv(c, s) && Enabled(c, s, step)
    requires !step.RunnerStep? && Apply(c, s, step).runner == s.runner
    ensures |Apply(c, s, step).workers| == c.workers && PollInv(c, Apply(c, s, step))
  {
    var s' := Apply(c, s, step);
    StepChangesWorker(c, s, step, 0);
    match s.runner
    case PollRunning(i, remaining, _, _) =>
      if remaining == 0 {
        QuietStaysUpTo(c, s, step, i);
      }
    case PollOutstanding(i, remaining, _, _) =>
      if remaining == 0 {
        QuietStaysUpTo(c, s, step, i);
      }
      StepChangesWorker(c, s, step, i);
      assert WorkerInv(c, InitialLimit(c), s.workers[i]);
      QuietIsStable(c, s, step, s.workers[i], s'.workers[i]);
    case StoppingWorkers(_, drained) =>
      if drained {
        QuietStaysUpTo(c, s, step, c.workers);
      }
    case Finished(drained) =>
      if drained {
        QuietStaysUpTo(c, s, step, c.workers);
      }
    case _ =>
  }

  // ---------- Serialised limit changes ----------

  /** Every limit change in progress has already reached queue `i`. */
  ghost predicate Informed(s: System, i: nat) {
    forall j :: 0 <= j < |s.calls| && IsSetter(s.calls[j]) ==>
      s.calls[j].Broadcasting? && i < |s.calls[j].pos|
  }

  /** The limit last asked for, as a worker will see it. */
  function CurrentLimit(c: Config, s: System): int
    requires c.Valid()
  {
    if s.everSet then ToInt32(s.maxOutstanding) else InitialLimit(c)
  }

  ghost predicate SettersInv(c: Config, s: System)
    requires c.Valid() && |s.workers| == c.workers
  {
    && (forall j :: 0 <= j < |s.calls| && IsSetter(s.calls[j]) ==> s.everSet)
    && (!s.everSet ==> forall i :: 0 <= i < c.workers ==> NoLimitChange(s.workers[i].log))
    && (!s.overlapped ==>
          && (forall j, k :: 0 <= j < k < |s.calls| ==> !(IsSetter(s.calls[j]) && IsSetter(s.calls[k])))
          && (forall j :: 0 <= j < |s.calls| && IsSetter(s.calls[j]) && s.calls[j].Broadcasting? ==>
                s.calls[j].e == Event(SET_MAX_OUTSTANDING, Int(s.maxOutstanding)))
          && (forall i :: 0 <= i < c.workers && Informed(s, i) ==>
                LimitAfter(InitialLimit(c), s.workers[i].log) == CurrentLimit(c, s)))
  }

  ghost predicate SameLimits(c: Config, s: System, s': System)
    requires c.Valid()
  {
    |s.workers| == |s'.workers| == c.workers &&
    forall i :: 0 <= i < c.workers ==> SameLimit(InitialLimit(c), s.workers[i].log, s'.workers[i].log)
  }

  ghost predicate SameLimit(initial: int, log: seq<Event>, log': seq<Event>) {
    && LimitAfter(initial, log') == LimitAfter(initial, log)
    && (NoLimitChange(log) ==> NoLimitChange(log'))
  }

  lemma SettersUntouched(c: Config, s: System, s': System)
    requires c.Valid() && |s.workers| == c.workers && SettersInv(c, s) && SameLimits(c, s, s')
    requires s'.calls == s.calls
    requires s'.maxOutstanding == s.maxOutstanding && s'.everSet == s.everSet && s'.overlapped == s.overlapped
    ensures SettersInv(c, s')
  {
    assert forall i :: Informed(s', i) <==> Informed(s, i);
  }

  lemma SettersOnNewCall(c: Config, s: System, call: Call)
    requires c.Valid() && |s.workers| == c.workers && SettersInv(c, s) && !IsSetter(call)
    ensures SettersInv(c, s.(calls := s.calls + [call]))
  {
    var s' := s.(calls := s.calls + [call]);
    forall i | Informed(s', i)
      ensures Informed(s, i)
    {
      assert forall j :: 0 <= j < |s.calls| ==> s'.calls[j] == s.calls[j];
    }
  }

  lemma SettersOnNewSetter(c: Config, s: System, value: int)
    requires c.Valid() && |s.workers| == c.workers && SettersInv(c, s) && IsInt32(value)
    ensures SettersInv(c, Apply(c, s, StartSetMaxOutstanding(value)))
  {
    var s' := Apply(c, s, StartSetMaxOutstanding(value));
    assert IsSetter(s'.calls[|s.calls|]) && s'.calls[|s.calls|].Loading?;
    assert forall i :: !Informed(s', i);
    if !s'.overlapped {
      assert forall j :: 0 <= j < |s.calls| ==> !IsSetter(s.calls[j]);
    }
  }

  lemma SettersOnPut(c: Config, s: System, j: nat)
    requires c.Valid() && |s.workers| == c.workers && SettersInv(c, s) && j < |s.calls|
    requires s.calls[j].Broadcasting? && |s.calls[j].pos| < c.workers
    ensures SettersInv(c, CallNext(c, s, j))
  {
    var call, s' := s.calls[j], CallNext(c, s, j);
    var q := |call.pos|;
    assert forall k :: 0 <= k < |s.calls| ==> IsSetter(s'.calls[k]) == IsSetter(s.calls[k]);
    forall i | 0 <= i < c.workers
      ensures LimitAfter(InitialLimit(c), s'.workers[i].log) ==
              if i == q && call.e.kind == SET_MAX_OUTSTANDING && call.e.extraData.Int?
              then ToInt32(call.e.extraData.value)
              else LimitAfter(InitialLimit(c), s.workers[i].log)
    {
      LimitAfterAppend(InitialLimit(c), s.workers[q].log, call.e);
    }
    forall i | 0 <= i < c.workers && Informed(s', i) && !(i == q && IsSetter(call))
      ensures Informed(s, i)
    {
      forall k | 0 <= k < |s.calls| && IsSetter(s.calls[k])
        ensures s.calls[k].Broadcasting? && i < |s.calls[k].pos|
      {
        assert IsSetter(s'.calls[k]);
      }
    }
  }

  lemma SettersOnReturn(c: Config, s: System, j: nat)
    requires c.Valid() && |s.workers| == c.workers && SettersInv(c, s) && j < |s.calls|
    requires s.calls[j].Broadcasting? && |s.calls[j].pos| >= c.workers
    ensures SettersInv(c, CallNext(c, s, j))
  {
    var s' := CallNext(c, s, j);
    forall i | 0 <= i < c.workers && Informed(s', i)
      ensures Informed(s, i)
    {
      forall k | 0 <= k < |s.calls| && IsSetter(s.calls[k])
        ensures s.calls[k].Broadcasting? && i < |s.calls[k].pos|
      {
        if k != j {
          assert s'.calls[k] == s.calls[k];
        }
      }
    }
  }

  lemma SettersOnLoad(c: Config, s: System, j: nat)
    requires c.Valid() && |s.workers| == c.workers && SettersInv(c, s) && j < |s.calls| && s.calls[j].Loading?
    ensures SettersInv(c, CallNext(c, s, j))
  {
    var s' := CallNext(c, s, j);
    assert IsSetter(s'.calls[j]);
    assert forall i :: 0 <= i ==> !Informed(s', i);
    assert forall k :: 0 <= k < |s.calls| ==> IsSetter(s'.calls[k]) == IsSetter(s.calls[k]);
  }

  lemma SchedulerKeepsLimits(c: Config, s: System)
    requires c.Valid() && |s.workers| == c.workers
    ensures SameLimits(c, s, SchedulerNext(c, s))
  {
    forall i | 0 <= i < c.workers
      ensures SameLimit(InitialLimit(c), s.workers[i].log, SchedulerNext(c, s).workers[i].log)
    {
      SchedulerChangesWorker(c, s, i);
      LimitAfterAppend(InitialLimit(c), s.workers[i].log, RESET_EVENT);
      LimitAfterAppend(InitialLimit(c), s.workers[i].log, SEND_EVENT);
      LimitAfterAppend(InitialLimit(c), s.workers[i].log, STOP_EVENT);
    }
  }

  lemma SettersOnCall(c: Config, s: System, j: nat)
    requires c.Valid() && |s.workers| == c.workers && SettersInv(c, s) && j < |s.calls| && !s.calls[j].Returned?
    ensures SettersInv(c, CallNext(c, s, j))
  {
    if s.calls[j].Loading? {
      SettersOnLoad(c, s, j);
    } else if |s.calls[j].pos| < c.workers {
      SettersOnPut(c, s, j);
    } else {
      SettersOnReturn(c, s, j);
    }
  }

  lemma SettersOnScheduler(c: Config, s: System)
    requires c.Valid() && |s.workers| == c.workers && SettersInv(c, s)
    ensures SettersInv(c, SchedulerNext(c, s))
  {
    SchedulerKeepsLimits(c, s);
    SettersUntouched(c, s, SchedulerNext(c, s));
  }

  lemma SettersOnOthers(c: Config, s: System, step: Step)
    requires c.Valid() && |s.workers| == c.workers && SettersInv(c, s) && Enabled(c, s, step)
    requires !step.SchedulerStep? && !step.StartResume2? && !step.StartSetMaxOutstanding? && !step.CallStep?
    ensures |Apply(c, s, step).workers| == c.workers && SettersInv(c, Apply(c, s, step))
  {
    OthersKeepCalls(c, s, step);
    SettersUntouched(c, s, Apply(c, s, step));
  }

  lemma SettersInvStep(c: Config, s: System, step: Step)
    requires c.Valid() && |s.workers| == c.workers && SettersInv(c, s) && Enabled(c, s, step)
    ensures |Apply(c, s, step).workers| == c.workers && SettersInv(c, Apply(c, s, step))
  {
    match step
    case SchedulerStep => SettersOnScheduler(c, s);
    case StartResume2(name) => SettersOnNewCall(c, s, Broadcasting(Event(SET_PHASE, Str(name)), [], true));
    case StartSetMaxOutstanding(value) => SettersOnNewSetter(c, s, value);
    case CallStep(j) => SettersOnCall(c, s, j);
    case _ => SettersOnOthers(c, s, step);
  }

  lemma OthersKeepCalls(c: Config, s: System, step: Step)
    requires c.Valid() && |s.workers| == c.workers && Enabled(c, s, step)
    requires !step.SchedulerStep? && !step.StartResume2? && !step.StartSetMaxOutstanding? && !step.CallStep?
    ensures
      var s' := Apply(c, s, step);
      && SameLogs(s, s')
      && s'.calls == s.calls && s'.maxOutstanding == s.maxOutstanding
      && s'.everSet == s.everSet && s'.overlapped == s.overlapped
  {
    if step.RunnerStep? {
      RunnerKeepsLogs(c, s);
    }
  }

  // ---------- Together ----------

  ghost predicate Inv(c: Config, s: System)
    requires c.Valid()
  {
    && SchedulerInv(c, s)
    && CallsInv(c, s)
    && WorkersInv(c, s)
    && StopInv(c, s)
    && PollInv(c, s)
    && SettersInv(c, s)
  }

  lemma InitInv(c: Config)
    requires c.Valid()
    ensures Inv(c, Init(c))
  {
    var s := Init(c);
    forall i | 0 <= i < c.workers
      ensures WorkerInv(c, InitialLimit(c), s.workers[i])
    {
      InitialWorkerInv(c);
    }
  }

  lemma InitialWorkerInv(c: Config)
    requires c.Valid()
    ensures WorkerInv(c, InitialLimit(c), InitialWorker(c))
  {
  }

  /** Every step of every actor keeps the invariant. */
  lemma InvStep(c: Config, s: System, step: Step)
    requires c.Valid() && Inv(c, s) && Enabled(c, s, step)
    ensures Inv(c, Apply(c, s, step))
  {
    SchedulerInvStep(c, s, step);
    CallsInvStep(c, s, step);
    WorkersInvStep(c, s, step);
    StopInvStep(c, s, step);
    PollInvStep(c, s, step);
    SettersInvStep(c, s, step);
  }

  lemma InvNext(c: Config, s: System, s': System)
    requires c.Valid() && Inv(c, s) && Next(c, s, s')
    ensures Inv(c, s')
  {
    var step :| Enabled(c, s, step) && s' == Apply(c, s, step);
    InvStep(c, s, step);
  }

  /** The invariant holds in every state of every run. */
  lemma {:induction false} InvOnRun(c: Config, run: seq<System>, k: nat)
    requires c.Valid() && IsRun(c, run) && k < |run|
    ensures Inv(c, run[k])
  {
    if k == 0 {
      InitInv(c);
    } else {
      InvOnRun(c, run, k - 1);
      assert StepTaken(c, run, k - 1);
      InvNext(c, run[k - 1], run[k]);
    }
  }
}
