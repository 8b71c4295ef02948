/**
 What holds of every run, whatever the interleaving of scheduler, workers, control calls
 and runner.
 */
module SystemTheorems {
  import opened Arithmetic
  import opened Events
  import opened Dealing
  import opened MemcachedWorkload
  import opened WorkerModel
  import opened WorkerInvariant
  import opened System
  import opened SystemInvariant

  /** The step that leads from one state of a run to the next. */
  lemma StepAt(c: Config, run: seq<System>, k: nat) returns (step: Step)
    requires c.Valid() && IsRun(c, run) && k + 1 < |run|
    ensures |run[k].workers| == |run[k + 1].workers| == c.workers
    ensures Enabled(c, run[k], step) && run[k + 1] == Apply(c, run[k], step)
  {
    SchedulerAt(c, run, k);
    SchedulerAt(c, run, k + 1);
    assert StepTaken(c, run, k);
    step :| Enabled(c, run[k], step) && run[k + 1] == Apply(c, run[k], step);
  }

  lemma SchedulerAt(c: Config, run: seq<System>, k: nat)
    requires c.Valid() && IsRun(c, run) && k < |run|
    ensures SchedulerInv(c, run[k])
  {
    InvOnRun(c, run, k);
  }

  lemma WorkerAt(c: Config, run: seq<System>, k: nat, i: nat)
    requires c.Valid() && IsRun(c, run) && k < |run| && i < c.workers
    ensures |run[k].workers| == c.workers && WorkerInv(c, InitialLimit(c), run[k].workers[i])
  {
    InvOnRun(c, run, k);
  }

  lemma RunnerAt(c: Config, run: seq<System>, k: nat)
    requires c.Valid() && IsRun(c, run) && k < |run|
    ensures |run[k].workers| == c.workers && PollInv(c, run[k])
    ensures SchedulerStopped(run[k].runner) ==> run[k].state == STOPPING
  {
    InvOnRun(c, run, k);
  }

  // ---------- Stopping ----------

  /** Once STOPPING, always STOPPING: no pause or resume brings the scheduler back. */
  lemma {:induction false} StoppingForever(c: Config, run: seq<System>, j: nat, k: nat)
    requires c.Valid() && IsRun(c, run) && j <= k < |run| && run[j].state == STOPPING
    ensures run[k].state == STOPPING
  {
    if j == k {
    } else {
      StoppingForever(c, run, j, k - 1);
      var step := StepAt(c, run, k - 1);
      StoppingIsAbsorbing(c, run[k - 1], step);
    }
  }

  /** Worker `i` is between the two statements of early termination, and nobody else has stopped the scheduler. */
  predicate EndingEarly(s: System, i: nat)
    requires i < |s.workers|
  {
    s.workers[i].pc.Terminating? && s.state != STOPPING
  }

  /**
   A started worker that no longer runs implies STOPPING, whether it stopped by STOP, by
   an exhausted workload or by Worker::stop, if and only if it is not between the two
   statements of early termination in a scheduler that nobody else has stopped.
   */
  lemma StoppedWorkerMeansStopping(c: Config, run: seq<System>, k: nat, i: nat)
    requires c.Valid() && IsRun(c, run) && k < |run| && i < c.workers
    ensures
      var s := run[k];
      && i < |s.workers|
      && (s.workers[i].started ==>
            ((!s.workers[i].running ==> s.state == STOPPING) <==> !EndingEarly(s, i)))
      // the CHECK in Scheduler::join cannot fail
      && (s.runner.Joining? ==> s.state == STOPPING)
  {
    InvOnRun(c, run, k);
    assert HaltInv(c, run[k], i);
  }

  // ---------- The bounded wait for quiescence ----------

  /** The runner polls at most worker_shutdown_delay times. */
  lemma PollingIsBounded(c: Config, run: seq<System>, k: nat)
    requires c.Valid() && IsRun(c, run) && k < |run|
    ensures run[k].runner.PollRunning? || run[k].runner.PollOutstanding? ==>
              1 <= run[k].runner.passes <= c.shutdownDelay
  {
    PollingStarts(c, run, k);
    RunnerAt(c, run, k);
  }

  lemma {:induction false} PollingStarts(c: Config, run: seq<System>, k: nat)
    requires c.Valid() && IsRun(c, run) && k < |run|
    ensures run[k].runner.PollRunning? || run[k].runner.PollOutstanding? ==> 1 <= run[k].runner.passes
  {
    if k == 0 {
    } else {
      PollingStarts(c, run, k - 1);
      RunnerAt(c, run, k - 1);
      var step := StepAt(c, run, k - 1);
      RunnerOrder(c, run[k - 1], step);
    }
  }

  predicate Drained(r: RunnerPc) {
    ShuttingDown(r) && r.drained
  }

  lemma {:induction false} DrainedStays(c: Config, run: seq<System>, j: nat, k: nat)
    requires c.Valid() && IsRun(c, run) && j <= k < |run| && Drained(run[j].runner)
    ensures Drained(run[k].runner)
  {
    if j == k {
    } else {
      DrainedStays(c, run, j, k - 1);
      RunnerAt(c, run, k - 1);
      var step := StepAt(c, run, k - 1);
      RunnerOrder(c, run[k - 1], step);
    }
  }

  lemma QuietWorkerIsFrozen(c: Config, s: System, step: Step, w: Worker, w': Worker)
    requires c.Valid() && w.outstanding == |w.inFlight| && Quiet(w)
    requires WorkerChange(c, s, step, w, w') && !s.runner.Starting?
    ensures w'.sent == w.sent && w'.completed == w.completed
  {
  }

  /**
   If the wait ends with nothing remaining, then although the workers were polled one by
   one with two separate reads each, all of them are idle at the same time and stay idle:
   from then on nothing is in flight, nothing is sent and no reply arrives.
   */
  lemma {:induction false} DrainedMeansIdleForever(c: Config, run: seq<System>, j: nat, k: nat, i: nat)
    requires c.Valid() && IsRun(c, run) && j <= k < |run| && Drained(run[j].runner) && i < c.workers
    ensures |run[j].workers| == |run[k].workers| == c.workers
    ensures
      var w, w' := run[j].workers[i], run[k].workers[i];
      && !HasMoreWork(w') && w'.inFlight == {} && !w'.pc.Sending?
      && w'.sent == w.sent && w'.completed == w.completed
  {
    WorkerAt(c, run, j, i);
    DrainedIsQuiet(c, run, j, k, i);
    if j == k {
    } else {
      DrainedMeansIdleForever(c, run, j, k - 1, i);
      DrainedIsQuiet(c, run, j, k - 1, i);
      var step := StepAt(c, run, k - 1);
      StepChangesWorker(c, run[k - 1], step, i);
      QuietWorkerIsFrozen(c, run[k - 1], step, run[k - 1].workers[i], run[k].workers[i]);
    }
  }

  lemma DrainedIsQuiet(c: Config, run: seq<System>, j: nat, k: nat, i: nat)
    requires c.Valid() && IsRun(c, run) && j <= k < |run| && Drained(run[j].runner) && i < c.workers
    ensures |run[k].workers| == c.workers && Quiet(run[k].workers[i]) && !run[k].runner.Starting?
    ensures run[k].workers[i].outstanding == |run[k].workers[i].inFlight|
  {
    DrainedStays(c, run, j, k);
    RunnerAt(c, run, k);
    WorkerAt(c, run, k, i);
  }

  // ---------- The grammar and the fairness of dealing ----------

  /** The scheduler thread's contribution to every queue is always a prefix of (RESET SEND_REQUEST*)+ STOP. */
  lemma QueueFollowsGrammar(c: Config, run: seq<System>, k: nat, i: nat)
    requires c.Valid() && IsRun(c, run) && k < |run| && i < c.workers
    ensures |run[k].workers| == c.workers && Automaton(SchedulerPart(run[k].workers[i].log)) != 3
  {
    SchedulerAt(c, run, k);
    DealtLogIsGrammatical(c, run[k], i);
  }

  /** SEND_REQUESTs and RESETs in a queue, in terms of the epochs dealt. */
  lemma QueueCounts(c: Config, s: System, i: nat)
    requires c.Valid() && SchedulerInv(c, s) && i < c.workers
    ensures Count(SEND_REQUEST, s.workers[i].log) == Sum(Shares(s.epochs, c.workers, i))
    ensures Count(RESET, s.workers[i].log) == |Begun(s, i)|
    ensures Count(STOP, s.workers[i].log) == if StopPut(s, i) then 1 else 0
  {
    var log, begun := s.workers[i].log, Begun(s, i);
    var ks := Shares(begun, c.workers, i);
    assert SchedulerPart(log) == Expected(c, s, i);
    CountInPart(SEND_REQUEST, log);
    CountInPart(RESET, log);
    CountInPart(STOP, log);
    CountShape(ks);
    CountConcat(SEND_REQUEST, Shape(ks), [STOP_EVENT]);
    CountConcat(RESET, Shape(ks), [STOP_EVENT]);
    CountConcat(STOP, Shape(ks), [STOP_EVENT]);
    assert [STOP_EVENT][..0] == [];
    if begun != s.epochs {
      SumOfSharesOfFreshEpoch(s.epochs, c.workers, i);
    }
  }

  lemma SumOfSharesOfFreshEpoch(epochs: seq<nat>, n: nat, i: nat)
    requires n > 0 && epochs != [] && epochs[|epochs| - 1] == 0
    ensures Sum(Shares(epochs, n, i)) == Sum(Shares(epochs[..|epochs| - 1], n, i))
  {
    var l := |epochs| - 1;
    assert Shares(epochs, n, i)[..l] == Shares(epochs[..l], n, i);
  }

  /**
   When the loop has returned, every queue holds the same number of RESETs and exactly one
   STOP, and from then on the scheduler thread puts nothing.
   */
  lemma {:induction false} LoopExit(c: Config, run: seq<System>, j: nat, k: nat, i: nat)
    requires c.Valid() && IsRun(c, run) && j <= k < |run| && run[j].sched.Done? && i < c.workers
    ensures |run[j].workers| == |run[k].workers| == c.workers && run[k].sched.Done?
    ensures Count(RESET, run[k].workers[i].log) == |run[j].epochs| >= 1
    ensures Count(STOP, run[k].workers[i].log) == 1
    ensures SchedulerPart(run[k].workers[i].log) == SchedulerPart(run[j].workers[i].log)
            == Dealings(run[j].epochs, c.workers, i) + [STOP_EVENT]
  {
    SchedulerAt(c, run, j);
    SchedulerAt(c, run, k);
    DoneStays(c, run, j, k);
    QueueCounts(c, run[k], i);
    assert SchedulerPart(run[j].workers[i].log) == Expected(c, run[j], i);
    assert SchedulerPart(run[k].workers[i].log) == Expected(c, run[k], i);
  }

  lemma {:induction false} DoneStays(c: Config, run: seq<System>, j: nat, k: nat)
    requires c.Valid() && IsRun(c, run) && j <= k < |run| && run[j].sched.Done?
    ensures run[k].sched.Done? && run[k].epochs == run[j].epochs
  {
    if j == k {
    } else {
      DoneStays(c, run, j, k - 1);
      SchedulerAt(c, run, k - 1);
      var step := StepAt(c, run, k - 1);
      SchedulerMoves(c, run[k - 1], step);
    }
  }

  lemma CallKeepsScheduler(c: Config, s: System, j: nat)
    requires |s.workers| == c.workers && j < |s.calls|
    ensures CallNext(c, s, j).sched == s.sched && CallNext(c, s, j).epochs == s.epochs
  {
  }

  lemma RunnerLaunches(c: Config, s: System)
    requires c.Valid() && SchedulerInv(c, s)
    ensures
      var s' := RunnerNext(c, s);
      || (s'.sched == s.sched && s'.epochs == s.epochs)
      || (s.sched.NotStarted? && s'.sched == Resetting(0) && s'.epochs == [0] && s'.state == s.state)
  {
  }

  /** Only the scheduler and the launch by the runner touch the scheduler's fields. */
  lemma SchedulerMoves(c: Config, s: System, step: Step)
    requires c.Valid() && SchedulerInv(c, s) && Enabled(c, s, step)
    ensures
      var s' := Apply(c, s, step);
      || (s'.sched == s.sched && s'.epochs == s.epochs)
      || (step.SchedulerStep? && s' == SchedulerNext(c, s))
      || (s.sched.NotStarted? && s'.sched == Resetting(0) && s'.epochs == [0] && s'.state == s.state)
  {
    match step
    case CallStep(j) => CallKeepsScheduler(c, s, j);
    case RunnerStep => RunnerLaunches(c, s);
    case _ =>
  }

  /**
   Dealing is fair: at any time an earlier queue has received at least as many ticks as a
   later one, and at most one more per epoch; a queue has received its shares of all epochs,
   which are k div n of the k ticks of an epoch, plus one for the first k mod n queues; and
   all queues together have received every tick.
   */
  lemma DealingIsFair(c: Config, run: seq<System>, k: nat, i: nat, j: nat)
    requires c.Valid() && IsRun(c, run) && k < |run| && i <= j < c.workers
    ensures |run[k].workers| == c.workers
    ensures
      var s := run[k];
      && 0 <= Count(SEND_REQUEST, s.workers[i].log) - Count(SEND_REQUEST, s.workers[j].log) <= |s.epochs|
      && Count(SEND_REQUEST, s.workers[i].log) == Sum(Shares(s.epochs, c.workers, i))
      && (forall e :: 0 <= e < |s.epochs| ==>
            Shares(s.epochs, c.workers, i)[e] ==
            s.epochs[e] / c.workers + (if i < s.epochs[e] % c.workers then 1 else 0))
      && TotalCount(SEND_REQUEST, s.workers) == Sum(s.epochs)
  {
    SchedulerAt(c, run, k);
    var s := run[k];
    QueueCounts(c, s, i);
    QueueCounts(c, s, j);
    EarlierQueueLeads(s.epochs, c.workers, i, j);
    forall e | 0 <= e < |s.epochs|
      ensures Shares(s.epochs, c.workers, i)[e] ==
              s.epochs[e] / c.workers + (if i < s.epochs[e] % c.workers then 1 else 0)
    {
      DealtClosedForm(s.epochs[e], c.workers, i);
    }
    AllSends(c, s);
  }

  /** Over a worker's whole run, the numbers of requests sent on two connections differ by at most one. */
  lemma ConnectionsAreFair(c: Config, run: seq<System>, k: nat, i: nat, a: nat, b: nat)
    requires c.Valid() && IsRun(c, run) && k < |run| && i < c.workers && a < c.connections && b < c.connections
    ensures |run[k].workers| == c.workers
    ensures
      var w := run[k].workers[i];
      && |w.perConnection| == c.connections
      && w.perConnection[a] <= w.perConnection[b] + 1
      && w.connection == w.sent % c.connections
  {
    WorkerAt(c, run, k, i);
    var w := run[k].workers[i];
    PointerIsMod(w.sent, c.connections);
    DealtClosedForm(w.sent, c.connections, a);
    DealtClosedForm(w.sent, c.connections, b);
  }

  // ---------- Pausing ----------

  /** All events of a kind that were ever put into any queue. */
  function TotalCount(kind: EventType, workers: seq<Worker>): nat {
    if workers == [] then 0
    else TotalCount(kind, workers[..|workers| - 1]) + Count(kind, workers[|workers| - 1].log)
  }

  function SumOfShares(epochs: seq<nat>, n: nat, m: nat): nat
    requires n > 0
  {
    if m == 0 then 0 else SumOfShares(epochs, n, m - 1) + Sum(Shares(epochs, n, m - 1))
  }

  lemma {:induction false} TotalSends(workers: seq<Worker>, epochs: seq<nat>, n: nat, m: nat)
    requires n > 0 && m <= |workers|
    requires forall i :: 0 <= i < |workers| ==> Count(SEND_REQUEST, workers[i].log) == Sum(Shares(epochs, n, i))
    ensures TotalCount(SEND_REQUEST, workers[..m]) == SumOfShares(epochs, n, m)
  {
    if m == 0 {
    } else {
      TotalSends(workers, epochs, n, m - 1);
      assert workers[..m][..m - 1] == workers[..m - 1];
    }
  }

  lemma {:induction false} SumOfSharesIsSum(epochs: seq<nat>, n: nat)
    requires n > 0
    ensures SumOfShares(epochs, n, n) == Sum(epochs)
  {
    if epochs == [] {
      SumOfNoShares(n, n);
    } else {
      var l := |epochs| - 1;
      SumOfSharesIsSum(epochs[..l], n);
      SumOfSharesSplits(epochs, n, n);
      AllTicksAreDealt(epochs[l], n);
    }
  }

  lemma {:induction false} SumOfNoShares(n: nat, m: nat)
    requires n > 0
    ensures SumOfShares([], n, m) == 0
  {
    if m == 0 {
    } else {
      SumOfNoShares(n, m - 1);
      assert Shares([], n, m - 1) == [];
    }
  }

  lemma {:induction false} SumOfSharesSplits(epochs: seq<nat>, n: nat, m: nat)
    requires n > 0 && epochs != []
    ensures
      var l := |epochs| - 1;
      SumOfShares(epochs, n, m) == SumOfShares(epochs[..l], n, m) + DealtToFirst(epochs[l], n, m)
  {
    if m == 0 {
    } else {
      var l := |epochs| - 1;
      SumOfSharesSplits(epochs, n, m - 1);
      assert Shares(epochs, n, m - 1)[..l] == Shares(epochs[..l], n, m - 1);
    }
  }

  lemma AllSends(c: Config, s: System)
    requires c.Valid() && SchedulerInv(c, s)
    ensures TotalCount(SEND_REQUEST, s.workers) == Sum(s.epochs)
  {
    forall i | 0 <= i < c.workers
      ensures Count(SEND_REQUEST, s.workers[i].log) == Sum(Shares(s.epochs, c.workers, i))
    {
      QueueCounts(c, s, i);
    }
    TotalSends(s.workers, s.epochs, c.workers, c.workers);
    assert s.workers[..c.workers] == s.workers;
    SumOfSharesIsSum(s.epochs, c.workers);
  }

  /** Epochs that can still begin while the state is not RUNNING. */
  function EpochsToCome(s: System): nat {
    if s.sched.NotStarted? || (s.sched.AtOuter? && s.state == PAUSED) then 1 else 0
  }

  /** Ticks that can still be dealt while the state is not RUNNING. */
  function TicksToCome(s: System): nat {
    if s.sched.Ticking? then 1 else 0
  }

  lemma BumpSum(epochs: seq<nat>)
    requires epochs != []
    ensures Sum(Bump(epochs)) == Sum(epochs) + 1
  {
    assert Bump(epochs)[..|epochs| - 1] == epochs[..|epochs| - 1];
  }

  lemma NewEpochSum(epochs: seq<nat>)
    ensures Sum(epochs + [0]) == Sum(epochs)
  {
    assert (epochs + [0])[..|epochs|] == epochs;
  }

  lemma QuietSchedulerStep(c: Config, s: System)
    requires c.Valid() && SchedulerInv(c, s) && s.state != RUNNING && !s.sched.NotStarted?
    ensures
      var s' := SchedulerNext(c, s);
      && |s'.epochs| + EpochsToCome(s') <= |s.epochs| + EpochsToCome(s)
      && Sum(s'.epochs) + TicksToCome(s') <= Sum(s.epochs) + TicksToCome(s)
  {
    match s.sched
    case Ticking => BumpSum(s.epochs);
    case AtOuter => NewEpochSum(s.epochs);
    case _ =>
  }

  lemma QuietStep(c: Config, s: System, step: Step)
    requires c.Valid() && SchedulerInv(c, s) && Enabled(c, s, step)
    requires s.state != RUNNING && Apply(c, s, step).state != RUNNING
    ensures
      var s' := Apply(c, s, step);
      && |s'.epochs| + EpochsToCome(s') <= |s.epochs| + EpochsToCome(s)
      && Sum(s'.epochs) + TicksToCome(s') <= Sum(s.epochs) + TicksToCome(s)
  {
    SchedulerMoves(c, s, step);
    if step.SchedulerStep? {
      QuietSchedulerStep(c, s);
    } else if s.state == STOPPING {
      StoppingIsAbsorbing(c, s, step);
    }
  }

  lemma {:induction false} QuietPotential(c: Config, run: seq<System>, j: nat, k: nat)
    requires c.Valid() && IsRun(c, run) && j <= k < |run|
    requires forall m :: j <= m <= k ==> run[m].state != RUNNING
    ensures |run[k].epochs| + EpochsToCome(run[k]) <= |run[j].epochs| + EpochsToCome(run[j])
    ensures Sum(run[k].epochs) + TicksToCome(run[k]) <= Sum(run[j].epochs) + TicksToCome(run[j])
  {
    if j == k {
    } else {
      QuietPotential(c, run, j, k - 1);
      SchedulerAt(c, run, k - 1);
      var step := StepAt(c, run, k - 1);
      QuietStep(c, run[k - 1], step);
    }
  }

  /**
   While the state is not RUNNING the scheduler puts at most one SEND_REQUEST across all
   queues, at most one RESET per queue, and never both.
   */
  lemma QuietPeriod(c: Config, run: seq<System>, j: nat, k: nat, i: nat)
    requires c.Valid() && IsRun(c, run) && j <= k < |run| && i < c.workers
    requires forall m :: j <= m <= k ==> run[m].state != RUNNING
    ensures |run[j].workers| == |run[k].workers| == c.workers
    ensures
      var ticks := TotalCount(SEND_REQUEST, run[k].workers) - TotalCount(SEND_REQUEST, run[j].workers);
      var resets := Count(RESET, run[k].workers[i].log) - Count(RESET, run[j].workers[i].log);
      ticks <= 1 && resets <= 1 && (ticks > 0 ==> resets <= 0)
  {
    SchedulerAt(c, run, j);
    SchedulerAt(c, run, k);
    AllSends(c, run[j]);
    AllSends(c, run[k]);
    QueueCounts(c, run[j], i);
    QueueCounts(c, run[k], i);
    QuietPotential(c, run, j, k);
  }

  // ---------- Resuming ----------

  /** The loop has seen a state other than RUNNING and not begun a new epoch. */
  predicate EpochClosed(s: System) {
    s.sched.AtPause? || s.sched.AtOuter? || s.sched.Finishing? || s.sched.Done?
  }

  lemma {:induction false} ClosedEpochsAreKept(c: Config, run: seq<System>, j: nat, k: nat)
    requires c.Valid() && IsRun(c, run) && j <= k < |run| && EpochClosed(run[j])
    ensures run[j].epochs <= run[k].epochs
    ensures EpochClosed(run[k]) || |run[k].epochs| > |run[j].epochs|
    ensures !run[k].sched.NotStarted?
  {
    if j == k {
    } else {
      ClosedEpochsAreKept(c, run, j, k - 1);
      SchedulerAt(c, run, k - 1);
      var step := StepAt(c, run, k - 1);
      SchedulerMoves(c, run[k - 1], step);
    }
  }

  lemma {:induction false} SumOfPrefix(ks: seq<nat>, ls: seq<nat>)
    requires ks <= ls
    ensures Sum(ks) <= Sum(ls)
  {
    if |ks| == |ls| {
      assert ks == ls;
    } else {
      SumOfPrefix(ks, ls[..|ls| - 1]);
    }
  }

  lemma SharesOfPrefix(ks: seq<nat>, ls: seq<nat>, n: nat, i: nat)
    requires n > 0 && ks < ls
    ensures Shares(ks, n, i) < Shares(ls, n, i)
  {
  }

  /**
   After the loop has observed a state other than RUNNING, no queue gets another
   SEND_REQUEST before every queue has got a RESET: as soon as any new tick exists, what
   the scheduler put into each queue continues with a RESET.
   */
  lemma ResetBeforeNextTick(c: Config, run: seq<System>, j: nat, k: nat, i: nat)
    requires c.Valid() && IsRun(c, run) && j <= k < |run| && EpochClosed(run[j]) && i < c.workers
    ensures |run[j].workers| == |run[k].workers| == c.workers
    ensures TotalCount(SEND_REQUEST, run[k].workers) > TotalCount(SEND_REQUEST, run[j].workers) ==>
              Dealings(run[j].epochs, c.workers, i) + [RESET_EVENT] <= SchedulerPart(run[k].workers[i].log)
              && (run[j].sched.AtPause? || run[j].sched.AtOuter? ==>
                    SchedulerPart(run[j].workers[i].log) == Dealings(run[j].epochs, c.workers, i))
  {
    var s, s' := run[j], run[k];
    SchedulerAt(c, run, j);
    SchedulerAt(c, run, k);
    AllSends(c, s);
    AllSends(c, s');
    ClosedEpochsAreKept(c, run, j, k);
    assert SchedulerPart(s.workers[i].log) == Expected(c, s, i);
    if Sum(s'.epochs) > Sum(s.epochs) {
      NewTickFollowsReset(c, s', s.epochs, i);
    }
  }

  lemma NewTickFollowsReset(c: Config, s: System, epochs: seq<nat>, i: nat)
    requires c.Valid() && SchedulerInv(c, s) && i < c.workers && epochs <= s.epochs && Sum(s.epochs) > Sum(epochs)
    ensures Dealings(epochs, c.workers, i) + [RESET_EVENT] <= SchedulerPart(s.workers[i].log)
  {
    var begun := Begun(s, i);
    assert Sum(begun) == Sum(s.epochs);
    if |begun| <= |epochs| {
      assert begun == epochs[..|begun|];
      SumOfPrefix(begun, epochs);
    }
    SharesOfPrefix(epochs, begun, c.workers, i);
    ShapeGrows(Shares(epochs, c.workers, i), Shares(begun, c.workers, i));
    assert SchedulerPart(s.workers[i].log) == Expected(c, s, i);
  }

  /** Step m of the run is a test of the inner loop that does not see RUNNING. */
  predicate ObservesPause(run: seq<System>, m: nat)
    requires m + 1 < |run|
  {
    run[m].sched.AtCheck? && run[m + 1].sched.AtPause?
  }

  /** How many of the steps j, ..., k-1 observe a state other than RUNNING. */
  function ObservedPauses(run: seq<System>, j: nat, k: nat): (r: nat)
    requires j <= k < |run|
    ensures r == 0 <==> forall m :: j <= m < k ==> !ObservesPause(run, m)
  {
    if j == k then 0 else ObservedPauses(run, j, k - 1) + if ObservesPause(run, k - 1) then 1 else 0
  }

  /** Epochs that the loop still has to begin if it is not to end: one after the last, or the first. */
  function Unbegun(s: System): nat {
    if EpochClosed(s) || s.sched.NotStarted? then 1 else 0
  }

  lemma UnbegunStep(c: Config, run: seq<System>, k: nat)
    requires c.Valid() && IsRun(c, run) && k + 1 < |run|
    ensures |run[k + 1].epochs| + Unbegun(run[k + 1]) ==
            |run[k].epochs| + Unbegun(run[k]) + if ObservesPause(run, k) then 1 else 0
    ensures ObservesPause(run, k) ==> run[k].state != RUNNING
  {
    SchedulerAt(c, run, k);
    var step := StepAt(c, run, k);
    SchedulerMoves(c, run[k], step);
  }

  lemma {:induction false} UnbegunOnRun(c: Config, run: seq<System>, j: nat, k: nat)
    requires c.Valid() && IsRun(c, run) && j <= k < |run|
    ensures |run[k].epochs| + Unbegun(run[k]) == |run[j].epochs| + Unbegun(run[j]) + ObservedPauses(run, j, k)
  {
    if j == k {
    } else {
      UnbegunOnRun(c, run, j, k - 1);
      UnbegunStep(c, run, k - 1);
    }
  }

  /**
   A RESET follows a pause exactly if the loop observes it. Between any two states of a run
   that are not in the middle of a RESET broadcast, every queue gets one RESET for each test
   of the inner loop that did not see RUNNING, save that the last of these may still wait for
   its epoch, and the first epoch of all needs no pause. Pauses that no test sees count for
   nothing, however many there are.
   */
  lemma ResetsCountObservedPauses(c: Config, run: seq<System>, j: nat, k: nat, i: nat)
    requires c.Valid() && IsRun(c, run) && j <= k < |run| && i < c.workers
    requires !run[j].sched.Resetting? && !run[k].sched.Resetting?
    ensures |run[j].workers| == |run[k].workers| == c.workers
    ensures Count(RESET, run[k].workers[i].log) + Unbegun(run[k]) ==
            Count(RESET, run[j].workers[i].log) + Unbegun(run[j]) + ObservedPauses(run, j, k)
    ensures forall m :: j <= m < k && ObservesPause(run, m) ==> run[m].state != RUNNING
  {
    SchedulerAt(c, run, j);
    SchedulerAt(c, run, k);
    QueueCounts(c, run[j], i);
    QueueCounts(c, run[k], i);
    UnbegunOnRun(c, run, j, k);
    forall m | j <= m < k && ObservesPause(run, m)
      ensures run[m].state != RUNNING
    {
      UnbegunStep(c, run, m);
    }
  }

  /** The scheduler is inside an epoch, after its RESETs. */
  predicate InsideEpoch(s: System) {
    s.sched.AtCheck? || s.sched.Ticking?
  }

  lemma {:induction false} StaysInEpoch(c: Config, run: seq<System>, j: nat, k: nat)
    requires c.Valid() && IsRun(c, run) && j <= k < |run| && InsideEpoch(run[j])
    requires forall m :: j <= m < k ==> !ObservesPause(run, m)
    ensures InsideEpoch(run[k])
  {
    if j == k {
    } else {
      StaysInEpoch(c, run, j, k - 1);
      SchedulerAt(c, run, k - 1);
      var step := StepAt(c, run, k - 1);
      SchedulerMoves(c, run[k - 1], step);
      assert !ObservesPause(run, k - 1);
    }
  }

  /**
   From inside an epoch, the loop has left it if and only if some test since then did not
   see RUNNING, whatever pauses and resumes happened.
   */
  lemma EpochIsLeftIffPauseObserved(c: Config, run: seq<System>, j: nat, k: nat)
    requires c.Valid() && IsRun(c, run) && j <= k < |run| && InsideEpoch(run[j])
    ensures (InsideEpoch(run[k]) && |run[k].epochs| == |run[j].epochs|)
            <==> forall m :: j <= m < k ==> !ObservesPause(run, m)
  {
    UnbegunOnRun(c, run, j, k);
    if ObservedPauses(run, j, k) == 0 {
      StaysInEpoch(c, run, j, k);
    }
  }

  lemma {:induction false} LogsGrowOnRun(c: Config, run: seq<System>, j: nat, k: nat)
    requires c.Valid() && IsRun(c, run) && j <= k < |run|
    ensures LogsGrow(run[j], run[k])
  {
    if j == k {
    } else {
      LogsGrowOnRun(c, run, j, k - 1);
      var step := StepAt(c, run, k - 1);
      LogsGrowStep(c, run[k - 1], step);
    }
  }

  /**
   After resume2 every event put after its resume, ticks included, sits behind that call's
   SET_PHASE in its queue; and while no other SET_PHASE comes between, the worker handles
   it in that phase.
   */
  lemma ResumedTicksSeeThePhase(c: Config, run: seq<System>, j: nat, k: nat, m: nat, i: nat, name: string)
    requires c.Valid() && IsRun(c, run) && j < k < |run| && i < c.workers
    requires m < |run[j].calls| && m < |run[j + 1].calls|
    requires run[j].calls[m].Broadcasting? && run[j].calls[m].e == Event(SET_PHASE, Str(name))
    requires run[j + 1].calls[m].Returned?
    ensures |run[j].workers| == |run[k].workers| == c.workers
    ensures
      var w, p := run[k].workers[i], run[j + 1].calls[m].pos;
      && |p| == c.workers
      && p[i] < |run[j].workers[i].log| <= |w.log|
      && w.log[p[i]] == Event(SET_PHASE, Str(name))
      && (|run[j].workers[i].log| <= w.live <= |w.log| && (forall q :: p[i] < q < w.live ==> w.log[q].kind != SET_PHASE)
          ==> w.phase == name)
  {
    var step := StepAt(c, run, j);
    CallAt(c, run, j + 1, m);
    ReturnStep(c, run[j], step, m);
    LogsGrowOnRun(c, run, j + 1, k);
    WorkerAt(c, run, k, i);
    var w, p := run[k].workers[i], run[j + 1].calls[m].pos[i];
    if |run[j].workers[i].log| <= w.live && (forall q :: p < q < w.live ==> w.log[q].kind != SET_PHASE) {
      PhaseAfterLastSetPhase(w.log[..w.live], p, name);
    }
  }

  lemma CallAt(c: Config, run: seq<System>, k: nat, m: nat)
    requires c.Valid() && IsRun(c, run) && k < |run| && m < |run[k].calls|
    ensures |run[k].workers| == c.workers && CallInv(c, run[k], run[k].calls[m])
  {
    InvOnRun(c, run, k);
  }

  lemma ReturnStep(c: Config, s: System, step: Step, m: nat)
    requires c.Valid() && |s.workers| == c.workers && Enabled(c, s, step) && m < |s.calls| && m < |Apply(c, s, step).calls|
    requires s.calls[m].Broadcasting? && Apply(c, s, step).calls[m].Returned?
    ensures
      var s' := Apply(c, s, step);
      && |s'.workers| == c.workers
      && s'.calls[m] == Returned(s.calls[m].e, s.calls[m].pos, Lens(s))
      && SameLogs(s, s')
  {
    assert step.CallStep? && step.j == m by {
      if !step.CallStep? {
        OthersKeepCall(c, s, step, m);
      }
    }
  }

  lemma OthersKeepCall(c: Config, s: System, step: Step, m: nat)
    requires c.Valid() && |s.workers| == c.workers && Enabled(c, s, step) && m < |s.calls| && !step.CallStep?
    ensures m < |Apply(c, s, step).calls| && Apply(c, s, step).calls[m] == s.calls[m]
  {
  }

  // ---------- Keys ----------

  /** The ticks a worker has handled are, epoch by epoch, an initial part of those dealt to it. */
  lemma HandledTicksAreDealt(c: Config, s: System, i: nat)
    requires c.Valid() && SchedulerInv(c, s) && i < c.workers && WorkerInv(c, InitialLimit(c), s.workers[i])
    ensures Below(Lengths(s.workers[i].outcomes), Shares(s.epochs, c.workers, i))
  {
    var w, begun := s.workers[i], Begun(s, i);
    var ks, ls := Lengths(w.outcomes), Shares(begun, c.workers, i);
    PartOfPrefix(w.log, w.live);
    assert SchedulerPart(w.log) == Expected(c, s, i);
    assert Shape(ks) <= Shape(ls) by {
      if |Shape(ks)| > |Shape(ls)| {
        assert Shape(ks)[|Shape(ls)|] == STOP_EVENT;
        ShapeHasNoStop(ks);
      }
    }
    ShapePrefix(ks, ls);
    if begun != s.epochs {
      assert Shares(s.epochs, c.workers, i)[..|begun|] == ls;
    }
  }

  predicate AllSent(os: seq<Outcome>) {
    forall a :: 0 <= a < |os| ==> os[a].Sent?
  }

  lemma {:induction false} AllSentTally(os: seq<Outcome>)
    requires AllSent(os)
    ensures Tally(SENT, os) == |os|
  {
    if os == [] {
    } else {
      AllSentTally(os[..|os| - 1]);
    }
  }

  /**
   Tick a*n + i of epoch e is the a-th that worker i handles since that epoch's RESET. If it
   is accepted it asks for the key numbered by the requests accepted before it, modulo N;
   if none was lost before it, for key a mod N.
   */
  lemma TickAsksForKey(c: Config, run: seq<System>, k: nat, i: nat, e: nat, a: nat)
    requires c.Valid() && IsRun(c, run) && k < |run| && i < c.workers && |run[k].workers| == c.workers
    requires e < |run[k].workers[i].outcomes| && a < |run[k].workers[i].outcomes[e]|
    ensures e < |run[k].epochs| && a * c.workers + i < run[k].epochs[e]
    ensures
      var os := run[k].workers[i].outcomes[e];
      os[a].Sent? ==>
        && os[a].request.key == Tally(SENT, os[..a]) % c.keys
        && (AllSent(os[..a]) ==> os[a].request.key == a % c.keys)
  {
    WorkerAt(c, run, k, i);
    SchedulerAt(c, run, k);
    var s := run[k];
    var os := s.workers[i].outcomes[e];
    HandledTicksAreDealt(c, s, i);
    assert a < Lengths(s.workers[i].outcomes)[e] <= Shares(s.epochs, c.workers, i)[e];
    DealtAfter(s.epochs[e], c.workers, i, a);
    assert CyclicKeys(os, c.keys);
    if AllSent(os[..a]) {
      AllSentTally(os[..a]);
    }
  }

  /** If place i got more than a ticks, tick a*n + i is among those dealt. */
  lemma DealtAfter(k: nat, n: nat, i: nat, a: nat)
    requires i < n && a < Dealt(k, n, i)
    ensures a * n + i < k
  {
    DealtClosedForm(k, n, i);
    BelowQuotient(k, n, i, a);
  }

  lemma BelowQuotient(k: nat, n: nat, i: nat, a: nat)
    requires i < n && (a < k / n || (a == k / n && i < k % n))
    ensures a * n + i < k
  {
    var q, r := k / n, k % n;
    assert k == q * n + r;
    if a < q {
      var d := q - a;
      assert q * n == a * n + d * n;
      assert d * n >= n;
    }
  }

  /**
   Re-synchronisation: in any two epochs, of the same or of different runs and workers, in
   which no tick was lost, the same keys are asked for on the common prefix, although
   leftovers of an earlier epoch may still have been queued when the later one began.
   */
  lemma EpochsRepeatTheKeys(
      c: Config, run: seq<System>, k: nat, i: nat, e: nat,
      run': seq<System>, k': nat, i': nat, e': nat, a: nat)
    requires c.Valid() && IsRun(c, run) && IsRun(c, run') && k < |run| && k' < |run'|
    requires i < c.workers && i' < c.workers && |run[k].workers| == |run'[k'].workers| == c.workers
    requires e < |run[k].workers[i].outcomes| && e' < |run'[k'].workers[i'].outcomes|
    requires AllSent(run[k].workers[i].outcomes[e]) && AllSent(run'[k'].workers[i'].outcomes[e'])
    requires a < |run[k].workers[i].outcomes[e]| && a < |run'[k'].workers[i'].outcomes[e']|
    ensures run[k].workers[i].outcomes[e][a].request.key == run'[k'].workers[i'].outcomes[e'][a].request.key
  {
    TickAsksForKey(c, run, k, i, e, a);
    TickAsksForKey(c, run', k', i', e', a);
  }

  /**
   In every run, what a worker has sent is SETs whose value is their key and then GETs of
   keys it has already SET, however RESETs fall; and the state is GET exactly if every key
   has been SET.
   */
  lemma WorkerSetsThenGets(c: Config, run: seq<System>, k: nat, i: nat)
    requires c.Valid() && IsRun(c, run) && k < |run| && i < c.workers
    ensures |run[k].workers| == c.workers
    ensures
      var w := run[k].workers[i];
      && SetsThenGets(Issued(w.outcomes), c.keys)
      && (w.workload.state.GET? <==> WarmedUp(Issued(w.outcomes), c.keys))
      && 0 <= w.workload.index <= c.keys
  {
    WorkerAt(c, run, k, i);
  }

  /** Among at least k + 1 requests sent in an epoch is one with exactly k sent before it. */
  lemma {:induction false} NumberedRequest(os: seq<Outcome>, k: nat) returns (a: nat)
    requires k < Tally(SENT, os)
    ensures a < |os| && os[a].Sent? && Tally(SENT, os[..a]) == k
  {
    var l := |os| - 1;
    if Tally(SENT, os[..l]) == k {
      a := l;
    } else {
      a := NumberedRequest(os[..l], k);
      assert os[..l][..a] == os[..a];
    }
  }

  lemma {:induction false} RequestIsIssued(outcomes: seq<seq<Outcome>>, e: nat, a: nat)
    requires e < |outcomes| && a < |outcomes[e]| && outcomes[e][a].Sent?
    ensures outcomes[e][a].request in Issued(outcomes)
  {
    var l := |outcomes| - 1;
    if e == l {
      RequestIsIn(outcomes[l], a);
    } else {
      RequestIsIssued(outcomes[..l], e, a);
    }
  }

  lemma {:induction false} RequestIsIn(os: seq<Outcome>, a: nat)
    requires a < |os| && os[a].Sent?
    ensures os[a].request in RequestsIn(os)
  {
    if a == |os| - 1 {
    } else {
      RequestIsIn(os[..|os| - 1], a);
    }
  }

  /** A key that was asked for was SET, then or before. */
  lemma AskedIsSet(issued: seq<Request>, n: int, r: Request)
    requires SetsThenGets(issued, n) && r in issued
    ensures WasSet(issued, r.key)
  {
    var k :| 0 <= k < |issued| && issued[k] == r;
    if r.GetRequest? {
      assert WasSet(issued[..k], r.key);
    }
  }

  /**
   Warm-up ends in every run: a worker that has sent as many requests in one epoch as there
   are keys has SET every key and sends only GETs from then on.
   */
  lemma EpochWarmsUp(c: Config, run: seq<System>, k: nat, i: nat, e: nat)
    requires c.Valid() && IsRun(c, run) && k < |run| && i < c.workers && |run[k].workers| == c.workers
    requires e < |run[k].workers[i].outcomes| && Tally(SENT, run[k].workers[i].outcomes[e]) >= c.keys
    ensures WarmedUp(Issued(run[k].workers[i].outcomes), c.keys) && run[k].workers[i].workload.state.GET?
  {
    WorkerAt(c, run, k, i);
    var w := run[k].workers[i];
    var os := w.outcomes[e];
    forall key | 0 <= key < c.keys
      ensures WasSet(Issued(w.outcomes), key)
    {
      var a := NumberedRequest(os, key);
      RequestIsIssued(w.outcomes, e, a);
      DivModUnique(key, c.keys, 0, key);
      assert CyclicKeys(os, c.keys);
      AskedIsSet(Issued(w.outcomes), c.keys, os[a].request);
    }
  }

  // ---------- Conservation of ticks and requests ----------

  /**
   Every SEND_REQUEST put into a worker's queue is still queued, in the worker's hands, sent,
   dropped, ended by exhaustion or discarded while not running (at most one); and every
   request sent is in flight or completed, never both, hence completed at most once.
   */
  lemma TicksAreConserved(c: Config, run: seq<System>, k: nat, i: nat)
    requires c.Valid() && IsRun(c, run) && k < |run| && i < c.workers
    ensures |run[k].workers| == c.workers && run[k].workers[i].taken <= |run[k].workers[i].log|
    ensures
      var w := run[k].workers[i];
      && Count(SEND_REQUEST, w.log) ==
         Count(SEND_REQUEST, w.log[w.taken..]) + TicksInHand(w) + w.sent
         + TotalTally(DROPPED, w.outcomes) + TotalTally(EXHAUSTED, w.outcomes) + w.discarded
      && w.discarded <= 1
      && w.sent == |w.inFlight| + |w.completed| && w.inFlight !! w.completed
      && w.outstanding == |w.inFlight|
  {
    WorkerAt(c, run, k, i);
    SchedulerAt(c, run, k);
    DealtLogIsGrammatical(c, run[k], i);
    TakenTicks(c, run[k].workers[i]);
    HandledTicks(c, run[k].workers[i]);
  }

  /** Ticks that the worker has taken and not yet dealt with. */
  function TicksInHand(w: Worker): nat {
    if w.pc.Deciding? || w.pc.Sending? || w.pc == Handling(SEND_EVENT) then 1 else 0
  }

  lemma LastTakenTick(w: Worker)
    requires Position(w) && History(w) && Grammatical(w.log) && w.taken == w.live + 1
    ensures TicksInHand(w) + w.discarded == if w.log[w.live].kind == SEND_REQUEST then 1 else 0
  {
    GrammaticalNext(w.log, w.live, Lengths(w.outcomes));
  }

  lemma TakenTicks(c: Config, w: Worker)
    requires c.Valid() && Position(w) && History(w) && Grammatical(w.log)
    ensures Count(SEND_REQUEST, w.log) ==
            Count(SEND_REQUEST, w.log[..w.live]) + TicksInHand(w) + w.discarded + Count(SEND_REQUEST, w.log[w.taken..])
  {
    CountConcat(SEND_REQUEST, w.log[..w.taken], w.log[w.taken..]);
    assert w.log == w.log[..w.taken] + w.log[w.taken..];
    if w.taken == w.live + 1 {
      LastTakenTick(w);
      CountConcat(SEND_REQUEST, w.log[..w.live], [w.log[w.live]]);
      assert w.log[..w.taken] == w.log[..w.live] + [w.log[w.live]];
      assert [w.log[w.live]][..0] == [];
    }
  }

  lemma HandledTicks(c: Config, w: Worker)
    requires c.Valid() && WorkerInv(c, InitialLimit(c), w)
    ensures Count(SEND_REQUEST, w.log[..w.live]) ==
            w.sent + TotalTally(DROPPED, w.outcomes) + TotalTally(EXHAUSTED, w.outcomes)
  {
    CountInPart(SEND_REQUEST, w.log[..w.live]);
    CountShape(Lengths(w.outcomes));
    TotalTalliesAddUp(w.outcomes);
  }

  // ---------- The limit on outstanding requests ----------

  function TotalOutstanding(workers: seq<Worker>): int {
    if workers == [] then 0
    else TotalOutstanding(workers[..|workers| - 1]) + workers[|workers| - 1].outstanding
  }

  lemma {:induction false} TotalIsBounded(workers: seq<Worker>, bound: int)
    requires forall i :: 0 <= i < |workers| ==> workers[i].outstanding <= bound
    ensures TotalOutstanding(workers) <= |workers| * bound
  {
    if workers == [] {
    } else {
      TotalIsBounded(workers[..|workers| - 1], bound);
      assert |workers| * bound == (|workers| - 1) * bound + bound;
    }
  }

  /** With no limit change, the workers together never have more than the configured maximum outstanding. */
  lemma TotalStaysWithinMaximum(c: Config, run: seq<System>, k: nat)
    requires c.Valid() && IsRun(c, run) && k < |run| && !run[k].everSet
    ensures 0 <= TotalOutstanding(run[k].workers) <= Max(c.maxOutstanding, 0)
  {
    SettersAt(c, run, k);
    var s := run[k];
    var bound := Max(InitialLimit(c), 0);
    forall i | 0 <= i < c.workers
      ensures 0 <= s.workers[i].outstanding <= bound
    {
      WorkerAt(c, run, k, i);
      WithinFirstLimit(c, s.workers[i]);
    }
    TotalIsBounded(s.workers, bound);
    TotalIsNatural(s.workers);
    SplitLimit(c.maxOutstanding, c.workers);
  }

  lemma SettersAt(c: Config, run: seq<System>, k: nat)
    requires c.Valid() && IsRun(c, run) && k < |run|
    ensures |run[k].workers| == c.workers && SettersInv(c, run[k])
  {
    InvOnRun(c, run, k);
  }

  lemma WithinFirstLimit(c: Config, w: Worker)
    requires c.Valid() && WorkerInv(c, InitialLimit(c), w) && NoLimitChange(w.log)
    ensures 0 <= w.outstanding <= Max(InitialLimit(c), 0)
  {
    LimitAfterNoChange(InitialLimit(c), w.log[..w.live]);
  }

  lemma {:induction false} TotalIsNatural(workers: seq<Worker>)
    requires forall i :: 0 <= i < |workers| ==> 0 <= workers[i].outstanding
    ensures 0 <= TotalOutstanding(workers)
  {
    if workers == [] {
    } else {
      TotalIsNatural(workers[..|workers| - 1]);
    }
  }

  /**
   The limit at start-up is the worker's share of the configured maximum: as much as fits n
   times into it, and no less; of a negative maximum, the share nearest to zero. The
   scheduler itself keeps the undivided maximum.
   */
  lemma ShareAtStart(c: Config, i: nat)
    requires c.Valid() && i < c.workers
    ensures
      var n, m, limit := c.workers, c.maxOutstanding, Init(c).workers[i].limit;
      && (m >= 0 ==> n * limit <= m < n * (limit + 1))
      && (m <= 0 ==> n * (limit - 1) < m <= n * limit)
      && (IsInt32(m) ==> ToInt32(Init(c).maxOutstanding) == m)
  {
    var n, m := c.workers, c.maxOutstanding;
    if IsInt32(m) {
      LimitRoundTrip(m);
    }
    if m >= 0 {
      assert m == n * (m / n) + m % n;
    } else {
      assert -m == n * (-m / n) + -m % n;
    }
  }

  lemma SplitLimit(m: int, n: nat)
    requires n > 0
    ensures n * Max(TruncDiv(m, n), 0) <= Max(m, 0)
  {
    if m >= 0 {
      assert n * (m / n) <= m;
    } else {
      assert (-m) / n >= 0;
    }
  }

  /** A worker at or above its limit sends nothing, whatever limit changes are under way. */
  lemma NeverRisesAboveLimit(c: Config, run: seq<System>, k: nat, i: nat)
    requires c.Valid() && IsRun(c, run) && k + 1 < |run| && i < c.workers
    ensures |run[k].workers| == |run[k + 1].workers| == c.workers
    ensures
      var w, w' := run[k].workers[i], run[k + 1].workers[i];
      && 0 <= w.outstanding <= Max(w.limit, w.atLimitChange)
      && (w.outstanding >= w.limit ==> w'.outstanding <= w.outstanding)
      && w'.outstanding <= w.outstanding + 1
  {
    var step := StepAt(c, run, k);
    WorkerAt(c, run, k, i);
    StepChangesWorker(c, run[k], step, i);
    OutstandingOnChange(c, run[k], step, run[k].workers[i], run[k + 1].workers[i]);
  }

  lemma DropsOnAct(c: Config, w: Worker, exhausted: bool)
    requires c.Valid() && |w.perConnection| == c.connections && w.connection < c.connections
    ensures
      var w' := Act(c, w, exhausted);
      TotalTally(DROPPED, w'.outcomes) == TotalTally(DROPPED, w.outcomes) +
        if w.pc.Deciding? && (w.outstanding >= w.limit || !w.running) then 1 else 0
  {
    match w.pc
    case Handling(e) =>
      HandleFields(w, e);
      TotalTallyReset(DROPPED, w.outcomes);
    case Deciding => TotalTallyRecord(DROPPED, w.outcomes, Dropped);
    case Sending =>
      TotalTallyRecord(DROPPED, w.outcomes, Exhausted);
      TotalTallyRecord(DROPPED, w.outcomes, Sent(NextRequest(w.workload, c.keys).1));
    case _ =>
  }

  /**
   Ticks are lost only as they should be: in any step of a run, a worker drops a tick if and
   only if it decides on one while it is at its limit or above, or does not run; a tick it
   decides on otherwise goes on to be sent.
   */
  lemma TickIsDroppedIffAtLimit(c: Config, run: seq<System>, k: nat, i: nat)
    requires c.Valid() && IsRun(c, run) && k + 1 < |run| && i < c.workers
    ensures |run[k].workers| == |run[k + 1].workers| == c.workers
    ensures
      var w, w' := run[k].workers[i], run[k + 1].workers[i];
      var decides := w.pc.Deciding? && !w'.pc.Deciding?;
      && (TotalTally(DROPPED, w'.outcomes) > TotalTally(DROPPED, w.outcomes) <==>
            decides && (w.outstanding >= w.limit || !w.running))
      && (decides && w.outstanding < w.limit && w.running ==> w'.pc.Sending?)
  {
    var step := StepAt(c, run, k);
    var w := run[k].workers[i];
    StepChangesWorker(c, run[k], step, i);
    if step.ActStep? && |w.perConnection| == c.connections && w.connection < c.connections {
      DropsOnAct(c, w, step.exhausted);
    }
  }

  lemma OutstandingOnAct(c: Config, w: Worker, exhausted: bool)
    requires c.Valid() && |w.perConnection| == c.connections && w.connection < c.connections && WithinLimit(w)
    ensures
      var w' := Act(c, w, exhausted);
      && (w.outstanding >= w.limit ==> w'.outstanding <= w.outstanding)
      && w'.outstanding <= w.outstanding + 1
  {
    match w.pc
    case Handling(e) => HandleFields(w, e);
    case _ =>
  }

  lemma OutstandingOnChange(c: Config, s: System, step: Step, w: Worker, w': Worker)
    requires c.Valid() && WithinLimit(w) && WorkerChange(c, s, step, w, w')
    ensures w.outstanding >= w.limit ==> w'.outstanding <= w.outstanding
    ensures w'.outstanding <= w.outstanding + 1
  {
    if step.ActStep? && |w.perConnection| == c.connections && w.connection < c.connections {
      OutstandingOnAct(c, w, step.exhausted);
    }
  }

  /**
   If the limit change asked for last began while no other was in progress, and none is in
   progress now, a worker that still consumes and has drained its queue holds the limit last
   asked for; earlier changes may have overlapped.
   */
  lemma DrainedWorkerHoldsLastLimit(c: Config, run: seq<System>, k: nat, i: nat)
    requires c.Valid() && IsRun(c, run) && k < |run| && i < c.workers && |run[k].workers| == c.workers
    requires !run[k].overlapped && !SetterActive(run[k])
    requires
      var w := run[k].workers[i];
      w.started && w.consuming && w.pc.Idle? && w.taken == |w.log|
    ensures run[k].workers[i].limit == CurrentLimit(c, run[k])
  {
    InvOnRun(c, run, k);
    var w := run[k].workers[i];
    assert WorkerInv(c, InitialLimit(c), w);
    assert w.log[..w.live] == w.log;
    assert Informed(run[k], i);
  }
}
