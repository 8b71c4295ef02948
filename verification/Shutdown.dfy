/**
 The end of a run: the runner's bounded wait over all interleavings, what an unsuccessful poll
 saw, and that the workers it has stopped stay stopped.
 */
module Shutdown {
  import opened Arithmetic
  import opened Events
  import opened WorkerModel
  import opened System
  import opened SystemInvariant
  import opened SystemTheorems
  import opened WitnessRuns

  // ---------- The wait ----------

  /** In step m of the run the runner has asked all workers and ends a poll. */
  predicate EndsPoll(c: Config, run: seq<System>, m: nat)
    requires m + 1 < |run|
  {
    run[m].runner.PollRunning? && run[m].runner.i == c.workers && run[m + 1].runner != run[m].runner
  }

  /** How many polls have been completed, and how many of them found somebody busy. */
  function Polls(c: Config, run: seq<System>, k: nat): nat
    requires k < |run|
  {
    if k == 0 then 0 else Polls(c, run, k - 1) + if EndsPoll(c, run, k - 1) then 1 else 0
  }

  function BusyPolls(c: Config, run: seq<System>, k: nat): nat
    requires k < |run|
  {
    if k == 0 then 0
    else BusyPolls(c, run, k - 1)
         + if EndsPoll(c, run, k - 1) && run[k - 1].runner.remaining > 0 then 1 else 0
  }

  /** Where the runner stands, in terms of the polls it has completed. */
  ghost predicate WaitInv(c: Config, run: seq<System>, k: nat)
    requires k < |run|
  {
    var polls, busy := Polls(c, run, k), BusyPolls(c, run, k);
    match run[k].runner
    case PollRunning(_, _, seconds, passes) => polls == busy == passes - 1 && busy + seconds == c.shutdownDelay
    case PollOutstanding(_, _, seconds, passes) => polls == busy == passes - 1 && busy + seconds == c.shutdownDelay
    case StoppingWorkers(_, drained) => WaitOver(c, drained, polls, busy)
    case Finished(drained) => WaitOver(c, drained, polls, busy)
    case _ => polls == busy == 0
  }

  predicate WaitOver(c: Config, drained: bool, polls: nat, busy: nat) {
    if drained then polls == busy + 1 <= c.shutdownDelay else polls == busy == Max(c.shutdownDelay, 0)
  }

  lemma WaitInvStep(c: Config, run: seq<System>, k: nat)
    requires c.Valid() && IsRun(c, run) && k + 1 < |run| && WaitInv(c, run, k)
    ensures WaitInv(c, run, k + 1)
  {
    RunnerAt(c, run, k);
    var step := StepAt(c, run, k);
    RunnerOrder(c, run[k], step);
  }

  lemma {:induction false} WaitInvOnRun(c: Config, run: seq<System>, k: nat)
    requires c.Valid() && IsRun(c, run) && k < |run|
    ensures WaitInv(c, run, k)
  {
    if k == 0 {
    } else {
      WaitInvOnRun(c, run, k - 1);
      WaitInvStep(c, run, k - 1);
    }
  }

  /**
   The runner waits as it should, in every run: it gives up only when worker_shutdown_delay
   polls have each found somebody busy (without any poll if the delay is not positive), and it
   succeeds exactly with the first poll that finds nobody busy, within the delay.
   */
  lemma RunnerWaits(c: Config, run: seq<System>, k: nat)
    requires c.Valid() && IsRun(c, run) && k < |run| && ShuttingDown(run[k].runner)
    ensures !run[k].runner.drained ==> Polls(c, run, k) == BusyPolls(c, run, k) == Max(c.shutdownDelay, 0)
    ensures run[k].runner.drained ==> Polls(c, run, k) == BusyPolls(c, run, k) + 1 <= c.shutdownDelay
  {
    WaitInvOnRun(c, run, k);
  }

  /** Since the last poll ended, some worker had more work when it was asked. */
  ghost predicate SawWork(c: Config, run: seq<System>, k: nat) {
    exists j, i :: 0 <= j < k < |run| && 0 <= i < |run[j].workers| && HasMoreWork(run[j].workers[i])
                   && NoPollEnds(c, run, j, k)
  }

  predicate NoPollEnds(c: Config, run: seq<System>, j: nat, k: nat)
    requires k < |run|
  {
    forall m :: j <= m < k ==> !EndsPoll(c, run, m)
  }

  /** A worker is counted as remaining only if it had more work when it was asked. */
  lemma {:induction false} RemainingHadWork(c: Config, run: seq<System>, k: nat)
    requires c.Valid() && IsRun(c, run) && k < |run|
    ensures run[k].runner.PollRunning? || run[k].runner.PollOutstanding? ==>
              run[k].runner.remaining > 0 ==> SawWork(c, run, k)
  {
    if k == 0 {
    } else {
      RemainingHadWork(c, run, k - 1);
      RunnerAt(c, run, k - 1);
      var step := StepAt(c, run, k - 1);
      RunnerOrder(c, run[k - 1], step);
      RemainingStep(c, run, k - 1, step);
    }
  }

  lemma RemainingStep(c: Config, run: seq<System>, k: nat, step: Step)
    requires c.Valid() && k + 1 < |run| && |run[k].workers| == c.workers && PollInv(c, run[k])
    requires Enabled(c, run[k], step) && run[k + 1] == Apply(c, run[k], step)
    requires !step.RunnerStep? ==> run[k + 1].runner == run[k].runner
    requires run[k].runner.PollRunning? || run[k].runner.PollOutstanding? ==>
               run[k].runner.remaining > 0 ==> SawWork(c, run, k)
    ensures run[k + 1].runner.PollRunning? || run[k + 1].runner.PollOutstanding? ==>
              run[k + 1].runner.remaining > 0 ==> SawWork(c, run, k + 1)
  {
    var r, r' := run[k].runner, run[k + 1].runner;
    if (r'.PollRunning? || r'.PollOutstanding?) && r'.remaining > 0 {
      assert !EndsPoll(c, run, k);
      if r.remaining > 0 {
        var j, i :| 0 <= j < k < |run| && 0 <= i < |run[j].workers| && HasMoreWork(run[j].workers[i])
                    && NoPollEnds(c, run, j, k);
        assert NoPollEnds(c, run, j, k + 1);
      } else {
        assert HasMoreWork(run[k].workers[r.i]) && NoPollEnds(c, run, k, k + 1);
      }
    }
  }

  /** The runner polls and stops workers only after the scheduler's loop has returned. */
  lemma {:induction false} JoinWaitsForLoop(c: Config, run: seq<System>, k: nat)
    requires c.Valid() && IsRun(c, run) && k < |run|
    ensures SchedulerStopped(run[k].runner) && !run[k].runner.Joining? ==> run[k].sched.Done?
  {
    if k == 0 {
    } else {
      JoinWaitsForLoop(c, run, k - 1);
      SchedulerAt(c, run, k - 1);
      RunnerAt(c, run, k - 1);
      var step := StepAt(c, run, k - 1);
      RunnerOrder(c, run[k - 1], step);
      SchedulerMoves(c, run[k - 1], step);
    }
  }

  // ---------- Stopped workers ----------

  ghost predicate StoppedUpTo(s: System, k: int) {
    forall j :: 0 <= j < k && j < |s.workers| ==> !s.workers[j].running
  }

  ghost predicate StoppedInv(c: Config, s: System) {
    && (s.runner.StoppingWorkers? ==> StoppedUpTo(s, s.runner.i))
    && (s.runner.Finished? ==> StoppedUpTo(s, c.workers))
  }

  /** Only a start makes a worker run. */
  lemma StaysStopped(c: Config, s: System, step: Step, i: nat)
    requires c.Valid() && |s.workers| == c.workers && Enabled(c, s, step) && i < c.workers
    requires !s.runner.Starting? && !s.workers[i].running
    ensures |Apply(c, s, step).workers| == c.workers && !Apply(c, s, step).workers[i].running
  {
    StepChangesWorker(c, s, step, i);
  }

  lemma StoppedInvStep(c: Config, s: System, step: Step)
    requires c.Valid() && |s.workers| == c.workers && Enabled(c, s, step) && StoppedInv(c, s)
    requires PollInv(c, s) && (SchedulerStopped(s.runner) ==> s.state == STOPPING)
    ensures StoppedInv(c, Apply(c, s, step))
  {
    var s' := Apply(c, s, step);
    RunnerOrder(c, s, step);
    forall j | 0 <= j < c.workers && ShuttingDown(s.runner) && !s.workers[j].running
      ensures |s'.workers| == c.workers && !s'.workers[j].running
    {
      StaysStopped(c, s, step, j);
    }
  }

  lemma {:induction false} StoppedInvOnRun(c: Config, run: seq<System>, k: nat)
    requires c.Valid() && IsRun(c, run) && k < |run|
    ensures StoppedInv(c, run[k])
  {
    if k == 0 {
    } else {
      StoppedInvOnRun(c, run, k - 1);
      RunnerAt(c, run, k - 1);
      var step := StepAt(c, run, k - 1);
      StoppedInvStep(c, run[k - 1], step);
    }
  }

  /** When the runner has finished, no worker runs, whether or not the wait succeeded. */
  lemma FinishedMeansStopped(c: Config, run: seq<System>, k: nat, i: nat)
    requires c.Valid() && IsRun(c, run) && k < |run| && run[k].runner.Finished? && i < c.workers
    ensures |run[k].workers| == c.workers && !run[k].workers[i].running
  {
    StoppedInvOnRun(c, run, k);
    RunnerAt(c, run, k);
  }

  /** How many events a worker that does not run can still have taken in the end. */
  function LastTaken(w: Worker): nat {
    w.taken + if w.consuming && !w.pc.Handling? then 1 else 0
  }

  /** How many events such a worker can still have handled in the end. */
  function LastHandled(w: Worker): nat {
    w.live + if w.pc.Deciding? || w.pc.Sending? then 1 else 0
  }

  lemma NothingMoreOnChange(c: Config, s: System, step: Step, w: Worker, w': Worker)
    requires c.Valid() && WorkerChange(c, s, step, w, w') && !s.runner.Starting?
    requires !w.running
    ensures !w'.running && LastTaken(w') <= LastTaken(w) && LastHandled(w') <= LastHandled(w)
  {
  }

  lemma {:induction false} NothingMore(c: Config, run: seq<System>, j: nat, k: nat, i: nat)
    requires c.Valid() && IsRun(c, run) && j <= k < |run| && i < c.workers && |run[j].workers| == c.workers
    requires !run[j].workers[i].running && !run[j].runner.Starting?
    ensures |run[k].workers| == c.workers && !run[k].workers[i].running && !run[k].runner.Starting?
    ensures LastTaken(run[k].workers[i]) <= LastTaken(run[j].workers[i])
    ensures LastHandled(run[k].workers[i]) <= LastHandled(run[j].workers[i])
  {
    if j == k {
    } else {
      NothingMore(c, run, j, k - 1, i);
      RunnerAt(c, run, k - 1);
      var step := StepAt(c, run, k - 1);
      RunnerOrder(c, run[k - 1], step);
      StepChangesWorker(c, run[k - 1], step, i);
      NothingMoreOnChange(c, run[k - 1], step, run[k - 1].workers[i], run[k].workers[i]);
    }
  }

  /**
   A worker that has stopped running, however it did, takes at most one more event, which it
   does not handle; at most the tick it has in hand is still finished.
   */
  lemma StoppedWorkerHandlesNothing(c: Config, run: seq<System>, j: nat, k: nat, i: nat)
    requires c.Valid() && IsRun(c, run) && j <= k < |run| && i < c.workers && |run[j].workers| == c.workers
    requires !run[j].workers[i].running && !run[j].runner.Starting?
    ensures |run[k].workers| == c.workers && !run[k].workers[i].running
    ensures
      var w, w' := run[j].workers[i], run[k].workers[i];
      && w'.taken <= w.taken + 1
      && w'.live <= w.live + (if w.pc.Deciding? || w.pc.Sending? then 1 else 0)
  {
    NothingMore(c, run, j, k, i);
  }

  // ---------- A wait that succeeds ----------

  /** Workers before `k` have halted with nothing outstanding. */
  ghost predicate Halted(c: Config, s: System, k: int, limit: int) {
    && |s.workers| == c.workers
    && (forall i :: 0 <= i < c.workers && i < k ==> !s.workers[i].running && s.workers[i].outstanding == 0)
    && (forall i :: k <= i < c.workers && 0 <= i ==> Ready(c, s.workers[i], limit, 0, []))
  }

  /** Worker `i` takes STOP and halts. */
  lemma DigestStop(c: Config, values: set<int>, run: seq<System>, i: nat, limit: int) returns (run': seq<System>)
    requires c.Valid() && Asking(c, values, run) && |Last(run).workers| == c.workers && i < c.workers
    requires Ready(c, Last(run).workers[i], limit, 0, [STOP_EVENT])
    ensures Asking(c, values, run') && OnlyWorkerDiffers(Last(run), i, Last(run'))
    ensures !Last(run').workers[i].running && Last(run').workers[i].outstanding == 0
  {
    var w := Last(run).workers[i];
    assert w.log[w.taken] == w.log[w.taken..][0];
    run' := Extend(c, values, run, TakeStep(i));
    run' := Extend(c, values, run', ActStep(i, false));
    run' := Extend(c, values, run', ActStep(i, false));
  }

  /** The loop puts STOP into the first `k` queues, and these workers halt. */
  lemma {:induction false} HaltWorkers(c: Config, values: set<int>, k: nat) returns (run: seq<System>)
    requires c.Valid() && k <= c.workers
    ensures Asking(c, values, run) && Halted(c, Last(run), k, InitialLimit(c))
    ensures Last(run).sched == Finishing(k) && Last(run).runner == Joining
    decreases k
  {
    if k == 0 {
      run := FirstTest(c, values);
      run := Extend(c, values, run, RunnerStep);
      run := Extend(c, values, run, SchedulerStep);
      run := Extend(c, values, run, SchedulerStep);
      run := Extend(c, values, run, SchedulerStep);
    } else {
      run := HaltWorkers(c, values, k - 1);
      ReadyPut(c, Last(run).workers[k - 1], InitialLimit(c), 0, STOP_EVENT);
      run := Extend(c, values, run, SchedulerStep);
      run := DigestStop(c, values, run, k - 1, InitialLimit(c));
    }
  }

  /** The runner asks the first `k` workers of its first poll, all of which are idle. */
  lemma {:induction false} PollIdle(c: Config, values: set<int>, k: nat) returns (run: seq<System>)
    requires c.Valid() && c.shutdownDelay > 0 && k <= c.workers
    ensures Asking(c, values, run) && Halted(c, Last(run), c.workers, 0)
    ensures Last(run).runner == PollRunning(k, 0, c.shutdownDelay, 1)
    decreases k
  {
    if k == 0 {
      run := HaltWorkers(c, values, c.workers);
      run := Extend(c, values, run, SchedulerStep);
      run := Extend(c, values, run, RunnerStep);
    } else {
      run := PollIdle(c, values, k - 1);
      run := Extend(c, values, run, RunnerStep);
      run := Extend(c, values, run, RunnerStep);
    }
  }

  lemma {:induction false} StopFirst(c: Config, values: set<int>, k: nat) returns (run: seq<System>)
    requires c.Valid() && c.shutdownDelay > 0 && k <= c.workers
    ensures Asking(c, values, run) && |Last(run).workers| == c.workers
    ensures Last(run).runner == StoppingWorkers(k, true)
    decreases k
  {
    if k == 0 {
      run := PollIdle(c, values, c.workers);
      run := Extend(c, values, run, RunnerStep);
    } else {
      run := StopFirst(c, values, k - 1);
      run := Extend(c, values, run, RunnerStep);
    }
  }

  /** For every configuration with a delay there is a run whose wait succeeds. */
  lemma WaitCanSucceed(c: Config) returns (run: seq<System>)
    requires c.Valid() && c.shutdownDelay > 0
    ensures IsRun(c, run) && Last(run).runner == Finished(true)
  {
    run := StopFirst(c, {}, c.workers);
    run := Extend(c, {}, run, RunnerStep);
  }
}
