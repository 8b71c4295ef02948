/**
 The methods and the steps: one undisturbed call of messageAvailable and one undisturbed poll
 of the workers are paths of the transition system, and whatever queues Scheduler.Loop can
 leave behind are those of some run.
 */
module Refinement {
  import opened Events
  import opened WorkerModel
  import opened System
  import opened Dealing
  import opened SystemTheorems
  import opened WitnessRuns
  import Pacing
  import Runner
  import SchedulerThread
  import WorkerThread

  /** The state variable after `n` actions: early termination makes it STOPPING. */
  function StateAfter(c: Config, w: Worker, exhausted: bool, n: nat, state: RunState): RunState
    requires c.Valid() && |w.perConnection| == c.connections && w.connection < c.connections
    decreases n
  {
    if n == 0 then state
    else StateAfter(c, Act(c, w, exhausted), exhausted, n - 1, if w.pc.Terminating? then STOPPING else state)
  }

  function ActTimes(c: Config, w: Worker, exhausted: bool, n: nat): Worker
    requires c.Valid() && |w.perConnection| == c.connections && w.connection < c.connections
    decreases n
  {
    if n == 0 then w else ActTimes(c, Act(c, w, exhausted), exhausted, n - 1)
  }

  lemma PathPrepend(c: Config, s: System, step: Step, run: seq<System>)
    requires c.Valid() && |s.workers| == c.workers && Enabled(c, s, step)
    requires IsPath(c, run) && run[0] == Apply(c, s, step)
    ensures IsPath(c, [s] + run)
  {
    var run' := [s] + run;
    forall k | 0 <= k < |run'| - 1
      ensures StepTaken(c, run', k)
    {
      if k > 0 {
        assert StepTaken(c, run, k - 1);
      }
    }
  }

  /** Up to `n` actions of worker `i` in a row. */
  lemma {:induction false} ActPath(c: Config, s: System, i: nat, exhausted: bool, n: nat)
      returns (run: seq<System>)
    requires c.Valid() && |s.workers| == c.workers && i < c.workers
    requires |s.workers[i].perConnection| == c.connections && s.workers[i].connection < c.connections
    ensures IsPath(c, run) && run[0] == s
    ensures run[|run| - 1] == s.(
              workers := s.workers[i := ActTimes(c, s.workers[i], exhausted, n)],
              state := StateAfter(c, s.workers[i], exhausted, n, s.state))
    decreases n
  {
    if n == 0 {
      run := [s];
      assert s.workers[i := s.workers[i]] == s.workers;
    } else if s.workers[i].pc.Idle? {
      run := ActPath(c, s, i, exhausted, n - 1);
    } else {
      var s' := ActNext(c, s, i, exhausted);
      var rest := ActPath(c, s', i, exhausted, n - 1);
      PathPrepend(c, s, ActStep(i, exhausted), rest);
      run := [s] + rest;
      var w' := ActTimes(c, s.workers[i], exhausted, n);
      assert s'.workers[i := w'] == s.workers[i := w'];
    }
  }

  /**
   Taking an event and handling it to the end is a path of the transition system whose last
   state holds exactly what Worker.MessageAvailable leaves behind.
   */
  lemma MessageAvailableIsAPath(c: Config, s: System, i: nat, exhausted: bool) returns (run: seq<System>)
    requires c.Valid() && |s.workers| == c.workers && i < c.workers
    requires |s.workers[i].perConnection| == c.connections && s.workers[i].connection < c.connections
    requires
      var w := s.workers[i];
      w.started && w.consuming && w.pc.Idle? && w.taken < |w.log|
    ensures IsPath(c, run) && run[0] == s
    ensures
      var w := s.workers[i];
      run[|run| - 1] == s.(
        workers := s.workers[i := WorkerThread.AfterEvent(c, Take(w), w.log[w.taken], exhausted)],
        state := if WorkerThread.Terminates(w, w.log[w.taken], exhausted) then STOPPING else s.state)
  {
    var w := s.workers[i];
    var s' := s.(workers := s.workers[i := Take(w)]);
    var rest := ActPath(c, s', i, exhausted, 4);
    PathPrepend(c, s, TakeStep(i), rest);
    run := [s] + rest;
    FourActions(c, Take(w), exhausted);
    StateAfterEvent(c, Take(w), w.log[w.taken], exhausted, s.state);
    WorkerThread.SettleEvent(c, Take(w), w.log[w.taken], exhausted);
    var w' := WorkerThread.AfterEvent(c, Take(w), w.log[w.taken], exhausted);
    assert s'.workers[i := w'] == s.workers[i := w'];
  }

  /** A reply to any request in flight can arrive while the event thread is idle, and does what OnReply does. */
  lemma ReplyIsAPath(c: Config, s: System, i: nat, id: nat) returns (run: seq<System>)
    requires c.Valid() && |s.workers| == c.workers && i < c.workers
    requires s.workers[i].pc.Idle? && id in s.workers[i].inFlight
    ensures IsPath(c, run) && run[0] == s
    ensures Last(run) == s.(workers := s.workers[i := Complete(s.workers[i], id)])
  {
    var s' := s.(workers := s.workers[i := Complete(s.workers[i], id)]);
    PathPrepend(c, s, CompleteStep(i, id), [s']);
    run := [s] + [s'];
  }

  lemma FourActions(c: Config, w: Worker, exhausted: bool)
    requires c.Valid() && |w.perConnection| == c.connections && w.connection < c.connections
    ensures ActTimes(c, w, exhausted, 4) == WorkerThread.Settle(c, w, exhausted)
  {
    var w1 := Act(c, w, exhausted);
    var w2 := Act(c, w1, exhausted);
    assert ActTimes(c, w2, exhausted, 2) == Act(c, Act(c, w2, exhausted), exhausted);
  }

  lemma StateAfterEvent(c: Config, w: Worker, e: Event, exhausted: bool, state: RunState)
    requires c.Valid() && |w.perConnection| == c.connections && w.connection < c.connections
    requires w.pc == Handling(e)
    ensures StateAfter(c, w, exhausted, 4, state) ==
            if WorkerThread.Terminates(w, e, exhausted) then STOPPING else state
  {
    var w1 := Act(c, w, exhausted);
    var w2 := Act(c, w1, exhausted);
    var w3 := Act(c, w2, exhausted);
    assert !w1.pc.Terminating? && !w2.pc.Terminating?;
    assert w3.pc.Terminating? <==> WorkerThread.Terminates(w, e, exhausted);
    assert StateAfter(c, w2, exhausted, 2, state) == if w3.pc.Terminating? then STOPPING else state;
  }

  // ---------- Scheduler.Loop ----------

  /**
   Whatever epochs Scheduler.Loop goes through, a run of the transition system deals the same
   to every queue: its scheduler puts exactly what the contract of Loop says.
   */
  lemma LoopIsARun(c: Config, epochs: seq<Pacing.Epoch>, queues: seq<seq<Event>>) returns (run: seq<System>)
    requires c.Valid() && |epochs| >= 1 && |queues| == c.workers
    requires forall i :: 0 <= i < |queues| ==>
               queues[i] == Dealings(SchedulerThread.Counts(epochs), |queues|, i) + [STOP_EVENT]
    ensures IsRun(c, run) && Last(run).sched.Done? && |Last(run).workers| == c.workers
    ensures forall i :: 0 <= i < c.workers ==> SchedulerPart(Last(run).workers[i].log) == queues[i]
  {
    var values: set<int> := {};
    run := DealEpochs(c, values, SchedulerThread.Counts(epochs));
    run := EndLoop(c, values, run);
    forall i | 0 <= i < c.workers
      ensures SchedulerPart(Last(run).workers[i].log) == queues[i]
    {
      LoopExit(c, run, |run| - 1, |run| - 1, i);
    }
  }

  // ---------- Polling ----------

  /** What the workers of a state answer to hasMoreWork, in any poll. */
  function Answers(workers: seq<Worker>): (nat, nat) -> bool {
    (pass: nat, i: nat) => i < |workers| && HasMoreWork(workers[i])
  }

  /** Worker `i` is asked: one read if it runs, two if it does not. */
  lemma AskWorker(c: Config, s: System, run: seq<System>) returns (run': seq<System>)
    requires c.Valid() && |s.workers| == c.workers && s.runner.PollRunning? && s.runner.i < c.workers
    requires IsPath(c, run) && run[0] == AfterAnswer(c, s)
    ensures IsPath(c, run') && run'[0] == s && Last(run') == Last(run)
  {
    if s.workers[s.runner.i].running {
      PathPrepend(c, s, RunnerStep, run);
      run' := [s] + run;
    } else {
      var s' := RunnerNext(c, s);
      PathPrepend(c, s', RunnerStep, run);
      PathPrepend(c, s, RunnerStep, [s'] + run);
      run' := [s] + ([s'] + run);
    }
  }

  /** The state after worker `i` has been asked while nobody else moves. */
  function AfterAnswer(c: Config, s: System): System
    requires |s.workers| == c.workers && s.runner.PollRunning? && s.runner.i < c.workers
  {
    var r := s.runner;
    s.(runner := PollRunning(
        r.i + 1, r.remaining + (if HasMoreWork(s.workers[r.i]) then 1 else 0), r.seconds, r.passes))
  }

  /** How a poll that found `remaining` busy workers ends. */
  function AfterPoll(remaining: nat, seconds: nat, passes: nat): RunnerPc {
    if remaining == 0 then StoppingWorkers(0, true)
    else if seconds > 1 then PollRunning(0, 0, seconds - 1, passes + 1)
    else StoppingWorkers(0, false)
  }

  /**
   An undisturbed poll is a path: it counts the workers that have more work, as one pass of
   Runner.AwaitWorkers does, and goes on, succeeds or gives up accordingly.
   */
  lemma {:induction false} PollIsAPath(c: Config, s: System) returns (run: seq<System>)
    requires c.Valid() && |s.workers| == c.workers && s.runner.PollRunning? && s.runner.i <= c.workers
    requires s.runner.remaining == Runner.Busy(Answers(s.workers), s.runner.passes, s.runner.i)
    ensures IsPath(c, run) && run[0] == s
    ensures
      var r := s.runner;
      Last(run) == s.(runner := AfterPoll(Runner.Busy(Answers(s.workers), r.passes, c.workers), r.seconds, r.passes))
    decreases c.workers - s.runner.i
  {
    if s.runner.i == c.workers {
      var s' := RunnerNext(c, s);
      PathPrepend(c, s, RunnerStep, [s']);
      run := [s] + [s'];
    } else {
      run := PollIsAPath(c, AfterAnswer(c, s));
      run := AskWorker(c, s, run);
    }
  }
}
