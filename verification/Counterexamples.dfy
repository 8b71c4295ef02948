/**
 For every configuration, runs that show why claims need their conditions: a worker can have
 stopped while the scheduler runs, a pause can go unobserved, and a failure can be received
 and never published.
 */
module Counterexamples {
  import opened Events
  import opened Dealing
  import opened WorkerModel
  import opened System
  import opened SystemTheorems
  import opened WitnessRuns
  import A = Accounting
  import E = ExceptionCounts

  /**
   A worker between the two statements of early termination is started and not running while
   the scheduler is RUNNING: the exception of StoppedWorkerMeansStopping occurs.
   */
  lemma WorkerStopsBeforeScheduler(c: Config) returns (run: seq<System>)
    requires c.Valid()
    ensures IsRun(c, run) && |Last(run).workers| == c.workers && EndingEarly(Last(run), 0)
    ensures Last(run).workers[0].started && !Last(run).workers[0].running && Last(run).state == RUNNING
  {
    var values := {1};
    run := ChangeLimit(c, values, 1);
    run := DealTo(c, values, run, 1, 0, 0);
    run := AcceptTick(c, values, run, 0, 1, 0);
    run := Extend(c, values, run, ActStep(0, true));
  }

  /**
   Any run that stands at the test of the inner loop can go on with a pause and a resume that
   no test observes: the state was PAUSED, yet they lead back to the same state, and what
   follows is a tick of the same epoch.
   */
  lemma PauseCanBeMissed(c: Config, run: seq<System>) returns (run': seq<System>)
    requires c.Valid() && IsRun(c, run) && Last(run).sched.AtCheck? && Last(run).state == RUNNING
    ensures IsRun(c, run') && |run'| == |run| + 4 && run'[..|run|] == run
    ensures run'[|run|].state == PAUSED && run'[|run| + 1] == Last(run)
    ensures ObservedPauses(run', |run| - 1, |run'| - 1) == 0
    ensures Last(run).epochs != [] && Last(run').epochs == Bump(Last(run).epochs)
  {
    var values := AtTest(c, run);
    var run1 := Extend(c, values, run, Pause);
    var run2 := Extend(c, values, run1, Resume);
    assert Last(run2) == Last(run);
    run' := TickFollows(c, values, run2);
    assert run'[..|run|] == run2[..|run|] == run;
    assert run'[|run|] == run2[|run|] && run'[|run| + 1] == run2[|run| + 1];
  }

  /** The same run can go on with a pause that the test observes; then a resume begins a new epoch. */
  lemma PauseCanBeObserved(c: Config, run: seq<System>) returns (run': seq<System>)
    requires c.Valid() && IsRun(c, run) && Last(run).sched.AtCheck? && Last(run).state == RUNNING
    ensures IsRun(c, run') && |run'| == |run| + 5 && run'[..|run|] == run
    ensures run'[|run|].state == PAUSED && ObservesPause(run', |run|)
    ensures Last(run').state == RUNNING && Last(run').sched == Resetting(0)
    ensures Last(run').epochs == Last(run).epochs + [0]
  {
    var values := AtTest(c, run);
    var run1 := Extend(c, values, run, Pause);
    var run2 := Extend(c, values, run1, SchedulerStep);
    run' := EpochFollows(c, values, run2);
    assert run'[..|run|] == run2[..|run|] == run;
    assert run'[|run|] == run2[|run|] && run'[|run| + 1] == run2[|run| + 1];
  }

  // ---------- A failure that is never published ----------

  /** Worker 0 has one request in flight when the loop has ended. */
  lemma InFlightAtTheEnd(c: Config) returns (run: seq<System>, id: nat)
    requires c.Valid()
    ensures IsRun(c, run) && |Last(run).workers| == c.workers && CanComplete(Last(run).workers[0], id)
    ensures Last(run).runner == Joining && Last(run).sched.Done?
  {
    var values := {1};
    run := ChangeLimit(c, values, 1);
    run := FillWorkers(c, values, run, 1, 1, 0);
    var w := Last(run).workers[0];
    assert Ready(c, w, 1, 1, []);
    run := EndLoop(c, values, run);
    WorkerAt(c, run, |run| - 1, 0);
    assert Last(run).workers[0].inFlight == w.inFlight && |w.inFlight| == 1;
    id :| id in w.inFlight;
  }

  /** The runner has joined the scheduler and is in range. */
  predicate Ending(c: Config, s: System) {
    && |s.workers| == c.workers
    && match s.runner
       case Joining => s.sched.Done?
       case PollRunning(i, _, seconds, _) => i <= c.workers && seconds >= 1
       case PollOutstanding(i, _, seconds, _) => i < c.workers && seconds >= 1
       case StoppingWorkers(i, _) => i <= c.workers
       case Finished(_) => true
       case _ => false
  }

  function Phase(r: RunnerPc): nat {
    if r.Joining? then 3 else if r.PollRunning? || r.PollOutstanding? then 2 else if r.StoppingWorkers? then 1 else 0
  }

  function SecondsLeft(r: RunnerPc): nat {
    if r.PollRunning? || r.PollOutstanding? then r.seconds else 0
  }

  function StepsLeft(c: Config, r: RunnerPc): int {
    match r
    case PollRunning(i, _, _, _) => 2 * (c.workers - i) + 1
    case PollOutstanding(i, _, _, _) => 2 * (c.workers - i)
    case StoppingWorkers(i, _) => c.workers - i
    case _ => 0
  }

  /** The runner polls, gives up or succeeds, and stops the workers, while nobody else moves. */
  lemma {:induction false} RunnerFinishes(c: Config, run: seq<A.Joint>) returns (run': seq<A.Joint>)
    requires c.Valid() && A.IsJointRun(c, run) && A.Sized(c, Last(run)) && Ending(c, Last(run).sys)
    ensures A.IsJointRun(c, run') && A.Sized(c, Last(run')) && Last(run').sys.runner.Finished?
    ensures Last(run').shared == Last(run).shared && Last(run').failed == Last(run).failed
    decreases Phase(Last(run).sys.runner), SecondsLeft(Last(run).sys.runner),
              StepsLeft(c, Last(run).sys.runner)
  {
    if Last(run).sys.runner.Finished? {
      run' := run;
    } else {
      run' := A.ExtendJoint(c, run, A.Move(RunnerStep));
      run' := RunnerFinishes(c, run');
    }
  }

  /**
   A failure that arrives after a worker's last tick is received and never published: the
   program has finished, the request has failed, and no cell shows it. Conservation needs the
   pending amounts.
   */
  lemma FailureCanStayUnpublished(c: Config, name: string) returns (run: seq<A.Joint>)
    requires c.Valid()
    ensures A.IsJointRun(c, run) && Last(run).sys.runner.Finished?
    ensures A.TotalNamed(Last(run).failed, name) > E.Settled(Last(run).shared, name)
  {
    var sys, id := InFlightAtTheEnd(c);
    run := A.EveryRunHasAccounts(c, sys, |sys| - 1);
    A.AccountedOnRun(c, run, |run| - 1);
    assert A.LinkedAt(c, Last(run), 0);
    var failed := A.ExtendJoint(c, run, A.Reply(0, id, A.Failed(name)));
    OwesIt(c, failed, name);
    run := RunnerFinishes(c, failed);
  }

  /** Worker 0 has just received a failure, so that not everything received is published. */
  lemma OwesIt(c: Config, run: seq<A.Joint>, name: string)
    requires c.Valid() && A.IsJointRun(c, run) && A.Sized(c, Last(run))
    requires Last(run).shared.publishers[0].pc.Collecting? && name in Last(run).shared.publishers[0].pending
    requires Last(run).shared.publishers[0].pending[name] > 0
    ensures A.TotalNamed(Last(run).failed, name) > E.Settled(Last(run).shared, name)
  {
    A.FailuresAreAccountedFor(c, run, |run| - 1, name);
    E.SumByAtLeast(E.Owed(name), Last(run).shared.publishers, 0);
  }
}
