/**
 Pausing at start-up and resuming with a phase: what --wait_for_runner_ready means for every
 run, and what a call of resume2 does from its beginning to the requests sent after it.
 */
module Resuming {
  import opened Events
  import opened WorkerModel
  import opened System
  import opened SystemInvariant
  import opened SystemTheorems
  import opened WitnessRuns

  // ---------- Waiting for the first resume ----------

  /** Step m of the run resumes the scheduler. */
  predicate Resumes(run: seq<System>, m: nat)
    requires m + 1 < |run|
  {
    run[m].state == PAUSED && run[m + 1].state == RUNNING
  }

  /** Up to state k nothing has resumed the scheduler. */
  predicate NotResumed(run: seq<System>, k: nat)
    requires k < |run|
  {
    forall m :: 0 <= m < k ==> !Resumes(run, m)
  }

  lemma {:induction false} WaitsForResume(c: Config, run: seq<System>, k: nat)
    requires c.Valid() && IsRun(c, run) && k < |run| && c.waitForRunnerReady && NotResumed(run, k)
    ensures run[k].state != RUNNING && !run[k].sched.Ticking? && Sum(run[k].epochs) == 0
  {
    if k == 0 {
    } else {
      WaitsForResume(c, run, k - 1);
      SchedulerAt(c, run, k - 1);
      var step := StepAt(c, run, k - 1);
      assert !Resumes(run, k - 1);
      WaitingStep(c, run[k - 1], step);
    }
  }

  lemma WaitingStep(c: Config, s: System, step: Step)
    requires c.Valid() && SchedulerInv(c, s) && Enabled(c, s, step)
    requires s.state != RUNNING && !s.sched.Ticking? && Sum(s.epochs) == 0
    requires s.state == PAUSED ==> Apply(c, s, step).state != RUNNING
    ensures
      var s' := Apply(c, s, step);
      s'.state != RUNNING && !s'.sched.Ticking? && Sum(s'.epochs) == 0
  {
    if s.state == STOPPING {
      StoppingIsAbsorbing(c, s, step);
    }
    NewEpochSum([]);
    SchedulerMoves(c, s, step);
    if step.SchedulerStep? {
      WaitingScheduler(c, s);
    }
  }

  lemma WaitingScheduler(c: Config, s: System)
    requires c.Valid() && |s.workers| == c.workers && s.state != RUNNING && !s.sched.Ticking? && Sum(s.epochs) == 0
    ensures !SchedulerNext(c, s).sched.Ticking? && Sum(SchedulerNext(c, s).epochs) == 0
  {
    if s.sched.AtOuter? {
      NewEpochSum(s.epochs);
    }
  }

  /** Every tick comes after a resume. */
  ghost predicate TicksNeedResume(c: Config, run: seq<System>) {
    forall k :: 0 <= k < |run| && TotalCount(SEND_REQUEST, run[k].workers) > 0 ==> !NotResumed(run, k)
  }

  /** A run in which the state is always RUNNING. */
  ghost predicate NeverPaused(c: Config, run: seq<System>)
    requires c.Valid()
  {
    IsRun(c, run) && forall k :: 0 <= k < |run| ==> run[k].state == RUNNING
  }

  lemma Continue(c: Config, run: seq<System>, step: Step) returns (run': seq<System>)
    requires c.Valid() && NeverPaused(c, run) && |Last(run).workers| == c.workers && Enabled(c, Last(run), step)
    requires Apply(c, Last(run), step).state == RUNNING
    ensures NeverPaused(c, run') && Last(run') == Apply(c, Last(run), step)
  {
    var next := Apply(c, Last(run), step);
    run' := run + [next];
    forall k | 0 <= k < |run'| - 1
      ensures StepTaken(c, run', k)
    {
      if k < |run| - 1 {
        assert StepTaken(c, run, k);
      }
    }
  }

  lemma {:induction false} StartUnpaused(c: Config, k: nat) returns (run: seq<System>)
    requires c.Valid() && !c.waitForRunnerReady && k <= c.workers
    ensures NeverPaused(c, run) && |Last(run).workers| == c.workers
    ensures Last(run).runner == Starting(k) && Last(run).sched.NotStarted?
    decreases k
  {
    if k == 0 {
      run := [Init(c)];
    } else {
      run := StartUnpaused(c, k - 1);
      run := Continue(c, run, RunnerStep);
    }
  }

  lemma {:induction false} ResetUnpaused(c: Config, k: nat) returns (run: seq<System>)
    requires c.Valid() && !c.waitForRunnerReady && k <= c.workers
    ensures NeverPaused(c, run) && |Last(run).workers| == c.workers
    ensures Last(run).sched == Resetting(k) && Last(run).epochs == [0]
    decreases k
  {
    if k == 0 {
      run := StartUnpaused(c, c.workers);
      run := Continue(c, run, RunnerStep);
      run := Continue(c, run, RunnerStep);
    } else {
      run := ResetUnpaused(c, k - 1);
      run := Continue(c, run, SchedulerStep);
    }
  }

  /** Without the flag the first tick needs no call at all. */
  lemma TickUnpaused(c: Config) returns (run: seq<System>)
    requires c.Valid() && !c.waitForRunnerReady
    ensures NeverPaused(c, run) && TotalCount(SEND_REQUEST, Last(run).workers) > 0
  {
    run := ResetUnpaused(c, c.workers);
    run := Continue(c, run, SchedulerStep);
    run := Continue(c, run, SchedulerStep);
    run := Continue(c, run, SchedulerStep);
    assert Last(run).epochs == [1];
    assert [1][..0] == [];
    SchedulerAt(c, run, |run| - 1);
    AllSends(c, Last(run));
  }

  /** In every run the first tick comes after a resume, if and only if --wait_for_runner_ready is given. */
  lemma TicksNeedResumeIffFlag(c: Config)
    requires c.Valid()
    ensures (forall run | IsRun(c, run) :: TicksNeedResume(c, run)) <==> c.waitForRunnerReady
  {
    if c.waitForRunnerReady {
      forall run | IsRun(c, run)
        ensures TicksNeedResume(c, run)
      {
        NoTickBeforeResume(c, run);
      }
    } else {
      var run := TickUnpaused(c);
      assert NotResumed(run, |run| - 1);
      assert !TicksNeedResume(c, run);
    }
  }

  lemma NoTickBeforeResume(c: Config, run: seq<System>)
    requires c.Valid() && IsRun(c, run) && c.waitForRunnerReady
    ensures TicksNeedResume(c, run)
  {
    forall k | 0 <= k < |run| && TotalCount(SEND_REQUEST, run[k].workers) > 0
      ensures !NotResumed(run, k)
    {
      if NotResumed(run, k) {
        WaitsForResume(c, run, k);
        SchedulerAt(c, run, k);
        AllSends(c, run[k]);
      }
    }
  }

  // ---------- resume2 ----------

  function PhaseEvent(name: string): Event {
    Event(SET_PHASE, Str(name))
  }

  /** Step m of the run begins call j, and it is resume2 with this phase. */
  predicate BeginsResume2(run: seq<System>, m: nat, j: nat, name: string)
    requires m + 1 < |run|
  {
    j == |run[m].calls| < |run[m + 1].calls| && run[m + 1].calls[j] == Broadcasting(PhaseEvent(name), [], true)
  }

  /** From then on the call carries that phase, and will resume. */
  predicate IsResume2(s: System, j: nat, name: string) {
    && j < |s.calls| && !s.calls[j].Loading? && s.calls[j].e == PhaseEvent(name)
    && (s.calls[j].Broadcasting? ==> s.calls[j].resume)
  }

  lemma {:induction false} Resume2Stays(c: Config, run: seq<System>, m: nat, k: nat, j: nat, name: string)
    requires c.Valid() && IsRun(c, run) && m < k < |run| && BeginsResume2(run, m, j, name)
    ensures IsResume2(run[k], j, name)
  {
    if k == m + 1 {
    } else {
      Resume2Stays(c, run, m, k - 1, j, name);
      var step := StepAt(c, run, k - 1);
      if !step.CallStep? {
        OthersKeepCall(c, run[k - 1], step, j);
      }
    }
  }

  lemma BeginningNeedsPause(c: Config, run: seq<System>, m: nat, j: nat, name: string)
    requires c.Valid() && IsRun(c, run) && m + 1 < |run| && BeginsResume2(run, m, j, name)
    ensures c.waitForRunnerReady ==> run[m].state == PAUSED
  {
    var step := StepAt(c, run, m);
    match step
    case CallStep(i) =>
      match run[m].calls[i] {
        case Broadcasting(_, _, _) =>
        case _ =>
      }
    case _ =>
  }

  /** Every resume2 of a run begins while the scheduler is PAUSED. */
  ghost predicate BegunPaused(run: seq<System>) {
    forall m: nat, j: nat, name :: m + 1 < |run| && BeginsResume2(run, m, j, name) ==> run[m].state == PAUSED
  }

  /** The CHECK in setPhase holds back resume2 outside PAUSED if and only if --wait_for_runner_ready is given. */
  lemma Resume2NeedsPauseIffFlag(c: Config)
    requires c.Valid()
    ensures (forall run | IsRun(c, run) :: BegunPaused(run)) <==> c.waitForRunnerReady
  {
    if c.waitForRunnerReady {
      forall run: seq<System> | IsRun(c, run)
        ensures BegunPaused(run)
      {
        forall m: nat, j: nat, name | m + 1 < |run| && BeginsResume2(run, m, j, name)
          ensures run[m].state == PAUSED
        {
          BeginningNeedsPause(c, run, m, j, name);
        }
      }
    } else {
      var start := FirstTest(c, {});
      var m := |start| - 1;
      var run := Extend(c, {}, start, StartResume2(""));
      assert BeginsResume2(run, m, 0, "");
      assert !BegunPaused(run);
    }
  }

  /** The return of the call resumes the scheduler if it is still paused, and changes the state in no other way. */
  lemma ReturnResumes(c: Config, run: seq<System>, k: nat, j: nat, name: string)
    requires c.Valid() && IsRun(c, run) && k + 1 < |run| && IsResume2(run[k], j, name)
    requires run[k].calls[j].Broadcasting? && j < |run[k + 1].calls| && run[k + 1].calls[j].Returned?
    ensures run[k + 1].state == if run[k].state == PAUSED then RUNNING else run[k].state
  {
    var step := StepAt(c, run, k);
    assert step.CallStep? && step.j == j by {
      if !step.CallStep? {
        OthersKeepCall(c, run[k], step, j);
      }
    }
  }

  /**
   A call of resume2 from its beginning in step b to its return in step r: it begins only
   while PAUSED if --wait_for_runner_ready is given; when it returns, a scheduler that is still
   paused runs; and every event put into a queue after that sits behind its phase and, unless
   another SET_PHASE comes between, is handled in it.
   */
  lemma Resume2SetsPhaseAndResumes(c: Config, run: seq<System>, b: nat, r: nat, k: nat, j: nat, i: nat, name: string)
    requires c.Valid() && IsRun(c, run) && b < r < k < |run| && i < c.workers
    requires BeginsResume2(run, b, j, name)
    requires j < |run[r].calls| && run[r].calls[j].Broadcasting? && j < |run[r + 1].calls| && run[r + 1].calls[j].Returned?
    ensures c.waitForRunnerReady ==> run[b].state == PAUSED
    ensures run[r + 1].state == if run[r].state == PAUSED then RUNNING else run[r].state
    ensures |run[r].workers| == |run[k].workers| == c.workers
    ensures
      var w, p := run[k].workers[i], run[r + 1].calls[j].pos;
      && |p| == c.workers
      && p[i] < |run[r].workers[i].log| <= |w.log|
      && w.log[p[i]] == PhaseEvent(name)
      && (|run[r].workers[i].log| <= w.live <= |w.log| && (forall q :: p[i] < q < w.live ==> w.log[q].kind != SET_PHASE)
          ==> w.phase == name)
  {
    BeginningNeedsPause(c, run, b, j, name);
    Resume2Stays(c, run, b, r, j, name);
    ReturnResumes(c, run, r, j, name);
    ResumedTicksSeeThePhase(c, run, r, k, j, i, name);
  }

  // ---------- A call that works ----------

  /** Worker `i` handles a change of phase. */
  lemma DigestPhase(c: Config, values: set<int>, run: seq<System>, i: nat, limit: int, name: string)
      returns (run': seq<System>)
    requires c.Valid() && Asking(c, values, run) && |Last(run).workers| == c.workers && i < c.workers
    requires Ready(c, Last(run).workers[i], limit, 0, [PhaseEvent(name)])
    ensures Asking(c, values, run') && OnlyWorkerDiffers(Last(run), i, Last(run'))
    ensures Ready(c, Last(run').workers[i], limit, 0, []) && Last(run').workers[i].phase == name
  {
    var w := Last(run).workers[i];
    assert w.log[w.taken] == w.log[w.taken..][0];
    run' := Extend(c, values, run, TakeStep(i));
    run' := Extend(c, values, run', ActStep(i, false));
  }

  /** The first `k` workers have got and handled the phase of a resume2 called while paused. */
  lemma {:induction false} SpreadPhase(c: Config, values: set<int>, name: string, k: nat)
      returns (run: seq<System>, pos: seq<nat>)
    requires c.Valid() && k <= c.workers
    ensures Asking(c, values, run) && AllReady(c, Last(run), InitialLimit(c), 0)
    ensures Last(run).state == PAUSED && Last(run).calls == [Broadcasting(PhaseEvent(name), pos, true)] && |pos| == k
    ensures forall i :: 0 <= i < k ==> Last(run).workers[i].phase == name
    decreases k
  {
    if k == 0 {
      pos := [];
      run := FirstTest(c, values);
      run := Extend(c, values, run, Pause);
      run := Extend(c, values, run, StartResume2(name));
    } else {
      run, pos := SpreadPhase(c, values, name, k - 1);
      ReadyPut(c, Last(run).workers[k - 1], InitialLimit(c), 0, PhaseEvent(name));
      pos := pos + [|Last(run).workers[k - 1].log|];
      run := Extend(c, values, run, CallStep(0));
      run := DigestPhase(c, values, run, k - 1, InitialLimit(c), name);
    }
  }

  /** For every configuration and phase, a resume2 can leave the scheduler running and every worker in that phase. */
  lemma Resume2Works(c: Config, name: string) returns (run: seq<System>)
    requires c.Valid()
    ensures IsRun(c, run) && |Last(run).workers| == c.workers && Last(run).state == RUNNING
    ensures forall i :: 0 <= i < c.workers ==> Last(run).workers[i].phase == name && Last(run).workers[i].running
  {
    var pos;
    run, pos := SpreadPhase(c, {}, name, c.workers);
    run := Extend(c, {}, run, CallStep(0));
    forall i | 0 <= i < c.workers
      ensures Last(run).workers[i].phase == name && Last(run).workers[i].running
    {
      assert Ready(c, Last(run).workers[i], InitialLimit(c), 0, []);
    }
  }
}
