/**
 The total of the exception counter along the runs of the whole protocol: workers that really
 send requests, whose replies really fail, and that publish while others do.
 */
module ExactTotals {
  import opened Events
  import opened WorkerModel
  import opened System
  import opened WitnessRuns
  import opened Accounting
  import E = ExceptionCounts

  // ---------- Without overlap ----------

  ghost predicate NeverOverlaps(run: seq<Joint>, k: nat)
    requires k < |run|
  {
    forall m :: 0 <= m <= k ==> E.Exclusive(run[m].shared)
  }

  lemma ActionKeepsTotal(c: Config, j: Joint, a: Action)
    requires c.Valid() && Sized(c, j) && CanAct(c, j, a) && E.UpToDate(j.shared)
    requires E.Exclusive(j.shared) && E.Exclusive(After(c, j, a).shared)
    ensures E.UpToDate(After(c, j, a).shared)
  {
    match a
    case Reply(i, _, Failed(name)) => E.UpToDateStep(j.shared, E.Fail(i, name));
    case Flush(flush) => E.UpToDateStep(j.shared, flush);
    case _ =>
  }

  /** If no two workers are ever between the two halves of the increment, the total is exact. */
  lemma {:induction false} ExactWithoutOverlap(c: Config, run: seq<Joint>, k: nat)
    requires c.Valid() && IsJointRun(c, run) && k < |run| && NeverOverlaps(run, k)
    ensures E.UpToDate(run[k].shared)
  {
    if k == 0 {
      E.InitUpToDate(c.workers);
    } else {
      ExactWithoutOverlap(c, run, k - 1);
      assert ActionTaken(c, run, k - 1);
      var a :| CanAct(c, run[k - 1], a) && run[k] == After(c, run[k - 1], a);
      assert E.Exclusive(run[k - 1].shared) && E.Exclusive(run[k].shared);
      ActionKeepsTotal(c, run[k - 1], a);
    }
  }

  // ---------- With overlap ----------

  /** Worker `i` sends the request of its first tick and is at the end of sendRequest. */
  lemma SendUpToPublishing(c: Config, values: set<int>, run: seq<System>, i: nat) returns (run': seq<System>)
    requires c.Valid() && Asking(c, values, run) && |Last(run).workers| == c.workers && i < c.workers
    requires Ready(c, Last(run).workers[i], 1, 0, [SEND_EVENT])
    ensures Asking(c, values, run') && OnlyWorkerDiffers(Last(run), i, Last(run'))
    ensures Last(run').workers[i].pc.Publishing? && Last(run').workers[i].inFlight != {}
  {
    run' := AcceptTick(c, values, run, i, 1, 0);
    var sent := Last(run').workers[i].sent;
    run' := Extend(c, values, run', ActStep(i, false));
    assert sent in Last(run').workers[i].inFlight;
  }

  /** Workers 0 and 1 have both sent a request and are about to publish. */
  lemma TwoAtPublishing(c: Config) returns (run: seq<System>, id0: nat, id1: nat)
    requires c.Valid() && c.workers >= 2
    ensures IsRun(c, run) && |Last(run).workers| == c.workers
    ensures Last(run).workers[0].pc.Publishing? && CanComplete(Last(run).workers[0], id0)
    ensures Last(run).workers[1].pc.Publishing? && CanComplete(Last(run).workers[1], id1)
  {
    run := ChangeLimit(c, {1}, 1);
    run := DealTo(c, {1}, run, 1, 0, 0);
    run := SendUpToPublishing(c, {1}, run, 0);
    ReadyPut(c, Last(run).workers[1], 1, 0, SEND_EVENT);
    run := Extend(c, {1}, run, SchedulerStep);
    run := Extend(c, {1}, run, SchedulerStep);
    run := SendUpToPublishing(c, {1}, run, 1);
    id0 :| id0 in Last(run).workers[0].inFlight;
    id1 :| id1 in Last(run).workers[1].inFlight;
  }

  /** Worker `i` has a failure of type `name` to publish and has begun to. */
  predicate HasToPublish(c: Config, j: Joint, i: nat, name: string) {
    && i < c.workers && Sized(c, j) && j.stages[i].Flushing?
    && j.shared.publishers[i].pc.Flushing? && name in j.shared.publishers[i].pc.todo
    && name in j.shared.publishers[i].pending && j.shared.publishers[i].pending[name] > 0
  }

  /** Nothing about worker `i` differs. */
  predicate SameWorker(j: Joint, j': Joint, i: nat)
    requires i < |j.sys.workers| && i < |j.stages| && i < |j.shared.publishers| && i < |j.meters|
    requires i < |j'.sys.workers| && i < |j'.stages| && i < |j'.shared.publishers| && i < |j'.meters|
  {
    && j'.sys.workers[i] == j.sys.workers[i] && j'.stages[i] == j.stages[i]
    && j'.shared.publishers[i] == j.shared.publishers[i] && j'.meters[i] == j.meters[i]
  }

  /** Worker `i` is at the end of sendRequest, has published nothing yet and can still get reply `id`. */
  predicate CanFail(c: Config, j: Joint, i: nat, id: nat) {
    && Sized(c, j) && i < c.workers
    && j.sys.workers[i].pc.Publishing? && CanComplete(j.sys.workers[i], id)
    && j.stages[i].Serving? && j.shared.publishers[i].pc.Collecting? && !j.meters[i].reading
  }

  /** The reply of worker `i` fails, and the worker begins to publish. */
  lemma FailAndFlush(c: Config, run: seq<Joint>, i: nat, id: nat, name: string) returns (run': seq<Joint>)
    requires c.Valid() && IsJointRun(c, run) && CanFail(c, Last(run), i, id)
    ensures IsJointRun(c, run') && HasToPublish(c, Last(run'), i, name)
    ensures forall m :: 0 <= m < c.workers && m != i ==> SameWorker(Last(run), Last(run'), m)
  {
    run' := ExtendJoint(c, run, Reply(i, id, Failed(name)));
    run' := ExtendJoint(c, run', Measure(i, Last(run').meters[i].last));
    run' := ExtendJoint(c, run', Flush(E.Begin(i)));
  }

  lemma TwoCanFail(c: Config) returns (run: seq<Joint>, id0: nat, id1: nat)
    requires c.Valid() && c.workers >= 2
    ensures IsJointRun(c, run) && CanFail(c, Last(run), 0, id0) && CanFail(c, Last(run), 1, id1)
  {
    var sys;
    sys, id0, id1 := TwoAtPublishing(c);
    run := EveryRunHasAccounts(c, sys, |sys| - 1);
    AccountedOnRun(c, run, |run| - 1);
    assert LinkedAt(c, Last(run), 0) && LinkedAt(c, Last(run), 1);
  }

  lemma TwoToPublish(c: Config, name: string) returns (run: seq<Joint>)
    requires c.Valid() && c.workers >= 2
    ensures IsJointRun(c, run) && HasToPublish(c, Last(run), 0, name) && HasToPublish(c, Last(run), 1, name)
  {
    var run0, id0, id1 := TwoCanFail(c);
    var run1 := FailAndFlush(c, run0, 0, id0, name);
    assert SameWorker(Last(run0), Last(run1), 1);
    run := FailAndFlush(c, run1, 1, id1, name);
    assert SameWorker(Last(run1), Last(run), 0);
  }

  /** One access of a publisher, and what it enters. */
  lemma Access(c: Config, run: seq<Joint>, flush: E.Step) returns (run': seq<Joint>)
    requires c.Valid() && IsJointRun(c, run) && Sized(c, Last(run)) && CanAct(c, Last(run), Flush(flush))
    ensures IsJointRun(c, run') && Last(run') == After(c, Last(run), Flush(flush))
    ensures E.Entered(Last(run').shared) == E.Entered(Last(run).shared) + E.Raise(Last(run).shared, flush)
  {
    run' := ExtendJoint(c, run, Flush(flush));
    E.EnteredStep(Last(run).shared, flush);
  }

  /** Both workers read the total before either writes it: unless it was wrong before, it is now. */
  lemma OverlapLosesUpdate(c: Config, run: seq<Joint>, name: string) returns (run': seq<Joint>)
    requires c.Valid() && c.workers >= 2 && IsJointRun(c, run) && E.Exact(Last(run).shared)
    requires HasToPublish(c, Last(run), 0, name) && HasToPublish(c, Last(run), 1, name)
    ensures IsJointRun(c, run') && !E.Exact(Last(run').shared)
  {
    run' := Access(c, run, E.ReadTotal(0, name));
    run' := Access(c, run', E.ReadTotal(1, name));
    run' := Access(c, run', E.WriteTotal(0));
    run' := Access(c, run', E.WriteTotal(1));
  }

  // ---------- The condition ----------

  ghost predicate TotalExact(run: seq<Joint>) {
    forall k :: 0 <= k < |run| ==> E.Exact(run[k].shared)
  }

  lemma OneWorkerIsExact(c: Config, run: seq<Joint>)
    requires c.Valid() && IsJointRun(c, run) && c.workers == 1
    ensures TotalExact(run)
  {
    SizedRun(c, run);
    forall k | 0 <= k < |run|
      ensures E.Exact(run[k].shared)
    {
      assert NeverOverlaps(run, k) by {
        forall m | 0 <= m <= k
          ensures E.Exclusive(run[m].shared)
        {
          assert Sized(c, run[m]);
        }
      }
      ExactWithoutOverlap(c, run, k);
    }
  }

  lemma TwoWorkersCanLose(c: Config, name: string) returns (run: seq<Joint>)
    requires c.Valid() && c.workers >= 2
    ensures IsJointRun(c, run) && !TotalExact(run)
  {
    run := TwoToPublish(c, name);
    if E.Exact(Last(run).shared) {
      run := OverlapLosesUpdate(c, run, name);
    }
    assert !E.Exact(run[|run| - 1].shared);
  }

  /**
   In every run of the whole protocol the total equals the cells plus the unnamed amounts (plus
   what is between the two updates of one increase), if and only if there is one worker.
   */
  lemma TotalIsExactIffOneWorker(c: Config)
    requires c.Valid()
    ensures (forall run | IsJointRun(c, run) :: TotalExact(run)) <==> c.workers == 1
  {
    if c.workers == 1 {
      forall run | IsJointRun(c, run)
        ensures TotalExact(run)
      {
        OneWorkerIsExact(c, run);
      }
    } else {
      var run := TwoWorkersCanLose(c, "E");
      assert IsJointRun(c, run) && !TotalExact(run);
    }
  }
}
