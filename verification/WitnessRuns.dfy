/**
 Runs built step by step from the initial state, for every configuration: the workers are
 started, reset, given a limit and sent ticks, and handle each event as soon as it arrives.
 They show what the protocol can do, where a plain claim about it is false.
 */
module WitnessRuns {
  import opened Arithmetic
  import opened Events
  import opened Dealing
  import opened WorkerModel
  import opened System
  import opened SystemInvariant

  /** A run in which no limit but one of `values` is ever asked for. */
  ghost predicate Asking(c: Config, values: set<int>, run: seq<System>)
    requires c.Valid()
  {
    IsRun(c, run) && forall j :: 0 <= j < |run| && run[j].everSet ==> ToInt32(run[j].maxOutstanding) in values
  }

  lemma Extend(c: Config, values: set<int>, run: seq<System>, step: Step) returns (run': seq<System>)
    requires c.Valid() && Asking(c, values, run) && |Last(run).workers| == c.workers && Enabled(c, Last(run), step)
    requires step.StartSetMaxOutstanding? ==> step.value in values
    ensures Asking(c, values, run') && run' == run + [Apply(c, Last(run), step)]
    ensures Last(run') == Apply(c, Last(run), step)
  {
    run' := run + [Apply(c, Last(run), step)];
    forall k | 0 <= k < |run'| - 1
      ensures StepTaken(c, run', k)
    {
      if k < |run| - 1 {
        assert StepTaken(c, run, k);
      }
    }
    if step.StartSetMaxOutstanding? {
      LimitRoundTrip(step.value);
    }
  }

  // ---------- One worker ----------

  /** A worker between events with `pending` events in its queue. */
  predicate Ready(c: Config, w: Worker, limit: int, outstanding: int, pending: seq<Event>) {
    && w.started && w.running && w.consuming && w.pc.Idle?
    && |w.perConnection| == c.connections && w.connection < c.connections
    && w.limit == limit && w.outstanding == outstanding
    && w.taken <= |w.log| && w.log[w.taken..] == pending
  }

  lemma ReadyPut(c: Config, w: Worker, limit: int, outstanding: int, e: Event)
    requires Ready(c, w, limit, outstanding, [])
    ensures Ready(c, Put(w, e), limit, outstanding, [e])
  {
  }

  ghost predicate OnlyWorkerDiffers(s: System, i: nat, s': System)
    requires i < |s.workers|
  {
    |s'.workers| == |s.workers| && s' == s.(workers := s.workers[i := s'.workers[i]])
  }

  /** Worker `i` handles a RESET or a limit change. */
  lemma DigestSetting(c: Config, values: set<int>, run: seq<System>, i: nat, limit: int, outstanding: int, e: Event)
      returns (run': seq<System>)
    requires c.Valid() && Asking(c, values, run) && |Last(run).workers| == c.workers && i < c.workers
    requires Ready(c, Last(run).workers[i], limit, outstanding, [e])
    requires e == RESET_EVENT || (e.kind == SET_MAX_OUTSTANDING && e.extraData.Int?)
    ensures Asking(c, values, run') && run <= run' && OnlyWorkerDiffers(Last(run), i, Last(run'))
    ensures
      var limit' := if e == RESET_EVENT then limit else ToInt32(e.extraData.value);
      Ready(c, Last(run').workers[i], limit', outstanding, [])
  {
    var w := Last(run).workers[i];
    assert w.log[w.taken] == w.log[w.taken..][0];
    run' := Extend(c, values, run, TakeStep(i));
    run' := Extend(c, values, run', ActStep(i, false));
  }

  /** Worker `i` takes a tick below its limit, up to getNextRequest. */
  lemma AcceptTick(c: Config, values: set<int>, run: seq<System>, i: nat, limit: int, outstanding: int)
      returns (run': seq<System>)
    requires c.Valid() && Asking(c, values, run) && |Last(run).workers| == c.workers && i < c.workers
    requires Ready(c, Last(run).workers[i], limit, outstanding, [SEND_EVENT]) && outstanding < limit
    ensures Asking(c, values, run') && OnlyWorkerDiffers(Last(run), i, Last(run'))
    ensures Last(run').workers[i].pc.Sending?
    ensures Ready(c, Last(run').workers[i].(pc := Idle), limit, outstanding, [])
  {
    var w := Last(run).workers[i];
    assert w.log[w.taken] == w.log[w.taken..][0];
    run' := Extend(c, values, run, TakeStep(i));
    run' := Extend(c, values, run', ActStep(i, false));
    run' := Extend(c, values, run', ActStep(i, false));
  }

  /** Worker `i` handles a tick below its limit. */
  lemma DigestTick(c: Config, values: set<int>, run: seq<System>, i: nat, limit: int, outstanding: int)
      returns (run': seq<System>)
    requires c.Valid() && Asking(c, values, run) && |Last(run).workers| == c.workers && i < c.workers
    requires Ready(c, Last(run).workers[i], limit, outstanding, [SEND_EVENT]) && outstanding < limit
    ensures Asking(c, values, run') && OnlyWorkerDiffers(Last(run), i, Last(run'))
    ensures Ready(c, Last(run').workers[i], limit, outstanding + 1, [])
  {
    run' := AcceptTick(c, values, run, i, limit, outstanding);
    run' := Extend(c, values, run', ActStep(i, false));
    run' := Extend(c, values, run', ActStep(i, false));
  }

  // ---------- All workers ----------

  /** Workers before `k` have the first limit and count, the others the second. */
  ghost predicate Workers(c: Config, s: System, k: nat, limit: int, count: int, limit': int, count': int) {
    && |s.workers| == c.workers
    && (forall i :: 0 <= i < c.workers ==>
          if i < k then Ready(c, s.workers[i], limit, count, []) else Ready(c, s.workers[i], limit', count', []))
  }

  ghost predicate AllReady(c: Config, s: System, limit: int, count: int) {
    Workers(c, s, 0, limit, count, limit, count)
  }

  /** The runner starts the first `k` workers. */
  lemma {:induction false} StartWorkers(c: Config, values: set<int>, k: nat) returns (run: seq<System>)
    requires c.Valid() && k <= c.workers
    ensures Asking(c, values, run) && |Last(run).workers| == c.workers
    ensures
      var s := Last(run);
      && s == Init(c).(workers := s.workers, runner := Starting(k))
      && (forall i :: 0 <= i < k ==> Ready(c, s.workers[i], InitialLimit(c), 0, []))
      && (forall i :: k <= i < c.workers ==> s.workers[i] == InitialWorker(c))
    decreases k
  {
    if k == 0 {
      run := [Init(c)];
    } else {
      run := StartWorkers(c, values, k - 1);
      run := Extend(c, values, run, RunnerStep);
    }
  }

  /** The scheduler is launched and running. */
  lemma Launch(c: Config, values: set<int>) returns (run: seq<System>)
    requires c.Valid()
    ensures Asking(c, values, run) && AllReady(c, Last(run), InitialLimit(c), 0)
    ensures
      var s := Last(run);
      && s.state == RUNNING && s.sched == Resetting(0) && s.epochs == [0] && s.calls == []
      && s.runner == Waiting
  {
    run := StartWorkers(c, values, c.workers);
    run := Extend(c, values, run, RunnerStep);
    run := Extend(c, values, run, RunnerStep);
    run := Extend(c, values, run, Resume);
  }

  /** The first `k` workers get and handle their RESET. */
  lemma {:induction false} ResetWorkers(c: Config, values: set<int>, k: nat) returns (run: seq<System>)
    requires c.Valid() && k <= c.workers
    ensures Asking(c, values, run) && AllReady(c, Last(run), InitialLimit(c), 0)
    ensures
      var s := Last(run);
      && s.state == RUNNING && s.sched == Resetting(k) && s.epochs == [0] && s.calls == []
      && s.runner == Waiting
    decreases k
  {
    if k == 0 {
      run := Launch(c, values);
    } else {
      run := ResetWorkers(c, values, k - 1);
      ReadyPut(c, Last(run).workers[k - 1], InitialLimit(c), 0, RESET_EVENT);
      run := Extend(c, values, run, SchedulerStep);
      run := DigestSetting(c, values, run, k - 1, InitialLimit(c), 0, RESET_EVENT);
    }
  }

  /** The scheduler is at the test of its first epoch, and no tick has been dealt. */
  predicate AtFirstTest(s: System) {
    s.state == RUNNING && s.sched == AtCheck && s.epochs == [0] && s.next == 0 && s.runner == Waiting
  }

  lemma FirstTest(c: Config, values: set<int>) returns (run: seq<System>)
    requires c.Valid()
    ensures Asking(c, values, run) && AllReady(c, Last(run), InitialLimit(c), 0)
    ensures AtFirstTest(Last(run)) && Last(run).calls == []
  {
    run := ResetWorkers(c, values, c.workers);
    run := Extend(c, values, run, SchedulerStep);
  }

  // ---------- Limit changes ----------

  function LimitEvent(value: int): Event {
    Event(SET_MAX_OUTSTANDING, Int(ToUint32(value)))
  }

  /** A control call stores the limit and reads it back, and is about to send it. */
  lemma Ask(c: Config, values: set<int>, run: seq<System>, value: int) returns (run': seq<System>)
    requires c.Valid() && Asking(c, values, run) && |Last(run).workers| == c.workers
    requires IsInt32(value) && value in values
    ensures Asking(c, values, run')
    ensures
      var s, s' := Last(run), Last(run');
      s' == s.(maxOutstanding := ToUint32(value), everSet := true, overlapped := s'.overlapped,
               calls := s.calls + [Broadcasting(LimitEvent(value), [], false)])
  {
    var m := |Last(run).calls|;
    run' := Extend(c, values, run, StartSetMaxOutstanding(value));
    run' := Extend(c, values, run', CallStep(m));
  }

  /** The first `k` workers get and handle the limit of call `m`. */
  lemma {:induction false} Spread(c: Config, values: set<int>, run: seq<System>, m: nat, value: int, limit: int, k: nat)
      returns (run': seq<System>, pos: seq<nat>)
    requires c.Valid() && Asking(c, values, run) && AllReady(c, Last(run), limit, 0)
    requires IsInt32(value) && k <= c.workers
    requires m < |Last(run).calls| && Last(run).calls[m] == Broadcasting(LimitEvent(value), [], false)
    ensures Asking(c, values, run') && run <= run' && Workers(c, Last(run'), k, value, 0, limit, 0) && |pos| == k
    ensures
      var s, s' := Last(run), Last(run');
      s' == s.(workers := s'.workers, calls := s.calls[m := Broadcasting(LimitEvent(value), pos, false)])
    decreases k
  {
    if k == 0 {
      run', pos := run, [];
    } else {
      run', pos := Spread(c, values, run, m, value, limit, k - 1);
      ReadyPut(c, Last(run').workers[k - 1], limit, 0, LimitEvent(value));
      LimitRoundTrip(value);
      pos := pos + [|Last(run').workers[k - 1].log|];
      run' := Extend(c, values, run', CallStep(m));
      run' := DigestSetting(c, values, run', k - 1, limit, 0, LimitEvent(value));
    }
  }

  /** Call `m` reaches every worker and returns. */
  lemma Deliver(c: Config, values: set<int>, run: seq<System>, m: nat, value: int, limit: int)
      returns (run': seq<System>, call: Call)
    requires c.Valid() && Asking(c, values, run) && AllReady(c, Last(run), limit, 0) && IsInt32(value)
    requires m < |Last(run).calls| && Last(run).calls[m] == Broadcasting(LimitEvent(value), [], false)
    ensures Asking(c, values, run') && run <= run' && AllReady(c, Last(run'), value, 0) && call.Returned?
    ensures
      var s, s' := Last(run), Last(run');
      s' == s.(workers := s'.workers, calls := s.calls[m := call])
  {
    var pos;
    run', pos := Spread(c, values, run, m, value, limit, c.workers);
    run' := Extend(c, values, run', CallStep(m));
    call := Last(run').calls[m];
  }

  /** The first epoch, after one limit change to `value`. */
  lemma ChangeLimit(c: Config, values: set<int>, value: int) returns (run: seq<System>)
    requires c.Valid() && IsInt32(value) && value in values
    ensures Asking(c, values, run) && AllReady(c, Last(run), value, 0) && AtFirstTest(Last(run))
  {
    run := FirstTest(c, values);
    run := Ask(c, values, run, value);
    var call;
    run, call := Deliver(c, values, run, 0, value, InitialLimit(c));
  }

  // ---------- Ticks ----------

  /** Every worker has sent `r` requests, the first `j` one more. */
  ghost predicate Round(c: Config, s: System, limit: int, r: nat, j: nat) {
    && s.state == RUNNING && s.sched == AtCheck && s.epochs != [] && s.next == j && s.runner == Waiting
    && Workers(c, s, j, limit, r + 1, limit, r)
  }

  /** The scheduler deals one more tick, to worker `j`. */
  lemma DealTo(c: Config, values: set<int>, run: seq<System>, limit: int, r: nat, j: nat) returns (run': seq<System>)
    requires c.Valid() && Asking(c, values, run) && j < c.workers && Round(c, Last(run), limit, r, j)
    ensures Asking(c, values, run') && |Last(run').workers| == c.workers
    ensures
      var s, s' := Last(run), Last(run');
      && s'.workers == s.workers[j := Put(s.workers[j], SEND_EVENT)]
      && Ready(c, s'.workers[j], limit, r, [SEND_EVENT])
      && s'.state == RUNNING && s'.sched == AtCheck && s'.epochs != [] && s'.runner == Waiting
      && s'.next == if j + 1 == c.workers then 0 else j + 1
  {
    ReadyPut(c, Last(run).workers[j], limit, r, SEND_EVENT);
    run' := Extend(c, values, run, SchedulerStep);
    run' := Extend(c, values, run', SchedulerStep);
  }

  /** The scheduler deals one more tick, and its worker sends the request. */
  lemma DealAndSend(c: Config, values: set<int>, run: seq<System>, limit: int, r: nat, j: nat)
      returns (run': seq<System>)
    requires c.Valid() && Asking(c, values, run) && j < c.workers && r < limit
    requires Round(c, Last(run), limit, r, j)
    ensures Asking(c, values, run')
    ensures if j + 1 < c.workers then Round(c, Last(run'), limit, r, j + 1) else Round(c, Last(run'), limit, r + 1, 0)
  {
    run' := DealTo(c, values, run, limit, r, j);
    run' := DigestTick(c, values, run', j, limit, r);
  }

  /** Every worker sends `r` more requests, the first `j` one more. */
  lemma {:induction false} FillWorkers(c: Config, values: set<int>, run: seq<System>, limit: int, r: nat, j: nat)
      returns (run': seq<System>)
    requires c.Valid() && Asking(c, values, run) && Round(c, Last(run), limit, 0, 0)
    requires j < c.workers && if j == 0 then r <= Max(limit, 0) else r < limit
    ensures Asking(c, values, run') && Round(c, Last(run'), limit, r, j)
    decreases r, j
  {
    if j > 0 {
      run' := FillWorkers(c, values, run, limit, r, j - 1);
      run' := DealAndSend(c, values, run', limit, r, j - 1);
    } else if r > 0 {
      run' := FillWorkers(c, values, run, limit, r - 1, c.workers - 1);
      run' := DealAndSend(c, values, run', limit, r - 1, c.workers - 1);
    } else {
      run' := run;
    }
  }

  // ---------- Epochs ----------

  /** Inside an epoch the scheduler's fields are in range. */
  lemma AtTest(c: Config, run: seq<System>) returns (values: set<int>)
    requires c.Valid() && IsRun(c, run) && Last(run).sched.AtCheck?
    ensures |Last(run).workers| == c.workers && Last(run).epochs != [] && Last(run).next < c.workers
    ensures Asking(c, values, run)
  {
    InvOnRun(c, run, |run| - 1);
    values := set s | s in run :: ToInt32(s.maxOutstanding);
  }

  /** From the test, the loop deals a tick. */
  lemma TickFollows(c: Config, values: set<int>, run: seq<System>) returns (run': seq<System>)
    requires c.Valid() && Asking(c, values, run) && Last(run).sched.AtCheck? && Last(run).state == RUNNING
    ensures Asking(c, values, run') && |run'| == |run| + 2 && run'[..|run|] == run
    ensures run'[|run|].sched.Ticking? && Last(run').sched.AtCheck?
    ensures Last(run').state == RUNNING && Last(run').runner == Last(run).runner
    ensures Last(run).epochs != [] && Last(run').epochs == Bump(Last(run).epochs)
  {
    var _ := AtTest(c, run);
    run' := Extend(c, values, run, SchedulerStep);
    run' := Extend(c, values, run', SchedulerStep);
  }

  /** From a closed epoch, a resume makes the loop begin a new one. */
  lemma EpochFollows(c: Config, values: set<int>, run: seq<System>) returns (run': seq<System>)
    requires c.Valid() && Asking(c, values, run) && |Last(run).workers| == c.workers
    requires Last(run).sched.AtPause? && Last(run).state == PAUSED
    ensures Asking(c, values, run') && |run'| == |run| + 3 && run'[..|run|] == run
    ensures Last(run').state == RUNNING && Last(run').sched == Resetting(0)
    ensures Last(run').epochs == Last(run).epochs + [0] && Last(run').runner == Last(run).runner
    ensures |Last(run').workers| == c.workers
  {
    run' := Extend(c, values, run, Resume);
    run' := Extend(c, values, run', SchedulerStep);
    run' := Extend(c, values, run', SchedulerStep);
  }

  /** Nothing about the workers differs except what is in their queues. */
  ghost predicate OnlyLogsDiffer(s: System, s': System) {
    |s'.workers| == |s.workers| &&
    forall i :: 0 <= i < |s.workers| ==> s'.workers[i] == s.workers[i].(log := s'.workers[i].log)
  }

  /** The loop puts an event into queues k, ..., n-1 while nobody else moves. */
  lemma {:induction false} FinishBroadcast(c: Config, values: set<int>, run: seq<System>) returns (run': seq<System>)
    requires c.Valid() && Asking(c, values, run) && |Last(run).workers| == c.workers
    requires Last(run).sched.Resetting? || Last(run).sched.Finishing?
    requires Last(run).sched.i <= c.workers
    ensures Asking(c, values, run') && |Last(run').workers| == c.workers
    ensures
      var s, s' := Last(run), Last(run');
      && s'.sched == (if s.sched.Resetting? then AtCheck else Done)
      && s'.state == s.state && s'.epochs == s.epochs && s'.runner == s.runner
      && OnlyLogsDiffer(s, s')
    decreases c.workers - Last(run).sched.i
  {
    run' := Extend(c, values, run, SchedulerStep);
    if Last(run).sched.i < c.workers {
      run' := FinishBroadcast(c, values, run');
    }
  }

  /** The loop closes its epoch at a test and begins a new one. */
  lemma NewEpoch(c: Config, values: set<int>, run: seq<System>) returns (run': seq<System>)
    requires c.Valid() && Asking(c, values, run) && Last(run).sched.AtCheck? && Last(run).state == RUNNING
    ensures Asking(c, values, run') && Last(run').sched.AtCheck? && Last(run').state == RUNNING
    ensures Last(run').epochs == Last(run).epochs + [0] && Last(run').runner == Last(run).runner
  {
    var _ := AtTest(c, run);
    run' := Extend(c, values, run, Pause);
    run' := Extend(c, values, run', SchedulerStep);
    run' := EpochFollows(c, values, run');
    run' := FinishBroadcast(c, values, run');
  }

  /** Any numbers of ticks in any number of epochs can be dealt. */
  lemma {:induction false} DealEpochs(c: Config, values: set<int>, epochs: seq<nat>) returns (run: seq<System>)
    requires c.Valid() && epochs != []
    ensures Asking(c, values, run) && Last(run).sched.AtCheck? && Last(run).state == RUNNING
    ensures Last(run).epochs == epochs && Last(run).runner == Waiting
    decreases |epochs|, epochs[|epochs| - 1]
  {
    var l := |epochs| - 1;
    if epochs == [0] {
      run := Launch(c, values);
      run := FinishBroadcast(c, values, run);
    } else if epochs[l] == 0 {
      run := DealEpochs(c, values, epochs[..l]);
      run := NewEpoch(c, values, run);
    } else {
      var fewer := epochs[l := epochs[l] - 1];
      run := DealEpochs(c, values, fewer);
      run := TickFollows(c, values, run);
      assert Bump(fewer) == epochs;
    }
  }

  /** The runner stops the scheduler, and the loop ends. */
  lemma EndLoop(c: Config, values: set<int>, run: seq<System>) returns (run': seq<System>)
    requires c.Valid() && Asking(c, values, run) && Last(run).sched.AtCheck? && Last(run).runner == Waiting
    ensures Asking(c, values, run') && |Last(run').workers| == c.workers && Last(run').sched.Done?
    ensures Last(run').epochs == Last(run).epochs && Last(run').runner == Joining
    ensures OnlyLogsDiffer(Last(run), Last(run'))
  {
    var _ := AtTest(c, run);
    run' := Extend(c, values, run, RunnerStep);
    run' := Extend(c, values, run', SchedulerStep);
    run' := Extend(c, values, run', SchedulerStep);
    run' := Extend(c, values, run', SchedulerStep);
    run' := FinishBroadcast(c, values, run');
  }
}
