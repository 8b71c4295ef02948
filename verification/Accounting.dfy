/**
 The accounts of replies kept along the runs of the whole protocol. A joint state adds to a
 state of the transition system the throughput meter of every worker, the shared exception
 counter with every worker's pending exceptions, and a record of which requests failed. A
 reply changes all of them at once, on the worker's event thread; statistics are published in
 single steps at the end of sendRequest, in between which other threads move, and not at all
 on the early return of an exhausted workload.
 */
module Accounting {
  import opened Events
  import opened CounterStatistics
  import opened WorkerModel
  import opened WorkerInvariant
  import opened System
  import opened SystemInvariant
  import opened SystemTheorems
  import E = ExceptionCounts
  import T = Throughput

  /** How far a worker's publishing has got. */
  datatype Stage = Serving | Sampled | Flushing | Flushed

  datatype Joint = Joint(
    sys: System,
    shared: E.Shared,
    meters: seq<T.Meter>,
    stages: seq<Stage>,
    failed: seq<map<int, string>>)   // per worker: the requests whose reply failed, and the type of the failure

  datatype Answer = Succeeded | Failed(name: string)

  datatype Action =
    | Move(step: Step)                         // a step that touches no account
    | StartWorker(now: int)                    // the runner starts its next worker
    | Reply(i: nat, id: nat, answer: Answer)
    | Measure(i: nat, now: int)                // Worker.h lines 269-275
    | Zero(i: nat)                             // Worker.h line 276
    | Flush(flush: E.Step)                     // Worker.h lines 282-290, one access of worker flush.i

  function InitJoint(c: Config): Joint
    requires c.Valid()
  {
    Joint(Init(c), E.Init(c.workers), seq(c.workers, _ => T.Start(0)),
          seq(c.workers, _ => Serving), seq(c.workers, _ => map[]))
  }

  predicate Sized(c: Config, j: Joint) {
    |j.sys.workers| == |j.shared.publishers| == |j.meters| == |j.stages| == |j.failed| == c.workers
  }

  predicate StartsWorker(c: Config, s: System) {
    s.runner.Starting? && s.runner.i < c.workers
  }

  predicate Publishes(s: System, step: Step) {
    step.ActStep? && step.i < |s.workers| && s.workers[step.i].pc.Publishing?
  }

  ghost predicate CanAct(c: Config, j: Joint, a: Action)
    requires c.Valid() && Sized(c, j)
  {
    match a
    case Move(step) =>
      && Enabled(c, j.sys, step) && !step.CompleteStep?
      && !(step.RunnerStep? && StartsWorker(c, j.sys))
      && (Publishes(j.sys, step) ==> j.stages[step.i].Flushed?)
    case StartWorker(_) => StartsWorker(c, j.sys)
    case Reply(i, id, _) =>
      && i < c.workers && CanComplete(j.sys.workers[i], id) && j.stages[i].Serving?
      && j.shared.publishers[i].pc.Collecting?
    case Measure(i, now) =>
      && i < c.workers && j.sys.workers[i].pc.Publishing? && j.stages[i].Serving?
      && now >= j.meters[i].last
    case Zero(i) => i < c.workers && j.stages[i].Sampled? && j.meters[i].reading
    case Flush(flush) =>
      && flush.i < c.workers && !flush.Fail? && E.Enabled(j.shared, flush)
      && (if flush.Begin? then j.stages[flush.i].Sampled? && !j.meters[flush.i].reading
          else j.stages[flush.i].Flushing?)
  }

  function StageAfter(flush: E.Step): Stage {
    if flush.End? then Flushed else Flushing
  }

  /** What a reply does to the shared account and to the record of failures. */
  function Charged(j: Joint, i: nat, id: nat, answer: Answer): Joint
    requires i < |j.shared.publishers| && i < |j.failed| && j.shared.publishers[i].pc.Collecting?
  {
    match answer
    case Succeeded => j
    case Failed(name) =>
      j.(shared := E.Apply(j.shared, E.Fail(i, name)), failed := j.failed[i := j.failed[i][id := name]])
  }

  ghost function After(c: Config, j: Joint, a: Action): Joint
    requires c.Valid() && Sized(c, j) && CanAct(c, j, a)
  {
    match a
    case Move(step) =>
      j.(sys := Apply(c, j.sys, step),
         stages := if Publishes(j.sys, step) then j.stages[step.i := Serving] else j.stages)
    case StartWorker(now) =>
      j.(sys := RunnerNext(c, j.sys), meters := j.meters[j.sys.runner.i := T.Start(now)])
    case Reply(i, id, answer) =>
      Charged(j, i, id, answer).(
        sys := Apply(c, j.sys, CompleteStep(i, id)),
        meters := j.meters[i := T.Apply(c.workers, j.meters[i], T.Reply)])
    case Measure(i, now) =>
      j.(meters := j.meters[i := T.Apply(c.workers, j.meters[i], T.Measure(now))], stages := j.stages[i := Sampled])
    case Zero(i) => j.(meters := j.meters[i := T.Apply(c.workers, j.meters[i], T.Zero)])
    case Flush(flush) =>
      j.(shared := E.Apply(j.shared, flush), stages := j.stages[flush.i := StageAfter(flush)])
  }

  ghost predicate ActionTaken(c: Config, run: seq<Joint>, k: nat)
    requires c.Valid() && k + 1 < |run|
  {
    Sized(c, run[k]) && exists a :: CanAct(c, run[k], a) && run[k + 1] == After(c, run[k], a)
  }

  ghost predicate IsJointRun(c: Config, run: seq<Joint>)
    requires c.Valid()
  {
    |run| > 0 && run[0] == InitJoint(c) && forall k :: 0 <= k < |run| - 1 ==> ActionTaken(c, run, k)
  }

  // ---------- A joint run is a run of the protocol ----------

  function Systems(run: seq<Joint>): (r: seq<System>)
    ensures |r| == |run|
  {
    seq(|run|, k requires 0 <= k < |run| => run[k].sys)
  }

  /** In every state a pause or a resume changes nothing, so that others may move unnoticed. */
  lemma Stutter(c: Config, s: System)
    requires c.Valid() && |s.workers| == c.workers
    ensures Next(c, s, s)
  {
    var step := if s.state == RUNNING then Resume else Pause;
    assert Enabled(c, s, step) && s == Apply(c, s, step);
  }

  lemma ActionIsAStep(c: Config, j: Joint, a: Action)
    requires c.Valid() && Sized(c, j) && CanAct(c, j, a)
    ensures Next(c, j.sys, After(c, j, a).sys)
  {
    match a
    case Move(step) => assert Enabled(c, j.sys, step);
    case StartWorker(_) => assert Enabled(c, j.sys, RunnerStep);
    case Reply(i, id, _) => assert Enabled(c, j.sys, CompleteStep(i, id));
    case _ => Stutter(c, j.sys);
  }

  lemma SystemsIsARun(c: Config, run: seq<Joint>)
    requires c.Valid() && IsJointRun(c, run)
    ensures IsRun(c, Systems(run))
  {
    forall k | 0 <= k < |run| - 1
      ensures StepTaken(c, Systems(run), k)
    {
      assert ActionTaken(c, run, k);
      var a :| CanAct(c, run[k], a) && run[k + 1] == After(c, run[k], a);
      ActionIsAStep(c, run[k], a);
    }
  }

  // ---------- The record of failures ----------

  function Ids(failed: map<int, string>, name: string): set<int> {
    set id | id in failed && failed[id] == name
  }

  function NamedIn(failed: map<int, string>, name: string): nat {
    |Ids(failed, name)|
  }

  /** How many requests of all workers have failed with `name`. */
  function TotalNamed(failed: seq<map<int, string>>, name: string): nat {
    if failed == [] then 0
    else TotalNamed(failed[..|failed| - 1], name) + NamedIn(failed[|failed| - 1], name)
  }

  lemma NamedInAdd(failed: map<int, string>, id: nat, added: string, name: string)
    requires id !in failed
    ensures NamedIn(failed[id := added], name) == NamedIn(failed, name) + if added == name then 1 else 0
  {
    if added == name {
      assert Ids(failed[id := added], name) == Ids(failed, name) + {id};
      assert id !in Ids(failed, name);
    } else {
      assert Ids(failed[id := added], name) == Ids(failed, name);
    }
  }

  lemma {:induction false} TotalNamedUpdate(failed: seq<map<int, string>>, i: nat, f: map<int, string>, name: string)
    requires i < |failed|
    ensures TotalNamed(failed[i := f], name) + NamedIn(failed[i], name) == TotalNamed(failed, name) + NamedIn(f, name)
  {
    var l := |failed| - 1;
    if i == l {
      assert failed[i := f][..l] == failed[..l];
    } else {
      TotalNamedUpdate(failed[..l], i, f, name);
      assert failed[i := f][..l] == failed[..l][i := f];
    }
  }

  lemma {:induction false} NothingNamed(failed: seq<map<int, string>>, name: string)
    requires forall i :: 0 <= i < |failed| ==> failed[i] == map[]
    ensures TotalNamed(failed, name) == 0
  {
    if failed == [] {
    } else {
      NothingNamed(failed[..|failed| - 1], name);
      assert Ids(failed[|failed| - 1], name) == {};
    }
  }

  // ---------- The invariant ----------

  /** The accounts of one worker agree with the worker. */
  ghost predicate Linked(workers: nat, w: Worker, p: E.Publisher, m: T.Meter, stage: Stage, failed: map<int, string>) {
    && T.Reached(workers, m) && m.completed == |w.completed|
    && failed.Keys <= w.completed
    && (stage.Flushing? <==> !p.pc.Collecting?)
    && (!stage.Serving? ==> w.pc.Publishing?)
    && (m.reading ==> stage.Sampled?)
    && (stage.Flushed? ==> p.pending == map[])
  }

  ghost predicate LinkedAt(c: Config, j: Joint, i: nat)
    requires Sized(c, j) && i < c.workers
  {
    Linked(c.workers, j.sys.workers[i], j.shared.publishers[i], j.meters[i], j.stages[i], j.failed[i])
  }

  /** The failures received under `name` are the requests on record with it. */
  ghost predicate Recorded(j: Joint, name: string) {
    Get(j.shared.received, name) == TotalNamed(j.failed, name)
  }

  ghost predicate Accounted(c: Config, j: Joint) {
    && Sized(c, j) && E.Inv(j.shared)
    && (forall i :: 0 <= i < c.workers ==> LinkedAt(c, j, i))
    && (forall name :: Recorded(j, name))
  }

  lemma InitLinked(c: Config, i: nat)
    requires c.Valid() && i < c.workers
    ensures Sized(c, InitJoint(c)) && LinkedAt(c, InitJoint(c), i)
  {
    T.ReachedStart(c.workers, 0);
  }

  lemma InitRecorded(c: Config, name: string)
    requires c.Valid()
    ensures Recorded(InitJoint(c), name)
  {
    NothingNamed(InitJoint(c).failed, name);
  }

  lemma InitAccounted(c: Config)
    requires c.Valid()
    ensures Accounted(c, InitJoint(c))
  {
    var j := InitJoint(c);
    assert Sized(c, j);
    forall i | 0 <= i < c.workers
      ensures LinkedAt(c, j, i)
    {
      InitLinked(c, i);
    }
    forall name: string
      ensures Recorded(j, name)
    {
      InitRecorded(c, name);
    }
    assert E.Inv(j.shared) by {
      E.InitInv(c.workers);
    }
  }

  /** A worker that was not started has sent nothing. */
  lemma UnstartedIsFresh(c: Config, w: Worker)
    requires c.Valid() && WorkerInv(c, InitialLimit(c), w) && !w.started
    ensures w.completed == {}
  {
    assert w.log[..w.live] == [];
    assert Shape(Lengths(w.outcomes)) == [];
    assert w.outcomes == [];
  }

  /** Only a reply completes a request, and only its own thread ends a worker's publishing. */
  lemma MoveKeepsCompleted(c: Config, s: System, step: Step, w: Worker, w': Worker)
    requires c.Valid() && WorkerChange(c, s, step, w, w') && !step.CompleteStep?
    ensures w'.completed == w.completed
    ensures w.pc.Publishing? ==> w'.pc.Publishing? || step.ActStep?
  {
  }

  lemma LinkedOnMove(c: Config, j: Joint, step: Step, i: nat)
    requires c.Valid() && Sized(c, j) && i < c.workers && LinkedAt(c, j, i) && CanAct(c, j, Move(step))
    ensures Sized(c, After(c, j, Move(step))) && LinkedAt(c, After(c, j, Move(step)), i)
  {
    StepChangesWorker(c, j.sys, step, i);
    MoveKeepsCompleted(c, j.sys, step, j.sys.workers[i], After(c, j, Move(step)).sys.workers[i]);
  }

  lemma LinkedOnReply(c: Config, j: Joint, i: nat, id: nat, answer: Answer)
    requires c.Valid() && Sized(c, j) && CanAct(c, j, Reply(i, id, answer)) && LinkedAt(c, j, i)
    requires Counters(c, j.sys.workers[i])
    ensures Sized(c, After(c, j, Reply(i, id, answer))) && LinkedAt(c, After(c, j, Reply(i, id, answer)), i)
  {
    T.ReachedStep(c.workers, j.meters[i], T.Reply);
  }

  lemma LinkedOnMeasure(c: Config, j: Joint, a: Action)
    requires c.Valid() && Sized(c, j) && CanAct(c, j, a) && (a.Measure? || a.Zero?) && LinkedAt(c, j, a.i)
    ensures Sized(c, After(c, j, a)) && LinkedAt(c, After(c, j, a), a.i)
  {
    T.ReachedStep(c.workers, j.meters[a.i], if a.Measure? then T.Measure(a.now) else T.Zero);
  }

  lemma LinkedOnStart(c: Config, j: Joint, now: int)
    requires c.Valid() && Sized(c, j) && CanAct(c, j, StartWorker(now)) && LinkedAt(c, j, j.sys.runner.i)
    requires j.sys.workers[j.sys.runner.i].completed == {}
    requires j.sys.workers[j.sys.runner.i].pc.Idle?
    ensures Sized(c, After(c, j, StartWorker(now))) && LinkedAt(c, After(c, j, StartWorker(now)), j.sys.runner.i)
  {
    T.ReachedStart(c.workers, now);
  }

  lemma LinkedOnFlush(c: Config, j: Joint, flush: E.Step)
    requires c.Valid() && Sized(c, j) && CanAct(c, j, Flush(flush)) && LinkedAt(c, j, flush.i)
    ensures Sized(c, After(c, j, Flush(flush))) && LinkedAt(c, After(c, j, Flush(flush)), flush.i)
  {
  }

  /** The worker whose accounts an action changes, apart from a move. */
  function Touched(j: Joint, a: Action): nat {
    match a
    case Move(_) => 0
    case StartWorker(_) => if j.sys.runner.Starting? then j.sys.runner.i else 0
    case Reply(i, _, _) => i
    case Measure(i, _) => i
    case Zero(i) => i
    case Flush(flush) => flush.i
  }

  lemma OthersKeepLinked(c: Config, j: Joint, a: Action, i: nat)
    requires c.Valid() && Sized(c, j) && CanAct(c, j, a) && !a.Move? && i < c.workers && i != Touched(j, a)
    requires LinkedAt(c, j, i)
    ensures Sized(c, After(c, j, a)) && LinkedAt(c, After(c, j, a), i)
  {
  }

  lemma LinkedStep(c: Config, j: Joint, a: Action, i: nat)
    requires c.Valid() && Sized(c, j) && CanAct(c, j, a) && i < c.workers && LinkedAt(c, j, i)
    requires Counters(c, j.sys.workers[i])
    requires j.sys.runner == Starting(i) ==> j.sys.workers[i].completed == {} && j.sys.workers[i].pc.Idle?
    ensures Sized(c, After(c, j, a)) && LinkedAt(c, After(c, j, a), i)
  {
    if a.Move? {
      LinkedOnMove(c, j, a.step, i);
    } else if i != Touched(j, a) {
      OthersKeepLinked(c, j, a, i);
    } else {
      match a
      case StartWorker(now) => LinkedOnStart(c, j, now);
      case Reply(_, id, answer) => LinkedOnReply(c, j, i, id, answer);
      case Measure(_, _) => LinkedOnMeasure(c, j, a);
      case Zero(_) => LinkedOnMeasure(c, j, a);
      case Flush(flush) => LinkedOnFlush(c, j, flush);
    }
  }

  lemma RecordedStep(c: Config, j: Joint, a: Action, name: string)
    requires c.Valid() && Sized(c, j) && CanAct(c, j, a) && Recorded(j, name)
    requires a.Reply? ==> LinkedAt(c, j, a.i) && Counters(c, j.sys.workers[a.i])
    ensures Recorded(After(c, j, a), name)
  {
    if a.Reply? && a.answer.Failed? {
      NamedInAdd(j.failed[a.i], a.id, a.answer.name, name);
      TotalNamedUpdate(j.failed, a.i, j.failed[a.i][a.id := a.answer.name], name);
    }
  }

  lemma SharedStep(c: Config, j: Joint, a: Action)
    requires c.Valid() && Sized(c, j) && CanAct(c, j, a) && E.Inv(j.shared)
    ensures E.Inv(After(c, j, a).shared)
  {
    match a
    case Reply(i, _, Failed(name)) => E.InvStep(j.shared, E.Fail(i, name));
    case Flush(flush) => E.InvStep(j.shared, flush);
    case _ =>
  }

  /** What the accounts need to know about a state of the protocol. */
  ghost predicate Sound(c: Config, s: System)
    requires c.Valid()
  {
    && |s.workers| == c.workers
    && (forall i :: 0 <= i < c.workers ==> Counters(c, s.workers[i]))
    && (forall i :: 0 <= i < c.workers && s.runner == Starting(i) ==>
          s.workers[i].completed == {} && s.workers[i].pc.Idle?)
  }

  lemma SoundOnRun(c: Config, run: seq<System>, k: nat)
    requires c.Valid() && IsRun(c, run) && k < |run|
    ensures Sound(c, run[k])
  {
    InvOnRun(c, run, k);
    var s := run[k];
    forall i | 0 <= i < c.workers
      ensures Counters(c, s.workers[i])
      ensures s.runner == Starting(i) ==> s.workers[i].completed == {} && s.workers[i].pc.Idle?
    {
      assert WorkerInv(c, InitialLimit(c), s.workers[i]) && HaltInv(c, s, i);
      if s.runner == Starting(i) {
        UnstartedIsFresh(c, s.workers[i]);
      }
    }
  }

  /** Every action keeps the accounts. */
  lemma AccountedStep(c: Config, j: Joint, a: Action)
    requires c.Valid() && Accounted(c, j) && CanAct(c, j, a) && Sound(c, j.sys)
    ensures Accounted(c, After(c, j, a))
  {
    var j' := After(c, j, a);
    assert LinkedAt(c, j, 0);
    LinkedStep(c, j, a, 0);
    forall i | 0 <= i < c.workers
      ensures LinkedAt(c, j', i)
    {
      LinkedStep(c, j, a, i);
    }
    forall name: string
      ensures Recorded(j', name)
    {
      RecordedStep(c, j, a, name);
    }
    SharedStep(c, j, a);
  }

  /** The accounts hold in every state of every joint run. */
  lemma {:induction false} AccountedOnRun(c: Config, run: seq<Joint>, k: nat)
    requires c.Valid() && IsJointRun(c, run) && k < |run|
    ensures Accounted(c, run[k])
  {
    if k == 0 {
      InitAccounted(c);
    } else {
      AccountedOnRun(c, run, k - 1);
      SystemsIsARun(c, run);
      SoundOnRun(c, Systems(run), k - 1);
      assert ActionTaken(c, run, k - 1);
      var a :| CanAct(c, run[k - 1], a) && run[k] == After(c, run[k - 1], a);
      AccountedStep(c, run[k - 1], a);
    }
  }

  // ---------- Theorems ----------

  /**
   In every run of the whole protocol, for each type name, what is published plus what the
   workers still hold is the number of requests that failed with it, each of them completed
   by its worker; the total never counts more than was published.
   */
  lemma FailuresAreAccountedFor(c: Config, run: seq<Joint>, k: nat, name: string)
    requires c.Valid() && IsJointRun(c, run) && k < |run|
    ensures Sized(c, run[k])
    ensures
      var j := run[k];
      && E.Settled(j.shared, name) + E.SumBy(E.Owed(name), j.shared.publishers) == TotalNamed(j.failed, name)
      && (forall i :: 0 <= i < c.workers ==> j.failed[i].Keys <= j.sys.workers[i].completed)
      && j.shared.total <= E.Entered(j.shared)
  {
    AccountedOnRun(c, run, k);
    var j := run[k];
    assert E.Balanced(j.shared, name) && Recorded(j, name);
    forall i | 0 <= i < c.workers
      ensures j.failed[i].Keys <= j.sys.workers[i].completed
    {
      assert LinkedAt(c, j, i);
    }
  }

  // ---------- When a failure is published ----------

  /** In step m of the run a reply of worker `i` fails with `name`. */
  predicate FailsAt(run: seq<Joint>, m: nat, i: nat, name: string)
    requires m + 1 < |run| && i < |run[m].failed| && i < |run[m + 1].failed|
  {
    NamedIn(run[m + 1].failed[i], name) > NamedIn(run[m].failed[i], name)
  }

  /** In step m of the run worker `i` completes a publication. */
  predicate PublishesAt(run: seq<Joint>, m: nat, i: nat)
    requires m + 1 < |run| && i < |run[m].stages| && i < |run[m + 1].stages|
  {
    run[m].stages[i].Flushing? && run[m + 1].stages[i].Flushed?
  }

  ghost predicate AllSized(c: Config, run: seq<Joint>) {
    forall k :: 0 <= k < |run| ==> Sized(c, run[k])
  }

  /** Up to state k a reply of worker `i` has failed with `name`, and the worker has not published since. */
  ghost predicate FailedSincePublication(c: Config, run: seq<Joint>, k: nat, i: nat, name: string)
    requires AllSized(c, run) && k < |run| && i < c.workers
  {
    exists m :: 0 <= m < k && FailsAt(run, m, i, name) && forall l :: m < l < k ==> !PublishesAt(run, l, i)
  }

  /** Only a failed reply adds to what a worker holds, only a completed publication takes it away. */
  lemma PendingStep(c: Config, j: Joint, a: Action, i: nat, name: string)
    requires c.Valid() && Sized(c, j) && CanAct(c, j, a) && i < c.workers && Sized(c, After(c, j, a))
    requires LinkedAt(c, j, i) && Counters(c, j.sys.workers[i])
    ensures
      var j' := After(c, j, a);
      var pending, pending' := j.shared.publishers[i].pending, j'.shared.publishers[i].pending;
      && (j.stages[i].Flushing? && j'.stages[i].Flushed? ==>
            pending' == map[] && NamedIn(j'.failed[i], name) == NamedIn(j.failed[i], name))
      && (!(j.stages[i].Flushing? && j'.stages[i].Flushed?) ==>
            Get(pending', name) - Get(pending, name) == NamedIn(j'.failed[i], name) - NamedIn(j.failed[i], name) >= 0)
  {
    if a.Reply? && a.i == i && a.answer.Failed? {
      NamedInAdd(j.failed[i], a.id, a.answer.name, name);
    }
  }

  lemma SizedRun(c: Config, run: seq<Joint>)
    requires c.Valid() && IsJointRun(c, run)
    ensures AllSized(c, run)
  {
    forall k | 0 <= k < |run|
      ensures Sized(c, run[k])
    {
      AccountedOnRun(c, run, k);
    }
  }

  lemma PendingAt(c: Config, run: seq<Joint>, k: nat, i: nat, name: string)
    requires c.Valid() && IsJointRun(c, run) && AllSized(c, run) && k + 1 < |run| && i < c.workers
    ensures
      var pending, pending' := run[k].shared.publishers[i].pending, run[k + 1].shared.publishers[i].pending;
      && (PublishesAt(run, k, i) ==> pending' == map[] && !FailsAt(run, k, i, name))
      && (!PublishesAt(run, k, i) ==>
            (Get(pending', name) > 0 <==> Get(pending, name) > 0 || FailsAt(run, k, i, name)))
  {
    AccountedOnRun(c, run, k);
    SystemsIsARun(c, run);
    SoundOnRun(c, Systems(run), k);
    assert LinkedAt(c, run[k], i);
    assert ActionTaken(c, run, k);
    var a :| CanAct(c, run[k], a) && run[k + 1] == After(c, run[k], a);
    PendingStep(c, run[k], a, i, name);
  }

  /** A worker holds failures with `name` exactly if it has received one since it last published. */
  lemma {:induction false} HeldSincePublication(c: Config, run: seq<Joint>, k: nat, i: nat, name: string)
    requires c.Valid() && IsJointRun(c, run) && AllSized(c, run) && k < |run| && i < c.workers
    ensures Get(run[k].shared.publishers[i].pending, name) > 0 <==> FailedSincePublication(c, run, k, i, name)
  {
    if k == 0 {
    } else {
      HeldSincePublication(c, run, k - 1, i, name);
      PendingAt(c, run, k - 1, i, name);
      FailedSinceStep(c, run, k - 1, i, name);
    }
  }

  lemma FailedSinceStep(c: Config, run: seq<Joint>, k: nat, i: nat, name: string)
    requires AllSized(c, run) && k + 1 < |run| && i < c.workers
    ensures FailedSincePublication(c, run, k + 1, i, name) <==>
            FailsAt(run, k, i, name) || (FailedSincePublication(c, run, k, i, name) && !PublishesAt(run, k, i))
  {
    if FailedSincePublication(c, run, k, i, name) && !PublishesAt(run, k, i) {
      var m :| 0 <= m < k && FailsAt(run, m, i, name) && forall l :: m < l < k ==> !PublishesAt(run, l, i);
      assert 0 <= m < k + 1 && FailsAt(run, m, i, name) && forall l :: m < l < k + 1 ==> !PublishesAt(run, l, i);
    }
    if FailedSincePublication(c, run, k + 1, i, name) && !FailsAt(run, k, i, name) {
      var m :| 0 <= m < k + 1 && FailsAt(run, m, i, name) && forall l :: m < l < k + 1 ==> !PublishesAt(run, l, i);
      assert m < k && !PublishesAt(run, k, i);
    }
  }

  /**
   While no worker is in the middle of publishing, all failures with `name` are published if
   and only if no worker has received one since it last completed a publication: what comes
   after a worker's last tick, or before an early return, stays unpublished.
   */
  lemma AllPublishedIffNoneSince(c: Config, run: seq<Joint>, k: nat, name: string)
    requires c.Valid() && IsJointRun(c, run) && k < |run|
    ensures AllSized(c, run)
    ensures
      (forall i :: 0 <= i < c.workers ==> !run[k].stages[i].Flushing?) ==>
        (E.Settled(run[k].shared, name) == TotalNamed(run[k].failed, name) <==>
         forall i :: 0 <= i < c.workers ==> !FailedSincePublication(c, run, k, i, name))
  {
    SizedRun(c, run);
    if forall i :: 0 <= i < c.workers ==> !run[k].stages[i].Flushing? {
      PublishedIffNoneSince(c, run, k, name);
    }
  }

  lemma PublishedIffNoneSince(c: Config, run: seq<Joint>, k: nat, name: string)
    requires c.Valid() && IsJointRun(c, run) && k < |run| && AllSized(c, run)
    requires forall i :: 0 <= i < c.workers ==> !run[k].stages[i].Flushing?
    ensures E.Settled(run[k].shared, name) == TotalNamed(run[k].failed, name) <==>
            forall i :: 0 <= i < c.workers ==> !FailedSincePublication(c, run, k, i, name)
  {
    FailuresAreAccountedFor(c, run, k, name);
    AccountedOnRun(c, run, k);
    var ps := run[k].shared.publishers;
    forall i | 0 <= i < c.workers
      ensures E.Owed(name)(ps[i]) > 0 <==> FailedSincePublication(c, run, k, i, name)
      ensures E.SumBy(E.Owed(name), ps) >= E.Owed(name)(ps[i])
    {
      assert LinkedAt(c, run[k], i);
      HeldSincePublication(c, run, k, i, name);
      E.SumByAtLeast(E.Owed(name), ps, i);
    }
    if forall i :: 0 <= i < c.workers ==> !FailedSincePublication(c, run, k, i, name) {
      E.SumByZero(E.Owed(name), ps);
    }
  }

  /**
   In every run of the whole protocol, a worker's samples and its pending count account for
   exactly the requests it has completed, over windows that tile the time since its start.
   */
  lemma RepliesAreAccountedFor(c: Config, run: seq<Joint>, k: nat, i: nat)
    requires c.Valid() && IsJointRun(c, run) && k < |run| && i < c.workers
    ensures Sized(c, run[k])
    ensures
      var m, w := run[k].meters[i], run[k].sys.workers[i];
      && T.Tiled(m) && m.lost == 0
      && T.Sampled(c.workers, m.samples) + (m.pending - m.read) as real == |w.completed| as real
      && (!m.reading ==> m.read == 0)
  {
    AccountedOnRun(c, run, k);
    assert LinkedAt(c, run[k], i);
    T.ReachedAccounts(c.workers, run[k].meters[i]);
  }

  /**
   A worker publishes only at the end of sendRequest: outside of it all its failures since the
   last publication are pending as they came, and when it has published none is.
   */
  lemma PublishingIsComplete(c: Config, run: seq<Joint>, k: nat, i: nat)
    requires c.Valid() && IsJointRun(c, run) && k < |run| && i < c.workers
    ensures Sized(c, run[k])
    ensures
      var j := run[k];
      && (!j.sys.workers[i].pc.Publishing? ==> j.stages[i].Serving? && j.shared.publishers[i].pc.Collecting?)
      && (j.stages[i].Flushed? ==> j.shared.publishers[i] == E.Publisher(map[], E.Collecting))
  {
    AccountedOnRun(c, run, k);
    assert LinkedAt(c, run[k], i);
  }

  /** A worker leaves the end of sendRequest only after it has published everything it held. */
  lemma LeavesNothingUnpublished(c: Config, run: seq<Joint>, k: nat, i: nat)
    requires c.Valid() && IsJointRun(c, run) && k + 1 < |run| && i < c.workers
    ensures Sized(c, run[k]) && Sized(c, run[k + 1])
    ensures run[k].sys.workers[i].pc.Publishing? && !run[k + 1].sys.workers[i].pc.Publishing? ==>
              run[k].stages[i].Flushed? && run[k + 1].shared.publishers[i] == E.Publisher(map[], E.Collecting)
  {
    SizedRun(c, run);
    AccountedOnRun(c, run, k);
    assert LinkedAt(c, run[k], i);
    assert ActionTaken(c, run, k);
    var a :| CanAct(c, run[k], a) && run[k + 1] == After(c, run[k], a);
    if run[k].sys.workers[i].pc.Publishing? && !run[k + 1].sys.workers[i].pc.Publishing? {
      if !a.Move? {
        OnlyMovesLeave(c, run[k], a, i);
        assert false;
      }
      LeavesByItself(c, run[k], a.step, i);
    }
  }

  lemma OnlyMovesLeave(c: Config, j: Joint, a: Action, i: nat)
    requires c.Valid() && Sized(c, j) && CanAct(c, j, a) && i < c.workers && !a.Move?
    ensures |After(c, j, a).sys.workers| == c.workers
    ensures After(c, j, a).sys.workers[i].pc == j.sys.workers[i].pc
  {
  }

  lemma LeavesByItself(c: Config, j: Joint, step: Step, i: nat)
    requires c.Valid() && Sized(c, j) && CanAct(c, j, Move(step)) && i < c.workers && LinkedAt(c, j, i)
    requires j.sys.workers[i].pc.Publishing? && |After(c, j, Move(step)).sys.workers| == c.workers
    requires !After(c, j, Move(step)).sys.workers[i].pc.Publishing?
    ensures j.stages[i].Flushed? && j.shared.publishers[i] == E.Publisher(map[], E.Collecting)
  {
    StepChangesWorker(c, j.sys, step, i);
    if !(step.ActStep? && step.i == i) {
      OthersStayPublishing(c, j.sys, step, i);
    }
  }

  lemma OthersStayPublishing(c: Config, s: System, step: Step, i: nat)
    requires c.Valid() && |s.workers| == c.workers && Enabled(c, s, step) && i < c.workers
    requires s.workers[i].pc.Publishing? && !(step.ActStep? && step.i == i)
    ensures |Apply(c, s, step).workers| == c.workers && Apply(c, s, step).workers[i].pc.Publishing?
  {
    StepChangesWorker(c, s, step, i);
  }

  /** A worker's windows begin when it is started, whatever the time. */
  lemma WindowsBeginAtStart(c: Config, now: int) returns (run: seq<Joint>)
    requires c.Valid()
    ensures IsJointRun(c, run) && Sized(c, Last(run)) && Last(run).sys.workers[0].started
    ensures Last(run).meters[0].start == now && Last(run).meters[0].last == now
  {
    run := ExtendJoint(c, [InitJoint(c)], StartWorker(now));
  }

  // ---------- Every run of the protocol can be given accounts ----------

  lemma ExtendJoint(c: Config, run: seq<Joint>, a: Action) returns (run': seq<Joint>)
    requires c.Valid() && IsJointRun(c, run) && Sized(c, Last(run)) && CanAct(c, Last(run), a)
    ensures IsJointRun(c, run') && Last(run') == After(c, Last(run), a)
  {
    run' := run + [After(c, Last(run), a)];
    forall k | 0 <= k < |run'| - 1
      ensures ActionTaken(c, run', k)
    {
      if k < |run| - 1 {
        assert ActionTaken(c, run, k);
      }
    }
  }

  /** Worker `i` is publishing, and the names in `todo` are still to be published. */
  predicate InFlush(c: Config, j: Joint, i: nat, todo: set<string>) {
    && Sized(c, j) && i < c.workers && j.stages[i].Flushing?
    && j.shared.publishers[i].pc == E.Flushing(todo) && todo <= j.shared.publishers[i].pending.Keys
  }

  /** Only the accounts of worker `i` and the shared counter differ. */
  ghost predicate SameBut(j: Joint, j': Joint, i: nat) {
    && j'.sys == j.sys && |j'.stages| == |j.stages|
    && forall m :: 0 <= m < |j.stages| && m != i ==> j'.stages[m] == j.stages[m]
  }

  /** One name is published: total read, total written, cell added to. */
  lemma FlushName(c: Config, run: seq<Joint>, i: nat, todo: set<string>, name: string) returns (run': seq<Joint>)
    requires c.Valid() && IsJointRun(c, run) && InFlush(c, Last(run), i, todo) && name in todo
    ensures IsJointRun(c, run') && InFlush(c, Last(run'), i, todo - {name}) && SameBut(Last(run), Last(run'), i)
  {
    run' := ExtendJoint(c, run, Flush(E.ReadTotal(i, name)));
    run' := ExtendJoint(c, run', Flush(E.WriteTotal(i)));
    run' := ExtendJoint(c, run', Flush(E.AddCell(i)));
  }

  lemma {:induction false} FlushNames(c: Config, run: seq<Joint>, i: nat, todo: set<string>) returns (run': seq<Joint>)
    requires c.Valid() && IsJointRun(c, run) && InFlush(c, Last(run), i, todo)
    ensures IsJointRun(c, run') && InFlush(c, Last(run'), i, {}) && SameBut(Last(run), Last(run'), i)
    decreases |todo|
  {
    if todo == {} {
      run' := run;
    } else {
      var name :| name in todo;
      run' := FlushName(c, run, i, todo, name);
      run' := FlushNames(c, run', i, todo - {name});
    }
  }

  /** A worker at the end of sendRequest publishes everything while nobody else moves. */
  lemma PublishAll(c: Config, run: seq<Joint>, i: nat) returns (run': seq<Joint>)
    requires c.Valid() && IsJointRun(c, run) && Sized(c, Last(run)) && i < c.workers
    requires Last(run).sys.workers[i].pc.Publishing? && Last(run).stages[i].Serving?
    requires Last(run).shared.publishers[i].pc.Collecting? && !Last(run).meters[i].reading
    ensures IsJointRun(c, run') && Sized(c, Last(run')) && SameBut(Last(run), Last(run'), i)
    ensures Last(run').stages[i].Flushed?
  {
    run' := ExtendJoint(c, run, Measure(i, Last(run).meters[i].last));
    assert T.Seconds(0) == 0.0;
    run' := ExtendJoint(c, run', Flush(E.Begin(i)));
    run' := FlushNames(c, run', i, Last(run').shared.publishers[i].pending.Keys);
    run' := ExtendJoint(c, run', Flush(E.End(i)));
  }

  ghost predicate AllServing(c: Config, j: Joint) {
    Sized(c, j) && forall i :: 0 <= i < c.workers ==> j.stages[i].Serving?
  }

  /** Any step of the protocol can be taken, with what its worker publishes before it. */
  lemma LiftStep(c: Config, run: seq<Joint>, step: Step) returns (run': seq<Joint>)
    requires c.Valid() && IsJointRun(c, run) && AllServing(c, Last(run)) && Enabled(c, Last(run).sys, step)
    ensures IsJointRun(c, run') && AllServing(c, Last(run')) && Last(run').sys == Apply(c, Last(run).sys, step)
  {
    AccountedOnRun(c, run, |run| - 1);
    StepChangesWorker(c, Last(run).sys, step, 0);
    if step.CompleteStep? {
      assert LinkedAt(c, Last(run), step.i);
      run' := ExtendJoint(c, run, Reply(step.i, step.id, Succeeded));
    } else if step.RunnerStep? && StartsWorker(c, Last(run).sys) {
      run' := ExtendJoint(c, run, StartWorker(0));
    } else if Publishes(Last(run).sys, step) {
      assert LinkedAt(c, Last(run), step.i);
      run' := PublishAll(c, run, step.i);
      run' := ExtendJoint(c, run', Move(step));
    } else {
      run' := ExtendJoint(c, run, Move(step));
    }
  }

  /** The accounts exclude nothing: every reachable state of the protocol is reached with accounts. */
  lemma {:induction false} EveryRunHasAccounts(c: Config, run: seq<System>, k: nat) returns (joint: seq<Joint>)
    requires c.Valid() && IsRun(c, run) && k < |run|
    ensures IsJointRun(c, joint) && AllServing(c, Last(joint)) && Last(joint).sys == run[k]
  {
    if k == 0 {
      joint := [InitJoint(c)];
    } else {
      joint := EveryRunHasAccounts(c, run, k - 1);
      var step := StepAt(c, run, k - 1);
      joint := LiftStep(c, joint, step);
    }
  }
}
