/**
 All workers publishing exceptions into one shared counter at the same time (Worker.h,
 CounterStatistic.h). The per-name cells are atomic; the total is a plain integer that is
 read and written in two steps.
 */
module ExceptionCounts {
  import opened CounterStatistics

  /** A worker's position in the publishing loop; `todo` holds the names not yet published. */
  datatype FlushPc =
    | Collecting
    | Flushing(todo: set<string>)
    | Adding(todo: set<string>, name: string, seen: nat)   // total read, before it is written
    | Counted(todo: set<string>, name: string)             // total written, before the cell is

  datatype Publisher = Publisher(pending: map<string, nat>, pc: FlushPc)

  datatype Shared = Shared(
    total: nat,                     // count_
    cells: map<string, nat>,        // subkey_count_
    publishers: seq<Publisher>,
    unnamed: nat,                   // amounts published without a name
    received: map<string, nat>)     // failures received, by name

  datatype Step =
    | Fail(i: nat, name: string)
    | Begin(i: nat)
    | ReadTotal(i: nat, name: string)
    | WriteTotal(i: nat)
    | AddCell(i: nat)
    | End(i: nat)

  predicate Enabled(s: Shared, step: Step) {
    step.i < |s.publishers| &&
    var p := s.publishers[step.i];
    match step
    // replies run on the worker's event thread, so none arrives while it publishes
    case Fail(_, _) => p.pc.Collecting?
    case Begin(_) => p.pc.Collecting?
    case ReadTotal(_, name) => p.pc.Flushing? && name in p.pc.todo && name in p.pending
    case WriteTotal(_) => p.pc.Adding? && p.pc.name in p.pending
    case AddCell(_) => p.pc.Counted? && p.pc.name in p.pending
    case End(_) => p.pc.Flushing? && p.pc.todo == {}
  }

  function Apply(s: Shared, step: Step): Shared
    requires Enabled(s, step)
  {
    var p := s.publishers[step.i];
    match step
    case Fail(i, name) =>
      s.(publishers := s.publishers[i := p.(pending := Plus(p.pending, name, 1))],
         received := Plus(s.received, name, 1))
    case Begin(i) => s.(publishers := s.publishers[i := p.(pc := Flushing(p.pending.Keys))])
    case ReadTotal(i, name) =>
      s.(publishers := s.publishers[i := p.(pc := Adding(p.pc.todo, name, s.total))])
    case WriteTotal(i) =>
      s.(total := p.pc.seen + p.pending[p.pc.name],
         publishers := s.publishers[i := p.(pc := Counted(p.pc.todo, p.pc.name))])
    case AddCell(i) =>
      var n := p.pending[p.pc.name];
      s.(cells := CellsAfter(s.cells, n, p.pc.name),
         unnamed := s.unnamed + (if p.pc.name == "" then n else 0),
         publishers := s.publishers[i := p.(pc := Flushing(p.pc.todo - {p.pc.name}))])
    case End(i) => s.(publishers := s.publishers[i := Publisher(map[], Collecting)])
  }

  function Init(workers: nat): Shared {
    Shared(0, map[], seq(workers, _ => Publisher(map[], Collecting)), 0, map[])
  }

  /** The states of a run that takes the given steps, all of them enabled. */
  ghost predicate IsRun(workers: nat, run: seq<Shared>, steps: seq<Step>) {
    && |run| == |steps| + 1
    && run[0] == Init(workers)
    && (forall k :: 0 <= k < |steps| ==> StepTaken(run, steps, k))
  }

  ghost predicate StepTaken(run: seq<Shared>, steps: seq<Step>, k: nat)
    requires |run| == |steps| + 1 && k < |steps|
  {
    Enabled(run[k], steps[k]) && run[k + 1] == Apply(run[k], steps[k])
  }

  // ---------- Sums over the workers ----------

  function SumBy(f: Publisher -> nat, ps: seq<Publisher>): nat {
    if ps == [] then 0 else SumBy(f, ps[..|ps| - 1]) + f(ps[|ps| - 1])
  }

  lemma {:induction false} SumByUpdate(f: Publisher -> nat, ps: seq<Publisher>, i: nat, p: Publisher)
    requires i < |ps|
    ensures SumBy(f, ps[i := p]) + f(ps[i]) == SumBy(f, ps) + f(p)
  {
    var l := |ps| - 1;
    if i == l {
      assert ps[i := p][..l] == ps[..l];
    } else {
      SumByUpdate(f, ps[..l], i, p);
      assert ps[i := p][..l] == ps[..l][i := p];
    }
  }

  lemma {:induction false} SumByAtLeast(f: Publisher -> nat, ps: seq<Publisher>, i: nat)
    requires i < |ps|
    ensures SumBy(f, ps) >= f(ps[i])
  {
    if i == |ps| - 1 {
    } else {
      SumByAtLeast(f, ps[..|ps| - 1], i);
    }
  }

  lemma {:induction false} SumByZero(f: Publisher -> nat, ps: seq<Publisher>)
    requires forall i :: 0 <= i < |ps| ==> f(ps[i]) == 0
    ensures SumBy(f, ps) == 0
  {
    if ps == [] {
    } else {
      SumByZero(f, ps[..|ps| - 1]);
    }
  }

  /** What a worker still owes the cell of `name`. */
  function Owed(name: string): Publisher -> nat {
    (p: Publisher) => if p.pc.Collecting? || name in p.pc.todo then Get(p.pending, name) else 0
  }

  /** What a worker has added to the total and not yet to a cell. */
  function Half(): Publisher -> nat {
    (p: Publisher) => if p.pc.Counted? then Get(p.pending, p.pc.name) else 0
  }

  // ---------- The invariant ----------

  predicate PublisherOk(p: Publisher) {
    && (!p.pc.Collecting? ==> p.pc.todo <= p.pending.Keys)
    && (p.pc.Adding? || p.pc.Counted? ==> p.pc.name in p.pc.todo)
  }

  /** What has been published under `name`. */
  function Settled(s: Shared, name: string): nat {
    if name == "" then s.unnamed else Get(s.cells, name)
  }

  /** Published under `name` or still held by a worker: everything received under that name. */
  ghost predicate Balanced(s: Shared, name: string) {
    Settled(s, name) + SumBy(Owed(name), s.publishers) == Get(s.received, name)
  }

  /** Everything entered in the total so far, by the cells it is entered in next. */
  ghost function Entered(s: Shared): nat {
    SumMap(s.cells) + s.unnamed + SumBy(Half(), s.publishers)
  }

  ghost predicate Inv(s: Shared) {
    && (forall i :: 0 <= i < |s.publishers| ==> PublisherOk(s.publishers[i]))
    && (forall name :: Balanced(s, name))
    && s.total <= Entered(s)
    && (forall i :: 0 <= i < |s.publishers| && s.publishers[i].pc.Adding? ==>
          s.publishers[i].pc.seen <= Entered(s))
  }

  lemma PublishersOkStep(s: Shared, step: Step)
    requires Enabled(s, step) && forall i :: 0 <= i < |s.publishers| ==> PublisherOk(s.publishers[i])
    ensures forall i :: 0 <= i < |s.publishers| ==> PublisherOk(Apply(s, step).publishers[i])
  {
  }

  lemma BalancedStep(s: Shared, step: Step, name: string)
    requires Enabled(s, step) && PublisherOk(s.publishers[step.i]) && Balanced(s, name)
    ensures Balanced(Apply(s, step), name)
  {
    SumByUpdate(Owed(name), s.publishers, step.i, Apply(s, step).publishers[step.i]);
  }

  /** The amount by which a step raises what is entered: only a write of the total does. */
  function Raise(s: Shared, step: Step): nat
    requires Enabled(s, step)
  {
    if step.WriteTotal? then s.publishers[step.i].pending[s.publishers[step.i].pc.name] else 0
  }

  lemma EnteredStep(s: Shared, step: Step)
    requires Enabled(s, step)
    ensures Entered(Apply(s, step)) == Entered(s) + Raise(s, step)
  {
    var p := s.publishers[step.i];
    SumByUpdate(Half(), s.publishers, step.i, Apply(s, step).publishers[step.i]);
    if step.AddCell? && p.pc.name != "" {
      SumMapPlus(s.cells, p.pc.name, p.pending[p.pc.name]);
    }
  }

  lemma InvStep(s: Shared, step: Step)
    requires Inv(s) && Enabled(s, step)
    ensures Inv(Apply(s, step))
  {
    PublishersOkStep(s, step);
    EnteredStep(s, step);
    forall name: string
      ensures Balanced(Apply(s, step), name)
    {
      BalancedStep(s, step, name);
    }
  }

  lemma InitInv(workers: nat)
    ensures Inv(Init(workers)) && Entered(Init(workers)) == 0
  {
    var s := Init(workers);
    SumByZero(Half(), s.publishers);
    forall name: string
      ensures Balanced(s, name)
    {
      SumByZero(Owed(name), s.publishers);
    }
  }

  lemma {:induction false} InvOnRun(workers: nat, run: seq<Shared>, steps: seq<Step>, k: nat)
    requires IsRun(workers, run, steps) && k < |run|
    ensures Inv(run[k]) && |run[k].publishers| == workers
  {
    if k == 0 {
      InitInv(workers);
    } else {
      InvOnRun(workers, run, steps, k - 1);
      assert StepTaken(run, steps, k - 1);
      InvStep(run[k - 1], steps[k - 1]);
    }
  }

  // ---------- Theorems ----------

  /**
   Published exception counts are conserved in every interleaving: for each type name the
   shared cell, or the unnamed amount for the empty name, plus what all workers still hold
   equals the failures received.
   */
  lemma CountsAreConserved(workers: nat, run: seq<Shared>, steps: seq<Step>, k: nat, name: string)
    requires IsRun(workers, run, steps) && k < |run|
    ensures (if name == "" then run[k].unnamed else Get(run[k].cells, name))
            + SumBy(Owed(name), run[k].publishers) == Get(run[k].received, name)
  {
    InvOnRun(workers, run, steps, k);
    assert Balanced(run[k], name);
  }

  /** The total may lose updates but never counts anything that was not published. */
  lemma TotalNeverOverstates(workers: nat, run: seq<Shared>, steps: seq<Step>, k: nat)
    requires IsRun(workers, run, steps) && k < |run|
    ensures run[k].total <= Entered(run[k])
  {
    InvOnRun(workers, run, steps, k);
  }

  /** The two steps of `count_ += n` never overlap. */
  ghost predicate Exclusive(s: Shared) {
    forall i, j :: 0 <= i < j < |s.publishers| ==>
      !(s.publishers[i].pc.Adding? && s.publishers[j].pc.Adding?)
  }

  ghost predicate Exact(s: Shared) {
    s.total == Entered(s)
  }

  /** The total is exact, and so is what a worker between the two steps has read of it. */
  ghost predicate UpToDate(s: Shared) {
    && Exact(s)
    && forall i :: 0 <= i < |s.publishers| && s.publishers[i].pc.Adding? ==> s.publishers[i].pc.seen == s.total
  }

  lemma UpToDateStep(s: Shared, step: Step)
    requires Enabled(s, step) && Exclusive(s) && Exclusive(Apply(s, step)) && UpToDate(s)
    ensures UpToDate(Apply(s, step))
  {
    EnteredStep(s, step);
    ExclusiveStep(s, step);
  }

  lemma InitUpToDate(workers: nat)
    ensures UpToDate(Init(workers))
  {
    InitInv(workers);
  }

  lemma {:induction false} ExactOnRun(workers: nat, run: seq<Shared>, steps: seq<Step>, k: nat)
    requires IsRun(workers, run, steps) && k < |run|
    requires forall m :: 0 <= m <= k ==> Exclusive(run[m])
    ensures UpToDate(run[k])
  {
    if k == 0 {
      InitUpToDate(workers);
    } else {
      ExactOnRun(workers, run, steps, k - 1);
      assert StepTaken(run, steps, k - 1);
      assert Exclusive(run[k - 1]) && Exclusive(run[k]);
      UpToDateStep(run[k - 1], steps[k - 1]);
    }
  }

  lemma ExclusiveStep(s: Shared, step: Step)
    requires Enabled(s, step) && Exclusive(s) && Exclusive(Apply(s, step))
    requires forall i :: 0 <= i < |s.publishers| && s.publishers[i].pc.Adding? ==>
               s.publishers[i].pc.seen == s.total
    ensures
      var s' := Apply(s, step);
      && s'.total == s.total + Raise(s, step)
      && forall i :: 0 <= i < |s'.publishers| && s'.publishers[i].pc.Adding? ==>
           s'.publishers[i].pc.seen == s'.total
  {
  }
}
