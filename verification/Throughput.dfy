/**
 Throughput samples (Worker.h). The counter of completed requests is read for a sample and
 zeroed afterwards, in two steps.
 */
module Throughput {

  const NS_PER_S := 1000000000.0
  const MIN_WINDOW_NS := 100000000   // 0.1 s

  datatype Sample = Sample(value: real, from: int, to: int)

  /** `read` is the count a sample was taken from, until the counter is zeroed. */
  datatype Meter = Meter(
    pending: nat,              // n_throughput_requests_
    start: int,                // when the worker started
    last: int,                 // last_throughput_time_
    samples: seq<Sample>,
    completed: nat,            // all replies so far
    reading: bool,             // sample added, counter not yet zeroed
    read: nat,                 // the count that sample was computed from
    lost: nat)                 // replies wiped out by zeroing

  datatype Op = Reply | Measure(now: int) | Zero

  /** (now - last) in seconds. */
  function Seconds(ns: int): real {
    ns as real / NS_PER_S
  }

  /** With `ownThread`, replies run on the worker's event thread: none while a sample is being taken. */
  predicate Enabled(ownThread: bool, m: Meter, op: Op) {
    match op
    case Reply => ownThread ==> !m.reading
    case Measure(now) => !m.reading && now >= m.last
    case Zero => m.reading
  }

  /** The value of a sample: requests per second, scaled up to all workers. */
  function Rate(count: nat, delta: real, workers: nat): real
    requires delta > 0.0
  {
    count as real / delta * workers as real
  }

  function Apply(workers: nat, m: Meter, op: Op): Meter {
    match op
    case Reply => m.(pending := m.pending + 1, completed := m.completed + 1)
    case Measure(now) =>
      var delta := Seconds(now - m.last);
      if delta >= 0.1 then
        m.(samples := m.samples + [Sample(Rate(m.pending, delta, workers), m.last, now)],
           last := now, reading := true, read := m.pending)
      else m
    case Zero =>
      m.(pending := 0, reading := false, read := 0,
         lost := m.lost + (if m.pending >= m.read then m.pending - m.read else 0))
  }

  /** A measurement and, if it took a sample, the zeroing that follows it. */
  function Measured(workers: nat, m: Meter, now: int): Meter {
    var m' := Apply(workers, m, Measure(now));
    if m'.reading then Apply(workers, m', Zero) else m'
  }

  function Start(now: int): Meter {
    Meter(0, now, now, [], 0, false, 0, 0)
  }

  /** The requests a sample stands for: rate times window, over the number of workers. */
  function Requests(workers: nat, s: Sample): real
    requires workers > 0
  {
    s.value * (s.to - s.from) as real / 1000000000.0 / workers as real
  }

  function Sampled(workers: nat, samples: seq<Sample>): real
    requires workers > 0
  {
    if samples == [] then 0.0
    else Sampled(workers, samples[..|samples| - 1]) + Requests(workers, samples[|samples| - 1])
  }

  /** Where window k starts: at the end of the one before. */
  function WindowStart(m: Meter, k: nat): int
    requires k <= |m.samples|
  {
    if k == 0 then m.start else m.samples[k - 1].to
  }

  /** The windows follow each other without gap from the start to the last sample, each at least 0.1 s long. */
  ghost predicate Tiled(m: Meter) {
    && (forall k :: 0 <= k < |m.samples| ==> m.samples[k].to - m.samples[k].from >= MIN_WINDOW_NS)
    && (forall k :: 0 <= k < |m.samples| ==> m.samples[k].from == WindowStart(m, k))
    && m.last == WindowStart(m, |m.samples|)
  }

  ghost predicate Inv(ownThread: bool, workers: nat, m: Meter)
    requires workers > 0
  {
    && Tiled(m)
    && m.read <= m.pending && (!m.reading ==> m.read == 0)
    && Sampled(workers, m.samples) + (m.pending - m.read) as real + m.lost as real == m.completed as real
    && (ownThread ==> m.lost == 0 && (m.reading ==> m.read == m.pending))
  }

  lemma DivideThenMultiply(x: real, y: real)
    requires y != 0.0
    ensures x / y * y == x && x * y / y == x
  {
  }

  /** Sample times window over the number of workers gives back the count. */
  lemma SampleStandsForCount(count: real, delta: real, workers: real)
    requires workers > 0.0 && delta > 0.0
    ensures count / delta * workers * delta / workers == count
  {
    var rate := count / delta;
    DivideThenMultiply(count, delta);
    assert rate * workers * delta == count * workers by {
      assert rate * workers * delta == (rate * delta) * workers;
    }
    DivideThenMultiply(count, workers);
  }

  lemma TiledStep(workers: nat, m: Meter, op: Op)
    requires Tiled(m)
    ensures Tiled(Apply(workers, m, op))
  {
    var m' := Apply(workers, m, op);
    forall k | 0 <= k < |m'.samples|
      ensures m'.samples[k].from == WindowStart(m', k)
    {
      assert WindowStart(m', k) == WindowStart(m, k);
    }
  }

  lemma SampledStep(workers: nat, m: Meter, now: int)
    requires workers > 0 && Seconds(now - m.last) >= 0.1
    ensures Sampled(workers, Apply(workers, m, Measure(now)).samples) ==
            Sampled(workers, m.samples) + m.pending as real
  {
    var samples := Apply(workers, m, Measure(now)).samples;
    assert samples[..|samples| - 1] == m.samples;
    SampleStandsForCount(m.pending as real, Seconds(now - m.last), workers as real);
  }

  lemma InvStep(ownThread: bool, workers: nat, m: Meter, op: Op)
    requires workers > 0 && Inv(ownThread, workers, m) && Enabled(ownThread, m, op)
    ensures Inv(ownThread, workers, Apply(workers, m, op))
  {
    TiledStep(workers, m, op);
    if op.Measure? && Seconds(op.now - m.last) >= 0.1 {
      SampledStep(workers, m, op.now);
    }
  }

  /**
   A measurement takes a sample exactly if 0.1 s have passed since the last one; the sample is
   the number of replies since then per second, times the number of workers.
   */
  lemma SampleWhenDue(workers: nat, m: Meter, now: int)
    requires !m.reading
    ensures
      var m' := Measured(workers, m, now);
      if now - m.last >= 100_000_000 then
        && |m'.samples| == |m.samples| + 1 && m'.samples[..|m.samples|] == m.samples
        && m'.pending == 0 && m'.last == now
        && m'.samples[|m.samples|].value * (now - m.last) as real == m.pending as real * workers as real * 1000000000.0
      else m' == m
  {
    if now - m.last >= 100_000_000 {
      RateTimesTime(m.pending, now - m.last, workers);
    }
  }

  lemma RateTimesTime(count: nat, ns: int, workers: nat)
    requires ns > 0
    ensures Rate(count, Seconds(ns), workers) * ns as real == count as real * workers as real * 1000000000.0
  {
    var delta := Seconds(ns);
    var each := count as real / delta;
    DivideThenMultiply(count as real, delta);
    assert each * delta == count as real;
    assert each * ns as real == count as real * 1000000000.0;
    assert each * workers as real * ns as real == (each * ns as real) * workers as real;
  }

  /** The states of a meter started at `now` that goes through the given operations. */
  ghost predicate IsRun(ownThread: bool, workers: nat, now: int, run: seq<Meter>, ops: seq<Op>) {
    && |run| == |ops| + 1
    && run[0] == Start(now)
    && (forall k :: 0 <= k < |ops| ==> StepTaken(ownThread, workers, run, ops, k))
  }

  ghost predicate StepTaken(ownThread: bool, workers: nat, run: seq<Meter>, ops: seq<Op>, k: nat)
    requires |run| == |ops| + 1 && k < |ops|
  {
    Enabled(ownThread, run[k], ops[k]) && run[k + 1] == Apply(workers, run[k], ops[k])
  }

  /**
   Samples lose and double-count nothing: sample times window length over the number of
   workers, summed up, plus the pending count is the number of completed requests, if and
   only if no reply slipped in between a read and its zeroing; and none can when replies
   run on the worker's own thread. The windows tile the time since the start.
   */
  lemma {:induction false} SamplesAccountForReplies(
      ownThread: bool, workers: nat, now: int, run: seq<Meter>, ops: seq<Op>, k: nat)
    requires workers > 0 && IsRun(ownThread, workers, now, run, ops) && k < |run|
    ensures
      var m := run[k];
      && Inv(ownThread, workers, m) && Tiled(m) && m.start == now
      && (!m.reading ==>
            (Sampled(workers, m.samples) + m.pending as real == m.completed as real <==> m.lost == 0))
      && (ownThread ==> m.lost == 0)
  {
    if k == 0 {
    } else {
      SamplesAccountForReplies(ownThread, workers, now, run, ops, k - 1);
      assert StepTaken(ownThread, workers, run, ops, k - 1);
      InvStep(ownThread, workers, run[k - 1], ops[k - 1]);
    }
  }

  // ---------- The meters that a worker can have ----------

  /** Some run with replies on the worker's own thread leads to `m`. */
  ghost predicate Reached(workers: nat, m: Meter) {
    exists now, run, ops :: IsRun(true, workers, now, run, ops) && run[|ops|] == m
  }

  lemma ReachedStart(workers: nat, now: int)
    ensures Reached(workers, Start(now))
  {
    assert IsRun(true, workers, now, [Start(now)], []);
  }

  lemma ReachedStep(workers: nat, m: Meter, op: Op)
    requires Reached(workers, m) && Enabled(true, m, op)
    ensures Reached(workers, Apply(workers, m, op))
  {
    var now, run, ops :| IsRun(true, workers, now, run, ops) && run[|ops|] == m;
    var run', ops' := run + [Apply(workers, m, op)], ops + [op];
    forall k | 0 <= k < |ops'|
      ensures StepTaken(true, workers, run', ops', k)
    {
      if k < |ops| {
        assert StepTaken(true, workers, run, ops, k);
      }
    }
    assert IsRun(true, workers, now, run', ops');
  }

  lemma ReachedMeasured(workers: nat, m: Meter, now: int)
    requires Reached(workers, m) && !m.reading && now >= m.last
    ensures Reached(workers, Measured(workers, m, now)) && !Measured(workers, m, now).reading
  {
    ReachedStep(workers, m, Measure(now));
    var m' := Apply(workers, m, Measure(now));
    if m'.reading {
      ReachedStep(workers, m', Zero);
    }
  }

  /** Such a meter accounts for every reply. */
  lemma ReachedAccounts(workers: nat, m: Meter)
    requires workers > 0 && Reached(workers, m)
    ensures Inv(true, workers, m)
    ensures !m.reading ==> Sampled(workers, m.samples) + m.pending as real == m.completed as real
  {
    var now, run, ops :| IsRun(true, workers, now, run, ops) && run[|ops|] == m;
    SamplesAccountForReplies(true, workers, now, run, ops, |ops|);
  }
}
