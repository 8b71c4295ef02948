/**
 Overload logging (Scheduler.cpp): a line is logged when a queue is longer than the
 threshold times a factor that doubles with every line. The factor is a uint64_t.
 */
module Overload {

  const TWO_64 := 0x1_0000_0000_0000_0000
  const BITS: nat := 64
  const TWO_62 := 0x4000_0000_0000_0000

  /** The factor kept for a queue and the number of lines logged for it. */
  datatype Alarm = Alarm(factor: nat, lines: nat)

  const QUIET := Alarm(1, 0)

  /** The comparison, in uint64_t arithmetic. */
  predicate Exceeds(size: nat, threshold: nat, factor: nat) {
    size > threshold * factor % TWO_64
  }

  function Twice(factor: nat): nat {
    factor * 2 % TWO_64
  }

  /** One observation of the queue's size. */
  function Observe(threshold: nat, alarm: Alarm, size: nat): Alarm {
    if Exceeds(size, threshold, alarm.factor) then Alarm(Twice(alarm.factor), alarm.lines + 1) else alarm
  }

  function ObserveAll(threshold: nat, sizes: seq<nat>): Alarm {
    if sizes == [] then QUIET
    else Observe(threshold, ObserveAll(threshold, sizes[..|sizes| - 1]), sizes[|sizes| - 1])
  }

  lemma ObserveOneMore(threshold: nat, sizes: seq<nat>, size: nat)
    ensures ObserveAll(threshold, sizes + [size]) == Observe(threshold, ObserveAll(threshold, sizes), size)
  {
    assert (sizes + [size])[..|sizes|] == sizes;
  }

  function Pow2(k: nat): (r: nat)
    ensures r >= 1
  {
    if k == 0 then 1 else 2 * Pow2(k - 1)
  }

  /** Some observed size exceeded the threshold times 2^(lines-1). */
  ghost predicate Witnessed(threshold: nat, sizes: seq<nat>, lines: nat) {
    lines >= 1 ==> exists k :: 0 <= k < |sizes| && sizes[k] > threshold * Pow2(lines - 1)
  }

  /**
   Logging is logarithmic: with a threshold of at least 1 and sizes below 2^62, the factor
   is always 2 to the number of lines, nothing overflows, and after c >= 1 lines some
   observed size exceeded threshold * 2^(c-1).
   */
  lemma {:induction false} LoggingIsLogarithmic(threshold: nat, sizes: seq<nat>)
    requires 1 <= threshold < TWO_62
    requires forall k :: 0 <= k < |sizes| ==> sizes[k] < TWO_62
    ensures
      var alarm := ObserveAll(threshold, sizes);
      && alarm.factor == Pow2(alarm.lines)
      && threshold * alarm.factor < TWO_64 / 2
      && alarm.factor * 2 < TWO_64
      && Witnessed(threshold, sizes, alarm.lines)
  {
    if sizes == [] {
    } else {
      var front, size := sizes[..|sizes| - 1], sizes[|sizes| - 1];
      LoggingIsLogarithmic(threshold, front);
      var alarm := ObserveAll(threshold, front);
      NoOverflow(threshold, alarm.factor);
      if Exceeds(size, threshold, alarm.factor) {
        assert sizes[|sizes| - 1] > threshold * Pow2(alarm.lines);
        Doubled(threshold, alarm.factor);
      } else if alarm.lines >= 1 {
        var k :| 0 <= k < |front| && front[k] > threshold * Pow2(alarm.lines - 1);
        assert sizes[k] > threshold * Pow2(alarm.lines - 1);
      }
    }
  }

  /**
   With such sizes a line is logged for an observation exactly if the size exceeds the
   threshold times 2 to the number of lines so far, as in arithmetic without overflow.
   */
  lemma LineIffOverFactor(threshold: nat, sizes: seq<nat>, size: nat)
    requires 1 <= threshold < TWO_62
    requires forall k :: 0 <= k < |sizes| ==> sizes[k] < TWO_62
    ensures
      var lines := ObserveAll(threshold, sizes).lines;
      ObserveAll(threshold, sizes + [size]).lines == lines + if size > threshold * Pow2(lines) then 1 else 0
  {
    ObserveOneMore(threshold, sizes, size);
    LoggingIsLogarithmic(threshold, sizes);
    NoOverflow(threshold, ObserveAll(threshold, sizes).factor);
  }

  lemma NoOverflow(threshold: nat, factor: nat)
    requires threshold >= 1 && threshold * factor < TWO_64 / 2
    ensures threshold * factor % TWO_64 == threshold * factor
    ensures factor * 2 < TWO_64 && factor * 2 % TWO_64 == factor * 2
  {
    assert factor <= threshold * factor;
  }

  lemma Doubled(threshold: nat, factor: nat)
    requires threshold >= 1 && threshold * factor < TWO_62
    ensures threshold * (factor * 2) < TWO_64 / 2
    ensures factor * 2 * 2 < TWO_64
  {
    assert threshold * (factor * 2) == 2 * (threshold * factor);
    assert factor <= threshold * factor;
  }

  /** `n` observations of a queue of length 1. */
  function Ones(n: nat): (r: seq<nat>)
    ensures |r| == n && forall k :: 0 <= k < n ==> r[k] == 1
  {
    seq(n, _ => 1)
  }

  lemma {:induction false} ZeroThresholdAlwaysFires(n: nat)
    requires n <= BITS
    ensures ObserveAll(0, Ones(n)).lines == n
    ensures ObserveAll(0, Ones(n)).factor == if n == BITS then 0 else Pow2(n)
  {
    if n == 0 {
    } else {
      ZeroThresholdAlwaysFires(n - 1);
      assert Ones(n)[..n - 1] == Ones(n - 1);
      Pow2Below64(n - 1);
    }
  }

  lemma Pow2Plus4(k: nat)
    ensures Pow2(k + 4) == 0x10 * Pow2(k)
  {
    assert Pow2(k + 4) == 2 * Pow2(k + 3) && Pow2(k + 2) == 2 * Pow2(k + 1);
  }

  lemma Pow2Plus16(k: nat)
    ensures Pow2(k + 16) == 0x1_0000 * Pow2(k)
  {
    Pow2Plus4(k);
    Pow2Plus4(k + 4);
    Pow2Plus4(k + 8);
    Pow2Plus4(k + 12);
  }

  lemma Pow2Plus64(k: nat)
    ensures Pow2(k + 64) == TWO_64 * Pow2(k)
  {
    Pow2Plus16(k);
    Pow2Plus16(k + 16);
    Pow2Plus16(k + 32);
    Pow2Plus16(k + 48);
  }

  lemma {:induction false} Pow2Below64(n: nat)
    requires n < 64
    ensures 2 * Pow2(n) <= TWO_64
    ensures n < 63 ==> 2 * Pow2(n) < TWO_64
    ensures n == 63 ==> 2 * Pow2(n) == TWO_64
    decreases 64 - n
  {
    if n == 63 {
      Pow2Plus64(n - 63);
    } else {
      Pow2Below64(n + 1);
    }
  }

  /**
   The factor is 2 to the number of lines for all sizes below 2^62 if and only if the
   threshold is at least 1; the runner passes the limit per worker as threshold, which is 0
   whenever the maximum is smaller than the number of workers.
   */
  lemma FactorIsPowerIffThreshold(threshold: nat)
    requires threshold < TWO_62
    ensures threshold >= 1 <==>
            forall sizes: seq<nat> :: (forall k :: 0 <= k < |sizes| ==> sizes[k] < TWO_62) ==>
              ObserveAll(threshold, sizes).factor == Pow2(ObserveAll(threshold, sizes).lines)
  {
    if threshold >= 1 {
      forall sizes: seq<nat> | forall k :: 0 <= k < |sizes| ==> sizes[k] < TWO_62
        ensures ObserveAll(threshold, sizes).factor == Pow2(ObserveAll(threshold, sizes).lines)
      {
        LoggingIsLogarithmic(threshold, sizes);
      }
    } else {
      var sizes := ZeroThresholdOverflows();
      assert ObserveAll(threshold, sizes).factor != Pow2(ObserveAll(threshold, sizes).lines);
    }
  }

  /** With threshold 0, as many observations of a non-empty queue as the factor has bits drive it to 0. */
  lemma ZeroThresholdOverflows() returns (sizes: seq<nat>)
    ensures forall k :: 0 <= k < |sizes| ==> sizes[k] < TWO_62
    ensures |sizes| == BITS && ObserveAll(0, sizes) == Alarm(0, BITS)
  {
    sizes := Ones(BITS);
    ZeroThresholdAlwaysFires(BITS);
  }
}
