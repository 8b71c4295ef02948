/**
 Round-robin dealing: of ticks to worker queues (Scheduler.cpp) and of requests to the
 connections of a worker (Worker.h).
 */
module Dealing {
  import opened Arithmetic
  import opened Events

  /** Where a pointer stands after `k` moves if it starts at 0 and returns to 0 when it reaches n. */
  function Pointer(k: nat, n: nat): nat
    requires n > 0
  {
    if k == 0 then 0
    else if Pointer(k - 1, n) + 1 == n then 0 else Pointer(k - 1, n) + 1
  }

  /** The pointer goes round: tick t goes to place t mod n. */
  lemma {:induction false} PointerIsMod(k: nat, n: nat)
    requires n > 0
    ensures Pointer(k, n) == k % n && Pointer(k, n) < n
  {
    if k > 0 {
      PointerIsMod(k - 1, n);
      ModStep(k - 1, n);
    } else {
      DivModUnique(0, n, 0, 0);
    }
  }

  /** How many of the ticks 0, ..., k-1 go to place `i`. */
  function Dealt(k: nat, n: nat, i: nat): nat
    requires n > 0
  {
    if k == 0 then 0 else Dealt(k - 1, n, i) + if Pointer(k - 1, n) == i then 1 else 0
  }

  lemma PointerInRange(k: nat, n: nat)
    requires n > 0
    ensures Pointer(k, n) < n
  {
    PointerIsMod(k, n);
  }

  /** The closed form of fairness: k div n each, and one more for the first k mod n places. */
  lemma {:induction false} DealtClosedForm(k: nat, n: nat, i: nat)
    requires i < n
    ensures Dealt(k, n, i) == k / n + if i < k % n then 1 else 0
  {
    if k == 0 {
    } else {
      DealtClosedForm(k - 1, n, i);
      PointerIsMod(k - 1, n);
      ModStep(k - 1, n);
    }
  }

  /** Tick t of an epoch is tick number t div n of queue t mod n. */
  lemma TickPosition(t: nat, n: nat)
    requires n > 0
    ensures Dealt(t, n, t % n) == t / n
    ensures Dealt(t + 1, n, t % n) == t / n + 1
  {
    DealtClosedForm(t, n, t % n);
    PointerIsMod(t, n);
  }

  /** Nothing is lost in dealing: the shares of all places add up to k. */
  function DealtToFirst(k: nat, n: nat, m: nat): nat
    requires n > 0
  {
    if m == 0 then 0 else DealtToFirst(k, n, m - 1) + Dealt(k, n, m - 1)
  }

  lemma {:induction false} DealtAddsUp(k: nat, n: nat, m: nat)
    requires n > 0 && m <= n
    ensures DealtToFirst(k, n, m) == if k == 0 then 0 else
              DealtToFirst(k - 1, n, m) + if Pointer(k - 1, n) < m then 1 else 0
  {
    if m == 0 {
    } else {
      DealtAddsUp(k, n, m - 1);
    }
  }

  lemma {:induction false} AllTicksAreDealt(k: nat, n: nat)
    requires n > 0
    ensures DealtToFirst(k, n, n) == k
  {
    DealtAddsUp(k, n, n);
    if k == 0 {
    } else {
      PointerInRange(k - 1, n);
      AllTicksAreDealt(k - 1, n);
    }
  }

  /** The share of queue `i` in each of the epochs. */
  function Shares(epochs: seq<nat>, n: nat, i: nat): (r: seq<nat>)
    requires n > 0
    ensures |r| == |epochs|
  {
    seq(|epochs|, e requires 0 <= e < |epochs| => Dealt(epochs[e], n, i))
  }

  /** What queue `i` holds when every epoch in `epochs` has been dealt to it. */
  function Dealings(epochs: seq<nat>, n: nat, i: nat): seq<Event>
    requires n > 0
  {
    Shape(Shares(epochs, n, i))
  }

  lemma DealNewEpoch(epochs: seq<nat>, n: nat, i: nat)
    requires n > 0
    ensures Dealings(epochs + [0], n, i) == Dealings(epochs, n, i) + [RESET_EVENT]
  {
    assert Shares(epochs + [0], n, i) == Shares(epochs, n, i) + [0];
    ShapeNewEpoch(Shares(epochs, n, i));
  }

  function Bump(epochs: seq<nat>): seq<nat>
    requires epochs != []
  {
    epochs[|epochs| - 1 := epochs[|epochs| - 1] + 1]
  }

  /** One more tick in the current epoch is one more SEND_REQUEST in the queue the pointer stands at. */
  lemma DealTick(epochs: seq<nat>, n: nat, i: nat)
    requires n > 0 && epochs != []
    ensures Dealings(Bump(epochs), n, i) ==
            Dealings(epochs, n, i) + if Pointer(epochs[|epochs| - 1], n) == i then [SEND_EVENT] else []
  {
    var l := |epochs| - 1;
    var ks := Shares(epochs, n, i);
    if Pointer(epochs[l], n) == i {
      assert Shares(Bump(epochs), n, i) == ks[l := ks[l] + 1];
      ShapeTick(ks);
    } else {
      assert Shares(Bump(epochs), n, i) == ks;
    }
  }

  lemma DealingsGrammar(epochs: seq<nat>, n: nat, i: nat)
    requires n > 0
    ensures Automaton(Dealings(epochs, n, i)) == if epochs == [] then 0 else 1
    ensures epochs != [] ==> Automaton(Dealings(epochs, n, i) + [STOP_EVENT]) == 2
    ensures STOP_EVENT !in Dealings(epochs, n, i)
  {
    var ks := Shares(epochs, n, i);
    AutomatonOnShape(ks);
    AutomatonStep(Shape(ks), STOP_EVENT);
    ShapeHasNoStop(ks);
  }

  /** Over all epochs an earlier queue leads a later one by at least 0 and at most the number of epochs. */
  lemma {:induction false} EarlierQueueLeads(epochs: seq<nat>, n: nat, i: nat, j: nat)
    requires i <= j < n
    ensures 0 <= Sum(Shares(epochs, n, i)) - Sum(Shares(epochs, n, j)) <= |epochs|
  {
    if epochs == [] {
    } else {
      var front, k := epochs[..|epochs| - 1], epochs[|epochs| - 1];
      EarlierQueueLeads(front, n, i, j);
      assert Shares(epochs, n, i)[..|front|] == Shares(front, n, i);
      assert Shares(epochs, n, j)[..|front|] == Shares(front, n, j);
      DealtClosedForm(k, n, i);
      DealtClosedForm(k, n, j);
    }
  }
}
