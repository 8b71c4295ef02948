/**
 The memcached workload (services/memcached/Workload.h): a WARMUP phase that SETs every
 key once, then GETs over a cyclic key index that RESET takes back to 0.
 */
module MemcachedWorkload {
  import opened Arithmetic

  datatype WorkloadState = WARMUP | GET

  datatype Request = SetRequest(key: int, value: int) | GetRequest(key: int)

  datatype Workload = Workload(state: WorkloadState, index: int)

  const INT_MAX := 0x7fff_ffff
  const INITIAL := Workload(WARMUP, 0)

  function ResetIndex(w: Workload): Workload {
    w.(index := 0)
  }

  /** getNextRequest for `n` keys: the request and the workload after it. */
  function NextRequest(w: Workload, n: int): (Workload, Request) {
    var index := if w.index == n then 0 else w.index;
    if w.state == WARMUP then
      (Workload(if index == n - 1 then GET else WARMUP, index + 1), SetRequest(index, index))
    else
      (Workload(GET, index + 1), GetRequest(index))
  }

  // ---------- Every interleaving of requests and resets ----------

  datatype Op = NextCall | ResetCall

  /** The workload and the requests issued after a sequence of operations on a new workload. */
  function Drive(ops: seq<Op>, n: int): (Workload, seq<Request>) {
    if ops == [] then (INITIAL, [])
    else
      var (w, issued) := Drive(ops[..|ops| - 1], n);
      if ops[|ops| - 1].ResetCall? then (ResetIndex(w), issued)
      else
        var (w', r) := NextRequest(w, n);
        (w', issued + [r])
  }

  predicate WasSet(issued: seq<Request>, key: int) {
    SetRequest(key, key) in issued
  }

  /** What a history of requests promises, stated without mentioning the state machine. */
  ghost predicate SetsThenGets(issued: seq<Request>, n: int) {
    && (forall k :: 0 <= k < |issued| ==> 0 <= issued[k].key < n)
    && (forall k :: 0 <= k < |issued| && issued[k].SetRequest? ==> issued[k].value == issued[k].key)
    // every GET names a key that was SET before it
    && (forall k :: 0 <= k < |issued| && issued[k].GetRequest? ==> WasSet(issued[..k], issued[k].key))
    // no SET follows a GET
    && (forall j, k :: 0 <= j < k < |issued| && issued[j].GetRequest? ==> issued[k].GetRequest?)
  }

  ghost predicate WarmedUp(issued: seq<Request>, n: int) {
    forall key :: 0 <= key < n ==> WasSet(issued, key)
  }

  /** The inductive invariant that ties the two fields to the history. */
  ghost predicate Consistent(w: Workload, issued: seq<Request>, n: int) {
    && SetsThenGets(issued, n)
    && 0 <= w.index <= n
    && (w.state.WARMUP? ==>
          && w.index < n
          && (forall k :: 0 <= k < |issued| ==> issued[k].SetRequest?)
          && WarmedUp(issued, w.index)
          && !WasSet(issued, n - 1))
    && (w.state.GET? ==> WarmedUp(issued, n))
  }

  lemma NextKeepsConsistent(w: Workload, issued: seq<Request>, n: int)
    requires n >= 1 && Consistent(w, issued, n)
    ensures
      var (w', r) := NextRequest(w, n);
      && Consistent(w', issued + [r], n)
      && (w.state.GET? ==> w'.state.GET? && r.GetRequest? && WasSet(issued, r.key))
  {
    var (w', r) := NextRequest(w, n);
    var issued' := issued + [r];
    assert issued'[|issued|] == r;
    forall key | WasSet(issued, key)
      ensures WasSet(issued', key)
    {
      var k :| 0 <= k < |issued| && issued[k] == SetRequest(key, key);
      assert issued'[k] == SetRequest(key, key);
    }
    assert forall k :: 0 <= k < |issued| ==> issued'[k] == issued[k] && issued'[..k] == issued[..k];
    assert issued'[..|issued|] == issued;
  }

  lemma ResetKeepsConsistent(w: Workload, issued: seq<Request>, n: int)
    requires n >= 1 && Consistent(w, issued, n)
    ensures Consistent(ResetIndex(w), issued, n)
  {
  }

  /**
   In every interleaving of requests and resets with 1 <= n <= INT_MAX: the history is
   SETs whose value is their key and then GETs of keys already SET; the state is GET if and
   only if every key has been SET; and the index, an `int`, never leaves 0..n.
   */
  lemma {:induction false} EveryHistoryIsConsistent(ops: seq<Op>, n: int)
    requires 1 <= n <= INT_MAX
    ensures
      var (w, issued) := Drive(ops, n);
      && Consistent(w, issued, n)
      && (w.state.GET? <==> WarmedUp(issued, n))
      && w.index <= INT_MAX
  {
    if ops == [] {
    } else {
      var front := ops[..|ops| - 1];
      EveryHistoryIsConsistent(front, n);
      var (w, issued) := Drive(front, n);
      if ops[|ops| - 1].NextCall? {
        NextKeepsConsistent(w, issued, n);
      }
    }
  }

  function Requests(k: nat): (ops: seq<Op>)
    ensures |ops| == k && forall j :: 0 <= j < k ==> ops[j].NextCall?
  {
    seq(k, _ => NextCall)
  }

  /** Outside the range the index never wraps in time: it just counts the requests. */
  lemma {:induction false} IndexRunsAway(n: int, k: nat)
    requires n < 1 || n > INT_MAX
    requires k <= INT_MAX + 1
    ensures Drive(Requests(k), n).0.index == k
  {
    if k == 0 {
    } else {
      IndexRunsAway(n, k - 1);
      assert Requests(k)[..k - 1] == Requests(k - 1);
    }
  }

  /** The index, an `int`, stays in range in every history if and only if 1 <= n <= INT_MAX. */
  lemma IndexFitsIffKeysInRange(n: int)
    ensures 1 <= n <= INT_MAX <==> forall ops: seq<Op> :: 0 <= Drive(ops, n).0.index <= INT_MAX
  {
    if 1 <= n <= INT_MAX {
      forall ops: seq<Op>
        ensures 0 <= Drive(ops, n).0.index <= INT_MAX
      {
        EveryHistoryIsConsistent(ops, n);
      }
    } else {
      var last := INT_MAX + 1;
      IndexRunsAway(n, last);
      assert Drive(Requests(last), n).0.index > INT_MAX;
    }
  }

  /** GET is absorbing: once every key is SET, no continuation issues another SET. */
  lemma {:induction false} NoSetAfterWarmup(ops: seq<Op>, more: seq<Op>, n: int)
    requires 1 <= n <= INT_MAX
    requires Drive(ops, n).0.state.GET?
    ensures
      var issued, issued' := Drive(ops, n).1, Drive(ops + more, n).1;
      && issued <= issued'
      && Drive(ops + more, n).0.state.GET?
      && (forall k :: |issued| <= k < |issued'| ==> issued'[k].GetRequest? && WasSet(issued, issued'[k].key))
  {
    EveryHistoryIsConsistent(ops, n);
    if more == [] {
      assert ops + more == ops;
    } else {
      var front := more[..|more| - 1];
      NoSetAfterWarmup(ops, front, n);
      assert (ops + more)[..|ops + more| - 1] == ops + front;
      EveryHistoryIsConsistent(ops + front, n);
    }
  }

  /** After a RESET, request number a (from 0) asks for key a mod n, whatever happened before. */
  lemma {:induction false} KeyAfterReset(w: Workload, n: int, a: nat)
    requires n >= 1
    ensures
      var w' := Advance(ResetIndex(w), n, a);
      && 0 <= w'.index <= n
      && w'.index % n == a % n
      && NextRequest(w', n).1.key == a % n
  {
    if a == 0 {
    } else {
      KeyAfterReset(w, n, a - 1);
      CyclicIndex(Advance(ResetIndex(w), n, a - 1).index, n, a - 1);
    }
    CyclicIndex(Advance(ResetIndex(w), n, a).index, n, a);
  }

  /** The workload after `a` requests. */
  function Advance(w: Workload, n: int, a: nat): Workload {
    if a == 0 then w else NextRequest(Advance(w, n, a - 1), n).0
  }

  /**
   Warm-up ends: `n` requests from index 0 on, with no reset between them, lead to GET,
   whatever happened before.
   */
  lemma {:induction false} WarmupEnds(w: Workload, n: nat, a: nat)
    requires a <= n && n >= 1 && w.index == 0
    ensures Advance(w, n, a).index == a
    ensures a < n ==> Advance(w, n, a).state == w.state
    ensures a == n ==> Advance(w, n, a).state.GET?
  {
    if a == 0 {
    } else {
      WarmupEnds(w, n, a - 1);
    }
  }

  /** Request number a (from 0) of a worker that is never reset. */
  function UndisturbedRequest(a: nat, n: nat): Request
    requires n >= 1
  {
    if a < n then SetRequest(a, a) else GetRequest(a % n)
  }

  /** Without resets the first n requests SET the keys in order, and all later ones GET them in turn. */
  lemma {:induction false} UndisturbedHistory(k: nat, n: nat)
    requires n >= 1
    ensures
      var (w, issued) := Drive(Requests(k), n);
      && w == Advance(INITIAL, n, k)
      && |issued| == k
      && forall a :: 0 <= a < k ==> issued[a] == UndisturbedRequest(a, n)
  {
    if k == 0 {
    } else {
      UndisturbedHistory(k - 1, n);
      assert Requests(k)[..k - 1] == Requests(k - 1);
      NextUndisturbed(k - 1, n);
    }
  }

  lemma NextUndisturbed(a: nat, n: nat)
    requires n >= 1
    ensures NextRequest(Advance(INITIAL, n, a), n).1 == UndisturbedRequest(a, n)
  {
    KeyAfterReset(INITIAL, n, a);
    StateWithoutReset(n, a);
    if a < n {
      DivModUnique(a, n, 0, a);
    }
  }

  lemma {:induction false} StateWithoutReset(n: nat, a: nat)
    requires n >= 1
    ensures Advance(INITIAL, n, a).state.GET? <==> a >= n
  {
    if a <= n {
      WarmupEnds(INITIAL, n, a);
    } else {
      StateWithoutReset(n, a - 1);
    }
  }

  // ---------- The class ----------

  /** Workload<MemcachedService>, with the requests it has issued as a ghost history. */
  class MemcachedService {
    const numberOfKeys: int
    var state: WorkloadState
    var index: int
    ghost var issued: seq<Request>

    ghost function Value(): Workload
      reads this
    {
      Workload(state, index)
    }

    ghost predicate Valid()
      reads this
    {
      1 <= numberOfKeys <= INT_MAX && Consistent(Value(), issued, numberOfKeys)
    }

    constructor (numberOfKeys: int)
      ensures Valid() <==> 1 <= numberOfKeys <= INT_MAX
      ensures Value() == INITIAL && issued == [] && this.numberOfKeys == numberOfKeys
    {
      this.numberOfKeys := numberOfKeys;
      state, index := WARMUP, 0;
      issued := [];
    }

    method Reset()
      requires Valid()
      modifies this
      ensures Valid() && Value() == ResetIndex(old(Value())) && issued == old(issued)
    {
      index := 0;
    }

    method GetNextRequest() returns (request: Request)
      requires Valid()
      modifies this
      ensures Valid() && issued == old(issued) + [request]
      ensures (Value(), request) == NextRequest(old(Value()), numberOfKeys)
      ensures request.GetRequest? ==> WasSet(old(issued), request.key)
      ensures old(state).GET? ==> request.GetRequest?
      ensures state.GET? <==> WarmedUp(issued, numberOfKeys)
    {
      NextKeepsConsistent(Value(), issued, numberOfKeys);
      if index == numberOfKeys {
        index := 0;
      }
      var key := index;
      if state == WARMUP {
        request := SetRequest(key, index);
        if index == numberOfKeys - 1 {
          state := GET;
        }
      } else {
        request := GetRequest(key);
      }
      index := index + 1;
      issued := issued + [request];
    }
  }
}
