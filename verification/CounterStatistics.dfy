/**
 Counter statistics: CounterStatistic.h with its total and its per-subkey cells, and the
 get-or-create registry of StatisticsManager.cpp.
 */
module CounterStatistics {

  function Get(m: map<string, nat>, name: string): nat {
    if name in m then m[name] else 0
  }

  function Plus(m: map<string, nat>, name: string, n: nat): map<string, nat> {
    m[name := Get(m, name) + n]
  }

  // ---------- Sums over maps ----------

  ghost function SumMap(m: map<string, nat>): nat
    decreases |m|
  {
    if m == map[] then 0
    else
      var name :| name in m;
      MapShrinks(m, name);
      m[name] + SumMap(m - {name})
  }

  lemma MapShrinks(m: map<string, nat>, name: string)
    requires name in m
    ensures |m - {name}| < |m|
  {
    assert (m - {name}).Keys == m.Keys - {name};
    assert |m.Keys - {name}| == |m.Keys| - 1;
    assert |m| == |m.Keys| && |m - {name}| == |(m - {name}).Keys|;
  }

  /** Any key can be split off first. */
  lemma {:induction false} SumMapSplit(m: map<string, nat>, name: string)
    requires name in m
    ensures SumMap(m) == m[name] + SumMap(m - {name})
    decreases |m|
  {
    var first :| first in m && SumMap(m) == m[first] + SumMap(m - {first});
    if first == name {
    } else {
      MapShrinks(m, first);
      MapShrinks(m, name);
      SumMapSplit(m - {first}, name);
      SumMapSplit(m - {name}, first);
      assert m - {first} - {name} == m - {name} - {first};
    }
  }

  lemma SumMapPlus(m: map<string, nat>, name: string, n: nat)
    ensures SumMap(Plus(m, name, n)) == SumMap(m) + n
  {
    var m' := Plus(m, name, n);
    SumMapSplit(m', name);
    assert m' - {name} == m - {name};
    if name in m {
      SumMapSplit(m, name);
    } else {
      assert m - {name} == m;
    }
  }

  // ---------- CounterStatistic ----------

  /** One call of increase. */
  datatype Increase = Increase(amount: nat, subkey: string)

  function Total(calls: seq<Increase>): nat {
    if calls == [] then 0 else Total(calls[..|calls| - 1]) + calls[|calls| - 1].amount
  }

  function TotalOf(calls: seq<Increase>, subkey: string): nat {
    if calls == [] then 0
    else TotalOf(calls[..|calls| - 1], subkey)
         + if calls[|calls| - 1].subkey == subkey then calls[|calls| - 1].amount else 0
  }

  /** The total is the sum of all calls, and each cell the sum of the calls with its subkey. */
  ghost predicate Consistent(calls: seq<Increase>, count: nat, cells: map<string, nat>) {
    && count == Total(calls)
    && Get(cells, "") == 0
    && (forall name :: name != "" ==> Get(cells, name) == TotalOf(calls, name))
    && count == SumMap(cells) + TotalOf(calls, "")
  }

  function CellsAfter(cells: map<string, nat>, n: nat, subkey: string): map<string, nat> {
    if subkey == "" then cells else Plus(cells, subkey, n)
  }

  lemma ConsistentAfter(calls: seq<Increase>, count: nat, cells: map<string, nat>, n: nat, subkey: string)
    requires Consistent(calls, count, cells)
    ensures Consistent(calls + [Increase(n, subkey)], count + n, CellsAfter(cells, n, subkey))
  {
    var calls' := calls + [Increase(n, subkey)];
    assert calls'[..|calls|] == calls;
    SumMapPlus(cells, subkey, n);
  }

  class CounterStatistic {
    var count: nat
    var subkeyCount: map<string, nat>
    ghost var calls: seq<Increase>

    ghost predicate Valid()
      reads this
    {
      Consistent(calls, count, subkeyCount)
    }

    constructor ()
      ensures Valid() && calls == [] && count == 0 && subkeyCount == map[]
    {
      count := 0;
      subkeyCount := map[];
      calls := [];
    }

    method IncreaseBy(n: nat, subkey: string)
      requires Valid()
      modifies this
      ensures Valid() && calls == old(calls) + [Increase(n, subkey)]
      ensures count == old(count) + n && subkeyCount == CellsAfter(old(subkeyCount), n, subkey)
    {
      ConsistentAfter(calls, count, subkeyCount, n, subkey);
      ghost var cells := CellsAfter(subkeyCount, n, subkey);
      count := count + n;
      if subkey != "" {
        var cell := if subkey in subkeyCount then subkeyCount[subkey] else 0;
        subkeyCount := subkeyCount[subkey := cell + n];
      }
      assert subkeyCount == cells;
      calls := calls + [Increase(n, subkey)];
    }

    method GetCount() returns (r: nat)
      requires Valid()
      ensures r == Total(calls)
    {
      r := count;
    }

    /** Asking for a subkey may create its cell, with 0 in it; no value changes. */
    method GetSubkeyCount(subkey: string) returns (r: nat)
      requires Valid()
      modifies this
      ensures Valid() && calls == old(calls) && count == old(count)
      ensures r == if subkey == "" then 0 else TotalOf(calls, subkey)
      ensures forall name :: Get(subkeyCount, name) == Get(old(subkeyCount), name)
    {
      if subkey !in subkeyCount {
        SumMapPlus(subkeyCount, subkey, 0);
        subkeyCount := subkeyCount[subkey := 0];
      }
      r := subkeyCount[subkey];
    }
  }

  // ---------- StatisticsManager ----------

  class StatisticsManager {
    var counters: map<string, CounterStatistic>

    /** Different names have different counters. */
    ghost predicate Valid()
      reads this
    {
      forall a, b :: a in counters && b in counters && a != b ==> counters[a] != counters[b]
    }

    constructor ()
      ensures Valid() && counters == map[]
    {
      counters := map[];
    }

    /** Get or create: one object per name, for ever; all other entries stay. */
    method GetCounterStat(name: string) returns (counter: CounterStatistic)
      requires Valid()
      modifies this
      ensures Valid() && counters == old(counters)[name := counter]
      ensures name in old(counters) ==> counter == old(counters)[name]
      ensures name !in old(counters) ==> fresh(counter) && counter.Valid() && counter.calls == []
    {
      if name in counters {
        counter := counters[name];
        assert counters == counters[name := counter];
      } else {
        counter := new CounterStatistic();
        counters := counters[name := counter];
      }
    }
  }

  // ---------- Publishing a worker's pending exceptions ----------

  /** What was in the cells, plus what is published, is in the cells or still to be published. */
  ghost predicate AllAdded(before: map<string, nat>, pending: map<string, nat>,
                           cells: map<string, nat>, todo: map<string, nat>) {
    forall name :: name != "" ==> Get(cells, name) + Get(todo, name) == Get(before, name) + Get(pending, name)
  }

  lemma PublishOne(before: map<string, nat>, pending: map<string, nat>,
                   cells: map<string, nat>, todo: map<string, nat>, name: string)
    requires name in todo && AllAdded(before, pending, cells, todo)
    ensures AllAdded(before, pending, CellsAfter(cells, todo[name], name), todo - {name})
    ensures SumMap(todo) == todo[name] + SumMap(todo - {name})
    ensures |todo - {name}| < |todo|
  {
    SumMapSplit(todo, name);
    MapShrinks(todo, name);
  }

  /**
   The loop at the end of sendRequest: every pending amount is added to the counter under
   its name, each name once, in any order.
   */
  method Publish(pending: map<string, nat>, counter: CounterStatistic)
    requires counter.Valid()
    modifies counter
    ensures counter.Valid()
    ensures counter.count == old(counter.count) + SumMap(pending)
    ensures AllAdded(old(counter.subkeyCount), pending, counter.subkeyCount, map[])
  {
    var todo := pending;
    while todo != map[]
      invariant counter.Valid()
      invariant counter.count + SumMap(todo) == old(counter.count) + SumMap(pending)
      invariant AllAdded(old(counter.subkeyCount), pending, counter.subkeyCount, todo)
      decreases |todo|
    {
      var name :| name in todo;
      PublishOne(old(counter.subkeyCount), pending, counter.subkeyCount, todo, name);
      counter.IncreaseBy(todo[name], name);
      todo := todo - {name};
    }
  }
}
