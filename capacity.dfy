/** Capacity and sorted-sequence rules of the Python scheduler
    (schedule.py): the shortfall of a chosen bitstream, the sorted
    sequences a linear or merge sorter leaves behind, the minimum
    requirement of a node and the bitstreams that meet it. */
module CapacityRules {
  import opened Wrappers
  import opened ScheduleTypes

  // ----- find_missing_utility and update_graph_capacities -----

  /** find_missing_utility: the per-parameter shortfall `cost - capacity`,
      and whether the bitstream covers the whole cost (so the node is
      finished). */
  method FindMissingUtility(capacity: seq<int>, cost: seq<int>) returns (r: Result<(bool, seq<int>)>)
    ensures r.Failure? <==> |capacity| != |cost|
    ensures r.Success? ==> (|r.value.1| == |cost| &&
      forall i :: 0 <= i < |cost| ==> r.value.1[i] == cost[i] - capacity[i])
    ensures r.Success? ==> (r.value.0 <==> forall i :: 0 <= i < |cost| ==> capacity[i] >= cost[i])
  {
    if |capacity| != |cost| {
      return Failure("Capacity parameters don't match");
    }
    var removed := true;
    var missing: seq<int> := [];
    var i := 0;
    while i < |capacity|
      invariant 0 <= i <= |capacity|
      invariant |missing| == i && forall k :: 0 <= k < i ==> missing[k] == cost[k] - capacity[k]
      invariant removed <==> forall k :: 0 <= k < i ==> capacity[k] >= cost[k]
    {
      missing := missing + [cost[i] - capacity[i]];
      if capacity[i] < cost[i] {
        removed := false;
      }
      i := i + 1;
    }
    r := Success((removed, missing));
  }

  /** The capacity a node still needs after a bitstream with `capacity` ran. */
  function RemainingCapacity(cost: seq<int>, capacity: seq<int>): (r: seq<int>)
    requires |cost| == |capacity|
    ensures |r| == |cost|
    ensures forall i :: 0 <= i < |cost| ==> r[i] == if cost[i] - capacity[i] <= 0 then 0 else cost[i] - capacity[i]
  {
    seq(|cost|, i requires 0 <= i < |cost| => if cost[i] - capacity[i] <= 0 then 0 else cost[i] - capacity[i])
  }

  /** Nothing remains exactly when every parameter was covered. */
  lemma NothingRemainsIffCovered(cost: seq<int>, capacity: seq<int>)
    requires |cost| == |capacity|
    ensures (forall i :: 0 <= i < |cost| ==> RemainingCapacity(cost, capacity)[i] == 0) <==>
      (forall i :: 0 <= i < |cost| ==> capacity[i] >= cost[i])
    ensures (forall i :: 0 <= i < |cost| ==> capacity[i] >= 0) ==>
      forall i :: 0 <= i < |cost| ==> 0 <= RemainingCapacity(cost, capacity)[i] <= if cost[i] > 0 then cost[i] else 0
  {
    var r := RemainingCapacity(cost, capacity);
    assert forall i :: 0 <= i < |cost| ==> (r[i] == 0 <==> capacity[i] >= cost[i]);
  }

  /** update_graph_capacities: a node that is not finished gets as its new
      capacity the shortfall clamped at 0; a finished node leaves the graph
      copy as it was. */
  method UpdateGraphCapacities(graph: Graph, missing: seq<int>, newGraph: Graph, node: string, removed: bool)
    returns (r: Result<Graph>)
    ensures removed ==> r == Success(newGraph)
    ensures !removed && node !in graph ==> r.Failure?
    ensures !removed && node in graph ==> (r.Success? &&
      node in r.value && r.value == newGraph[node := graph[node].(capacity := r.value[node].capacity)] &&
      |r.value[node].capacity| == |missing| &&
      forall i :: 0 <= i < |missing| ==> r.value[node].capacity[i] == if missing[i] <= 0 then 0 else missing[i])
  {
    if removed {
      return Success(newGraph);
    }
    if node !in graph {
      return Failure("KeyError");
    }
    var values: seq<int> := [];
    var i := 0;
    while i < |missing|
      invariant 0 <= i <= |missing|
      invariant |values| == i && forall k :: 0 <= k < i ==> values[k] == if missing[k] <= 0 then 0 else missing[k]
    {
      if missing[i] <= 0 {
        values := values + [0];
      } else {
        values := values + [missing[i]];
      }
      i := i + 1;
    }
    r := Success(newGraph[node := graph[node].(capacity := values)]);
  }

  // ----- get_linear_sorter_sequences and is_table_sorted -----

  type SortedSequence = (int, int, int)

  /** What get_linear_sorter_sequences returns: as many full runs of
      `capacity` records as fit, then the remainder run. */
  function LinearSorterSequences(capacity: int, recordCount: int): seq<SortedSequence>
    requires capacity != 0
  {
    var count := FloorDiv(recordCount, capacity);
    if count == 0 then [(0, recordCount, 0)]
    else if count < 0 then []
    else FullRuns(capacity, count) + [(capacity * count, FloorMod(recordCount, capacity), 0)]
  }

  function FullRuns(capacity: int, count: nat): (r: seq<SortedSequence>)
    ensures |r| == count && forall i :: 0 <= i < count ==> r[i] == (capacity * i, capacity, 0)
  {
    seq(count, i => (capacity * i, capacity, 0))
  }

  method GetLinearSorterSequences(capacity: int, recordCount: int) returns (r: Result<seq<SortedSequence>>)
    ensures capacity == 0 <==> r.Failure?
    ensures capacity == 0 ==> r == Failure("ZeroDivisionError")
    ensures capacity != 0 ==> r == Success(LinearSorterSequences(capacity, recordCount))
  {
    if capacity == 0 {
      return Failure("ZeroDivisionError");
    }
    var sequences: seq<SortedSequence> := [];
    var count := FloorDiv(recordCount, capacity);
    if count == 0 {
      sequences := sequences + [(0, recordCount, 0)];
    } else if count > 0 {
      var id := 0;
      while id < count
        invariant 0 <= id <= count
        invariant sequences == if id < count then FullRuns(capacity, id)
          else FullRuns(capacity, count) + [(capacity * count, FloorMod(recordCount, capacity), 0)]
      {
        assert FullRuns(capacity, id + 1) == FullRuns(capacity, id) + [(capacity * id, capacity, 0)];
        sequences := sequences + [(capacity * id, capacity, 0)];
        if id == count - 1 {
          sequences := sequences + [(capacity * count, FloorMod(recordCount, capacity), 0)];
        }
        id := id + 1;
      }
    }
    assert sequences == LinearSorterSequences(capacity, recordCount);
    r := Success(sequences);
  }

  function SumLengths(s: seq<SortedSequence>): int {
    if |s| == 0 then 0 else SumLengths(s[..|s| - 1]) + s[|s| - 1].1
  }

  /** Runs that start at 0 and each begin where the previous one ends. */
  predicate Contiguous(s: seq<SortedSequence>) {
    (|s| > 0 ==> s[0].0 == 0) &&
    forall i :: 0 <= i < |s| - 1 ==> s[i + 1].0 == s[i].0 + s[i].1
  }

  lemma {:induction false} FullRunsSum(capacity: int, count: nat)
    ensures SumLengths(FullRuns(capacity, count)) == capacity * count
  {
    if count > 0 {
      FullRunsSum(capacity, count - 1);
      assert FullRuns(capacity, count)[..count - 1] == FullRuns(capacity, count - 1);
    }
  }

  lemma SumAppend(s: seq<SortedSequence>, x: SortedSequence)
    ensures SumLengths(s + [x]) == SumLengths(s) + x.1
  {
    assert (s + [x])[..|s|] == s;
  }

  lemma DivisionFacts(capacity: int, recordCount: int)
    requires capacity > 0 && recordCount >= 0
    ensures FloorDiv(recordCount, capacity) == recordCount / capacity >= 0
    ensures FloorMod(recordCount, capacity) == recordCount % capacity
    ensures recordCount / capacity == 0 <==> recordCount < capacity
    ensures capacity * (recordCount / capacity) + recordCount % capacity == recordCount
  {
  }

  lemma ContiguousFullRuns(capacity: int, count: nat, rest: int)
    ensures Contiguous(FullRuns(capacity, count) + [(capacity * count, rest, 0)])
  {
    var s := FullRuns(capacity, count) + [(capacity * count, rest, 0)];
    forall i | 0 <= i < |s| - 1 ensures s[i + 1].0 == s[i].0 + s[i].1 {
      assert s[i] == (capacity * i, capacity, 0);
      assert capacity * (i + 1) == capacity * i + capacity;
    }
  }

  /** The linear sorter's runs are contiguous from 0, all on column 0, and
      their lengths add up to the record count; there is a single run
      exactly when fewer records than the capacity are sorted, and
      otherwise count full runs followed by a (possibly empty) remainder. */
  lemma LinearSorterSequencesCoverTable(capacity: int, recordCount: int)
    requires capacity > 0 && recordCount >= 0
    ensures var s := LinearSorterSequences(capacity, recordCount);
      Contiguous(s) && SumLengths(s) == recordCount &&
      (forall i :: 0 <= i < |s| ==> s[i].2 == 0) &&
      (|s| == 1 <==> recordCount < capacity) &&
      (recordCount < capacity ==> s == [(0, recordCount, 0)]) &&
      (recordCount >= capacity ==>
        |s| == recordCount / capacity + 1 &&
        (forall i :: 0 <= i < |s| - 1 ==> s[i].1 == capacity) &&
        s[|s| - 1].1 == recordCount % capacity)
  {
    DivisionFacts(capacity, recordCount);
    var count := recordCount / capacity;
    if count > 0 {
      var full := FullRuns(capacity, count);
      var last := (capacity * count, recordCount % capacity, 0);
      assert LinearSorterSequences(capacity, recordCount) == full + [last];
      FullRunsSum(capacity, count);
      SumAppend(full, last);
      ContiguousFullRuns(capacity, count, recordCount % capacity);
    } else {
      assert LinearSorterSequences(capacity, recordCount) == [(0, recordCount, 0)];
    }
  }

  /** is_table_sorted: one run covering every record, on the given column. */
  predicate IsTableSorted(table: TableData, column: int) {
    |table.sortedSequences| == 1 && table.sortedSequences[0].0 == 0 &&
    table.sortedSequences[0].1 == table.recordCount && table.sortedSequences[0].2 == column
  }

  /** A linear sort leaves the table sorted exactly when the whole table
      fits into one run: a table of exactly `capacity` records gets an
      extra empty run and so is not considered sorted. */
  lemma LinearSortSortsIffOneRun(capacity: int, table: TableData)
    requires capacity > 0 && table.recordCount >= 0
    ensures IsTableSorted(table.(sortedSequences := LinearSorterSequences(capacity, table.recordCount)), 0) <==>
      table.recordCount < capacity
  {
    LinearSorterSequencesCoverTable(capacity, table.recordCount);
  }

  // ----- update_node_data_tables (merge sort branch) -----

  /** Sum of the lengths of the first min(n, |s|) runs (none if n <= 0). */
  function SumFirst(s: seq<SortedSequence>, n: int): int
    decreases if n <= 0 then 0 else n
  {
    if n <= 0 || |s| == 0 then 0
    else if n > |s| then SumFirst(s, |s|)
    else SumFirst(s, n - 1) + s[n - 1].1
  }

  /** [s[i] for i in range(from, len(s))] with Python's negative indexing. */
  function PyTail(s: seq<SortedSequence>, from: int): Result<seq<SortedSequence>> {
    if from >= 0 then Success(if from <= |s| then s[from..] else [])
    else if from >= -|s| then Success(s[|s| + from..] + s)
    else Failure("IndexError")
  }

  /** The runs a merge sorter of capacity `c` leaves: the first `c` runs
      (and, if the sorter has spare channels, that many unsorted records)
      merged into one run from 0, followed by the runs it did not reach. */
  function MergedSequences(c: int, s: seq<SortedSequence>, recordCount: int): Result<seq<SortedSequence>> {
    if |s| == 0 then Success([(0, if c < recordCount then c else recordCount, 0)])
    else
      var first := SumFirst(s, if c < |s| then c else |s|);
      var merged := if c > |s| && first < recordCount then
        (if first + c - |s| < recordCount then first + c - |s| else recordCount) else first;
      if merged < recordCount && c < |s| then
        var tail :- PyTail(s, c);
        Success([(0, merged, 0)] + tail)
      else Success([(0, merged, 0)])
  }

  lemma {:induction false} SumFirstGrows(s: seq<SortedSequence>, n: int)
    requires 1 <= n <= |s| && forall i :: 0 <= i < |s| ==> s[i].1 >= 0
    ensures SumFirst(s, n) >= s[0].1
  {
    if n > 1 {
      SumFirstGrows(s, n - 1);
    }
  }

  /** A merge sort with at least two channels makes progress: it leaves
      fewer runs than it found, or it lengthens the single run. */
  lemma MergeMakesProgress(c: int, s: seq<SortedSequence>, recordCount: int)
    requires c >= 2 && |s| >= 1 && forall i :: 0 <= i < |s| ==> s[i].1 >= 0
    ensures MergedSequences(c, s, recordCount).Success?
    ensures var r := MergedSequences(c, s, recordCount).value;
      r[0].0 == 0 && r[0].2 == 0 &&
      (|s| >= 2 ==> |r| < |s|) &&
      (|s| == 1 && s[0].1 < recordCount ==> |r| == 1 && r[0].1 > s[0].1)
  {
    var first := SumFirst(s, if c < |s| then c else |s|);
    SumFirstGrows(s, if c < |s| then c else |s|);
  }

  /** What update_node_data_tables leaves for a sorting node, errors in
      the order the source raises them: whether the node is finished and
      the new data tables. */
  function NodeDataTables(graph: Graph, node: string, capacity: seq<int>, decorators: set<string>,
                          tables: DataTables, newTables: DataTables): Result<(bool, DataTables)>
  {
    if "partial_sort" in decorators then
      if node !in graph then Failure("KeyError")
      else if |graph[node].tables| != 1 then Failure("Wrong number of tables for linear sort!")
      else if |capacity| != 1 then Failure("Wrong linear sort capacity given!")
      else if graph[node].tables[0] !in tables then Failure("KeyError")
      else if capacity[0] == 0 then Failure("ZeroDivisionError")
      else
        var name := graph[node].tables[0];
        var t := tables[name];
        Success((true, newTables[name := t.(sortedSequences := LinearSorterSequences(capacity[0], t.recordCount))]))
    else if "blocking_sort" in decorators then
      if node !in graph then Failure("KeyError")
      else if |graph[node].tables| != 1 then Failure("Wrong number of tables for merge sort!")
      else if |capacity| != 1 then Failure("Wrong merge sort capacity given!")
      else if graph[node].tables[0] !in tables then Failure("KeyError")
      else
        var name := graph[node].tables[0];
        var t := tables[name];
        if IsTableSorted(t, 0) then Failure("Table is sorted already!")
        else
          var s :- MergedSequences(capacity[0], t.sortedSequences, t.recordCount);
          var updated := t.(sortedSequences := s);
          Success((IsTableSorted(updated, 0), newTables[name := updated]))
    else Success((false, newTables))
  }

  /** update_node_data_tables: the sorted sequences a sorting node's table
      has after it ran with the given capacity, and whether the node is
      finished (partial sorts always finish; merge sorts finish once the
      table is sorted; other sorting nodes answer None, i.e. false). */
  method UpdateNodeDataTables(graph: Graph, node: string, capacity: seq<int>, decorators: set<string>,
                              tables: DataTables, newTables: DataTables)
    returns (r: Result<(bool, DataTables)>)
    ensures r == NodeDataTables(graph, node, capacity, decorators, tables, newTables)
    ensures "partial_sort" !in decorators && "blocking_sort" !in decorators ==> r == Success((false, newTables))
    ensures ("partial_sort" in decorators || "blocking_sort" in decorators) && r.Success? ==>
      node in graph && |graph[node].tables| == 1 && |capacity| == 1 && graph[node].tables[0] in tables &&
      var name := graph[node].tables[0];
      var old_ := tables[name];
      (("partial_sort" in decorators ==> (capacity[0] != 0 &&
          r.value == (true, newTables[name := old_.(sortedSequences := LinearSorterSequences(capacity[0], old_.recordCount))]))) &&
       ("partial_sort" !in decorators ==> (!IsTableSorted(old_, 0) &&
          MergedSequences(capacity[0], old_.sortedSequences, old_.recordCount).Success? &&
          var updated := old_.(sortedSequences := MergedSequences(capacity[0], old_.sortedSequences, old_.recordCount).value);
          r.value == (IsTableSorted(updated, 0), newTables[name := updated]))))
    ensures ("partial_sort" in decorators || "blocking_sort" in decorators) &&
      node in graph && |graph[node].tables| == 1 && |capacity| == 1 && graph[node].tables[0] in tables &&
      ("partial_sort" in decorators ==> capacity[0] != 0) &&
      ("partial_sort" !in decorators ==> (!IsTableSorted(tables[graph[node].tables[0]], 0) &&
        var t := tables[graph[node].tables[0]];
        MergedSequences(capacity[0], t.sortedSequences, t.recordCount).Success?))
      ==> r.Success?
  {
    if "partial_sort" in decorators {
      if node !in graph { return Failure("KeyError"); }
      if |graph[node].tables| != 1 { return Failure("Wrong number of tables for linear sort!"); }
      if |capacity| != 1 { return Failure("Wrong linear sort capacity given!"); }
      var name := graph[node].tables[0];
      if name !in tables { return Failure("KeyError"); }
      var current := tables[name];
      var sequences := GetLinearSorterSequences(capacity[0], current.recordCount);
      if sequences.Failure? { return Failure(sequences.error); }
      return Success((true, newTables[name := current.(sortedSequences := sequences.value)]));
    } else if "blocking_sort" in decorators {
      if node !in graph { return Failure("KeyError"); }
      if |graph[node].tables| != 1 { return Failure("Wrong number of tables for merge sort!"); }
      if |capacity| != 1 { return Failure("Wrong merge sort capacity given!"); }
      var name := graph[node].tables[0];
      if name !in tables { return Failure("KeyError"); }
      var current := tables[name];
      if IsTableSorted(current, 0) { return Failure("Table is sorted already!"); }
      var sequences := MergeSortSequences(capacity[0], current.sortedSequences, current.recordCount);
      if sequences.Failure? { return Failure(sequences.error); }
      var updated := current.(sortedSequences := sequences.value);
      return Success((IsTableSorted(updated, 0), newTables[name := updated]));
    }
    r := Success((false, newTables));
  }

  /** Entry `k - c` of the runs from `c` on, Python style, is run `k`
      counted from the back when `k` is negative. */
  lemma PyTailAt(s: seq<SortedSequence>, c: int, k: int)
    requires -|s| <= c <= k < |s| && -|s| <= k
    ensures PyTail(s, c).Success? && 0 <= k - c < |PyTail(s, c).value|
    ensures PyTail(s, c).value[k - c] == if k >= 0 then s[k] else s[|s| + k]
  {
    var t := PyTail(s, c).value;
    if c < 0 {
      assert t == s[|s| + c..] + s;
      if k < 0 { assert t[k - c] == s[|s| + c..][k - c]; }
      else { assert t[k - c] == s[k - c - (-c)]; }
    }
  }

  /** The loops of the merge-sort branch of update_node_data_tables. */
  method MergeSortSequences(c: int, s: seq<SortedSequence>, recordCount: int) returns (r: Result<seq<SortedSequence>>)
    ensures r == MergedSequences(c, s, recordCount)
  {
    if |s| == 0 {
      return Success([(0, if c < recordCount then c else recordCount, 0)]);
    }
    var bound := if c < |s| then c else |s|;
    var length := 0;
    var i := 0;
    while i < bound
      invariant bound <= 0 ==> i == 0
      invariant bound > 0 ==> 0 <= i <= bound
      invariant length == SumFirst(s, i)
    {
      length := length + s[i].1;
      i := i + 1;
    }
    assert length == SumFirst(s, bound);
    if c > |s| && length < recordCount {
      length := length + c - |s|;
      length := if length < recordCount then length else recordCount;
    }
    var result := [(0, length, 0)];
    if length < recordCount && c < |s| {
      var k := c;
      while k < |s|
        invariant c <= k <= |s|
        invariant c >= -|s| ==> (PyTail(s, c).Success? &&
          result == [(0, length, 0)] + PyTail(s, c).value[..k - c])
        invariant c < -|s| ==> k == c
        decreases |s| - k
      {
        if k < 0 && k < -|s| {
          return Failure("IndexError");
        }
        var element := if k >= 0 then s[k] else s[|s| + k];
        PyTailAt(s, c, k);
        assert PyTail(s, c).value[..k + 1 - c] == PyTail(s, c).value[..k - c] + [element];
        result := result + [element];
        k := k + 1;
      }
      assert c >= -|s|;
      assert PyTail(s, c).value[..|s| - c] == PyTail(s, c).value;
    }
    r := Success(result);
  }

  // ----- get_min_requirements -----

  /** get_min_requirements: the capacity a bitstream needs for the node;
      None for a sorting node that is neither a partial nor a merge sort. */
  function GetMinRequirements(node: string, graph: Graph, hw: HwLibrary, tables: DataTables): Result<Option<seq<int>>> {
    if node !in graph then Failure("KeyError")
    else if graph[node].operation !in hw then Failure("KeyError")
    else
      var decorators := hw[graph[node].operation].decorators;
      if "sorting" in decorators then
        var inputs := graph[node].tables;
        if |inputs| != 1 then Failure("Currently sorters only support one input table")
        else if !("partial_sort" in decorators || "blocking_sort" in decorators) then Success(None)
        else if inputs[0] !in tables then Failure("KeyError")
        else
          var t := tables[inputs[0]];
          if "partial_sort" in decorators then Success(Some([t.recordCount]))
          else
            if |t.sortedSequences| == 0 then Success(Some([t.recordCount]))
            else if IsTableSorted(t, 0) then Success(Some([0]))
            else
              var last := t.sortedSequences[|t.sortedSequences| - 1];
              if last.0 + last.1 > t.recordCount then Failure("Incorrect sorted sequences!")
              else Success(Some([|t.sortedSequences| + t.recordCount - (last.0 + last.1)]))
      else Success(Some(graph[node].capacity))
  }

  /** For a merge sort the requirement counts the runs still to merge plus
      the unsorted tail; it raises on a malformed tail or a node without
      exactly one table, and it is 0 exactly when the table is sorted. */
  lemma MergeSortRequirement(node: string, graph: Graph, hw: HwLibrary, tables: DataTables)
    requires node in graph && graph[node].operation in hw
    requires var d := hw[graph[node].operation].decorators; "sorting" in d && "partial_sort" !in d && "blocking_sort" in d
    ensures |graph[node].tables| != 1 ==> GetMinRequirements(node, graph, hw, tables).Failure?
    ensures |graph[node].tables| == 1 && graph[node].tables[0] in tables ==>
      var t := tables[graph[node].tables[0]];
      var r := GetMinRequirements(node, graph, hw, tables);
      (|t.sortedSequences| == 0 ==> r == Success(Some([t.recordCount]))) &&
      (IsTableSorted(t, 0) ==> r == Success(Some([0]))) &&
      (|t.sortedSequences| > 0 && !IsTableSorted(t, 0) ==>
        var last := t.sortedSequences[|t.sortedSequences| - 1];
        (last.0 + last.1 > t.recordCount <==> r.Failure?) &&
        (r.Success? ==> r.value == Some([|t.sortedSequences| + t.recordCount - (last.0 + last.1)]) &&
                        r.value.value[0] > 0)) &&
      (|t.sortedSequences| > 0 ==> (r == Success(Some([0])) <==> IsTableSorted(t, 0)))
  {
  }

  // ----- find_adequate_bitstreams -----

  /** The inner loop of find_adequate_bitstreams from parameter i on: false
      at the first parameter below the requirement, an IndexError if the
      requirement list runs out first. */
  function CapacityCheck(capacity: seq<int>, requirement: seq<int>, i: nat): Result<bool>
    decreases |capacity| - i
  {
    if i >= |capacity| then Success(true)
    else if i >= |requirement| then Failure("IndexError")
    else if capacity[i] < requirement[i] then Success(false)
    else CapacityCheck(capacity, requirement, i + 1)
  }

  predicate Adequate(capacity: seq<int>, requirement: seq<int>) {
    forall i :: 0 <= i < |capacity| && i < |requirement| ==> capacity[i] >= requirement[i]
  }

  lemma {:induction false} CapacityCheckMeaning(capacity: seq<int>, requirement: seq<int>, i: nat)
    requires |capacity| <= |requirement| && i <= |capacity|
    ensures CapacityCheck(capacity, requirement, i) ==
      Success(forall k :: i <= k < |capacity| ==> capacity[k] >= requirement[k])
    decreases |capacity| - i
  {
    if i < |capacity| {
      CapacityCheckMeaning(capacity, requirement, i + 1);
    }
  }

  /** The names collected by find_adequate_bitstreams over the first
      entries of the bitstream dictionary. */
  function AdequateBitstreams(requirement: seq<int>, bitstreams: seq<(string, Bitstream)>): Result<set<string>> {
    if |bitstreams| == 0 then Success({})
    else
      var prefix :- AdequateBitstreams(requirement, bitstreams[..|bitstreams| - 1]);
      var ok :- CapacityCheck(bitstreams[|bitstreams| - 1].1.capacity, requirement, 0);
      Success(if ok then prefix + {bitstreams[|bitstreams| - 1].0} else prefix)
  }

  method FindAdequateBitstreams(requirement: seq<int>, op: string, hw: HwLibrary) returns (r: Result<set<string>>)
    ensures op !in hw ==> r.Failure?
    ensures op in hw ==> r == AdequateBitstreams(requirement, hw[op].bitstreams)
  {
    if op !in hw {
      return Failure("KeyError");
    }
    var bitstreams := hw[op].bitstreams;
    var fitting: set<string> := {};
    var k := 0;
    while k < |bitstreams|
      invariant 0 <= k <= |bitstreams|
      invariant AdequateBitstreams(requirement, bitstreams[..k]) == Success(fitting)
    {
      assert bitstreams[..k + 1][..k] == bitstreams[..k];
      var capacity := bitstreams[k].1.capacity;
      var great := true;
      ghost var check := CapacityCheck(capacity, requirement, 0);
      var i := 0;
      while i < |capacity|
        invariant 0 <= i <= |capacity|
        invariant great ==> check == CapacityCheck(capacity, requirement, i)
        invariant !great ==> check == Success(false)
      {
        if i >= |requirement| {
          AdequateFailureExtends(requirement, bitstreams, k + 1);
          return Failure("IndexError");
        }
        if capacity[i] < requirement[i] {
          great := false;
          break;
        }
        i := i + 1;
      }
      if great {
        fitting := fitting + {bitstreams[k].0};
      }
      k := k + 1;
    }
    assert bitstreams[..k] == bitstreams;
    r := Success(fitting);
  }

  lemma {:induction false} AdequateFailureExtends(requirement: seq<int>, bitstreams: seq<(string, Bitstream)>, k: nat)
    requires k <= |bitstreams| && AdequateBitstreams(requirement, bitstreams[..k]).Failure?
    ensures AdequateBitstreams(requirement, bitstreams) == AdequateBitstreams(requirement, bitstreams[..k])
    decreases |bitstreams| - k
  {
    if k < |bitstreams| {
      assert bitstreams[..k + 1][..k] == bitstreams[..k];
      AdequateFailureExtends(requirement, bitstreams, k + 1);
    } else {
      assert bitstreams[..k] == bitstreams;
    }
  }

  /** When every capacity vector is no longer than the requirement, the
      result is exactly the set of bitstreams meeting it componentwise. */
  lemma {:induction false} AdequateBitstreamsExact(requirement: seq<int>, bitstreams: seq<(string, Bitstream)>)
    requires forall k :: 0 <= k < |bitstreams| ==> |bitstreams[k].1.capacity| <= |requirement|
    ensures AdequateBitstreams(requirement, bitstreams).Success?
    ensures forall name :: name in AdequateBitstreams(requirement, bitstreams).value <==>
      exists k :: 0 <= k < |bitstreams| && bitstreams[k].0 == name && Adequate(bitstreams[k].1.capacity, requirement)
  {
    if |bitstreams| > 0 {
      var b' := bitstreams[..|bitstreams| - 1];
      var last := bitstreams[|bitstreams| - 1];
      assert forall k :: 0 <= k < |b'| ==> b'[k] == bitstreams[k];
      AdequateBitstreamsExact(requirement, b');
      CapacityCheckMeaning(last.1.capacity, requirement, 0);
      forall name ensures name in AdequateBitstreams(requirement, bitstreams).value <==>
        exists k :: 0 <= k < |bitstreams| && bitstreams[k].0 == name && Adequate(bitstreams[k].1.capacity, requirement)
      {
        if name in AdequateBitstreams(requirement, bitstreams).value && name !in AdequateBitstreams(requirement, b').value {
          assert bitstreams[|bitstreams| - 1].0 == name;
        }
        if exists k :: 0 <= k < |bitstreams| && bitstreams[k].0 == name && Adequate(bitstreams[k].1.capacity, requirement) {
          var k :| 0 <= k < |bitstreams| && bitstreams[k].0 == name && Adequate(bitstreams[k].1.capacity, requirement);
          if k < |b'| { assert b'[k] == bitstreams[k]; }
        }
      }
    }
  }

  // ----- get_fitting_bitstream_locations_based_on_list -----

  /** The names of one location that are in the fitting set, in order. */
  function KeepListed(names: seq<string>, fitting: set<string>): seq<string> {
    if |names| == 0 then []
    else KeepListed(names[..|names| - 1], fitting) + (if names[|names| - 1] in fitting then [names[|names| - 1]] else [])
  }

  lemma {:induction false} KeepListedMeaning(names: seq<string>, fitting: set<string>)
    ensures forall x :: x in KeepListed(names, fitting) <==> x in names && x in fitting
    ensures |KeepListed(names, fitting)| <= |names|
    ensures (forall i :: 0 <= i < |names| ==> names[i] in fitting) ==> KeepListed(names, fitting) == names
  {
    if |names| > 0 {
      KeepListedMeaning(names[..|names| - 1], fitting);
      assert names == names[..|names| - 1] + [names[|names| - 1]];
    }
  }

  lemma KeepListedSplit(names: seq<string>, k: nat, fitting: set<string>)
    requires k <= |names|
    ensures KeepListed(names, fitting) == KeepListed(names[..k], fitting) + KeepListed(names[k..], fitting)
    decreases |names|
  {
    if |names| > k {
      var n := |names| - 1;
      KeepListedSplit(names[..n], k, fitting);
      assert names[..n][..k] == names[..k];
      assert names[k..][..|names[k..]| - 1] == names[..n][k..];
    } else {
      assert names[..k] == names;
    }
  }

  /** get_fitting_bitstream_locations_based_on_list: one list per location,
      built by deleting, from the back, every name not in the set. */
  method GetFittingBitstreamLocations(fitting: set<string>, locations: seq<seq<string>>) returns (r: seq<seq<string>>)
    ensures |r| == |locations|
    ensures forall i :: 0 <= i < |locations| ==> r[i] == KeepListed(locations[i], fitting)
  {
    r := [];
    var loc := 0;
    while loc < |locations|
      invariant 0 <= loc <= |locations|
      invariant |r| == loc && forall i :: 0 <= i < loc ==> r[i] == KeepListed(locations[i], fitting)
    {
      var names := locations[loc];
      var current := names;
      var b := |names|;
      while b > 0
        invariant 0 <= b <= |names|
        invariant current == names[..b] + KeepListed(names[b..], fitting)
      {
        b := b - 1;
        assert names[..b + 1] == names[..b] + [names[b]];
        assert KeepListed(names[b..], fitting) == KeepListed([names[b]], fitting) + KeepListed(names[b + 1..], fitting) by {
          KeepListedSplit(names[b..], 1, fitting);
          assert names[b..][..1] == [names[b]];
          assert names[b..][1..] == names[b + 1..];
        }
        assert KeepListed([names[b]], fitting) == if names[b] in fitting then [names[b]] else [] by {
          assert [names[b]][..0] == [];
        }
        if names[b] !in fitting {
          current := current[..b] + current[b + 1..];
        }
      }
      assert names[0..] == names;
      r := r + [current];
      loc := loc + 1;
    }
  }

  /** The location filter keeps every slot and, within a slot, exactly
      the names of the set, in their original order. */
  lemma FittingLocationsMeaning(fitting: set<string>, locations: seq<seq<string>>, r: seq<seq<string>>)
    requires |r| == |locations| && forall i :: 0 <= i < |locations| ==> r[i] == KeepListed(locations[i], fitting)
    ensures forall i, x :: 0 <= i < |locations| ==> (x in r[i] <==> x in locations[i] && x in fitting)
  {
    forall i | 0 <= i < |locations| { KeepListedMeaning(locations[i], fitting); }
  }

  // ----- get_minimum_capacity_values -----

  /** The capacity kept for one operation after scanning its first
      bitstreams: the first one, replaced by every later one that is no
      larger in any parameter (an IndexError if a later vector is longer). */
  function MinimumCapacity(bitstreams: seq<(string, Bitstream)>): Result<Option<seq<int>>> {
    if |bitstreams| == 0 then Success(None)
    else
      var prefix :- MinimumCapacity(bitstreams[..|bitstreams| - 1]);
      var candidate := bitstreams[|bitstreams| - 1].1.capacity;
      if prefix.None? then Success(Some(candidate))
      else if |candidate| > |prefix.value| && forall p :: 0 <= p < |prefix.value| ==> candidate[p] <= prefix.value[p] then Failure("IndexError")
      else if forall p :: 0 <= p < |candidate| && p < |prefix.value| ==> candidate[p] <= prefix.value[p] then Success(Some(candidate))
      else Success(prefix)
  }

  /** The kept capacity is the capacity of one of the operation's bitstreams
      and never larger in any parameter than the first bitstream's. */
  lemma {:induction false} MinimumCapacityIsABitstream(bitstreams: seq<(string, Bitstream)>)
    requires MinimumCapacity(bitstreams).Success?
    ensures MinimumCapacity(bitstreams).value.Some? <==> |bitstreams| > 0
    ensures MinimumCapacity(bitstreams).value.Some? ==>
      var m := MinimumCapacity(bitstreams).value.value;
      (exists k :: 0 <= k < |bitstreams| && bitstreams[k].1.capacity == m) &&
      |m| <= |bitstreams[0].1.capacity| &&
      forall p :: 0 <= p < |m| ==> m[p] <= bitstreams[0].1.capacity[p]
  {
    if |bitstreams| > 1 {
      var b' := bitstreams[..|bitstreams| - 1];
      MinimumCapacityIsABitstream(b');
      assert b'[0] == bitstreams[0];
      var m' := MinimumCapacity(b').value.value;
      var k :| 0 <= k < |b'| && b'[k].1.capacity == m';
      assert bitstreams[k] == b'[k];
    } else if |bitstreams| == 1 {
      assert bitstreams[..0] == [];
    }
  }

  /** get_minimum_capacity_values: a kept capacity for every operation with
      at least one bitstream. */
  method GetMinimumCapacityValues(hw: HwLibrary) returns (r: Result<map<string, seq<int>>>)
    ensures r.Success? ==>
      (forall op :: op in r.value <==> op in hw && |hw[op].bitstreams| > 0) &&
      forall op :: op in r.value ==> MinimumCapacity(hw[op].bitstreams) == Success(Some(r.value[op]))
    ensures r.Failure? ==> exists op :: op in hw && MinimumCapacity(hw[op].bitstreams).Failure?
    ensures (forall op :: op in hw ==> MinimumCapacity(hw[op].bitstreams).Success?) ==> r.Success?
  {
    var result: map<string, seq<int>> := map[];
    var rest := hw.Keys;
    while rest != {}
      invariant rest <= hw.Keys
      invariant forall op :: op in result <==> op in hw && op !in rest && |hw[op].bitstreams| > 0
      invariant forall op :: op in result ==> MinimumCapacity(hw[op].bitstreams) == Success(Some(result[op]))
      invariant forall op :: op in hw && op !in rest ==> MinimumCapacity(hw[op].bitstreams).Success?
      decreases |rest|
    {
      var op :| op in rest;
      var m := MinimumCapacityLoop(hw[op].bitstreams);
      if m.Failure? {
        return Failure(m.error);
      }
      if m.value.Some? {
        result := result[op := m.value.value];
      }
      MinimumCapacityIsABitstream(hw[op].bitstreams);
      rest := rest - {op};
    }
    r := Success(result);
  }

  /** The inner loops of get_minimum_capacity_values for one operation. */
  method MinimumCapacityLoop(bitstreams: seq<(string, Bitstream)>) returns (r: Result<Option<seq<int>>>)
    ensures r == MinimumCapacity(bitstreams)
  {
    var current: Option<seq<int>> := None;
    var k := 0;
    while k < |bitstreams|
      invariant 0 <= k <= |bitstreams|
      invariant MinimumCapacity(bitstreams[..k]) == Success(current)
    {
      assert bitstreams[..k + 1][..k] == bitstreams[..k];
      var candidate := bitstreams[k].1.capacity;
      if current.None? {
        current := Some(candidate);
      } else {
        var smaller := true;
        var p := 0;
        while p < |candidate|
          invariant 0 <= p <= |candidate|
          invariant p <= |current.value|
          invariant smaller <==> forall q :: 0 <= q < p ==> candidate[q] <= current.value[q]
        {
          if p >= |current.value| {
            assert forall q :: 0 <= q < |current.value| ==> candidate[q] <= current.value[q];
            MinimumFailureExtends(bitstreams, k + 1);
            return Failure("IndexError");
          }
          if candidate[p] > current.value[p] {
            smaller := false;
            break;
          }
          p := p + 1;
        }
        if smaller {
          current := Some(candidate);
        }
      }
      k := k + 1;
    }
    assert bitstreams[..k] == bitstreams;
    r := Success(current);
  }

  lemma {:induction false} MinimumFailureExtends(bitstreams: seq<(string, Bitstream)>, k: nat)
    requires k <= |bitstreams| && MinimumCapacity(bitstreams[..k]).Failure?
    ensures MinimumCapacity(bitstreams) == MinimumCapacity(bitstreams[..k])
    decreases |bitstreams| - k
  {
    if k < |bitstreams| {
      assert bitstreams[..k + 1][..k] == bitstreams[..k];
      MinimumFailureExtends(bitstreams, k + 1);
    } else {
      assert bitstreams[..k] == bitstreams;
    }
  }
}
