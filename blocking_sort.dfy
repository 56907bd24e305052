/** The merge-sort (blocking sort) module setup: the worst-case projection
    of a sorted output table and the incremental update of the
    `{start, count, length, stride}` sorted-run status, one merge pass at a
    time. */
module BlockingSort {
  import opened Wrappers
  import opened CoreTypes
  import opened SchedulingHelper

  const UNSUPPORTED_COUNTS := "Unsupporded table counts at preprocessing!"
  const WRONG_TABLE_COUNT := "Wrong number of tables!"
  const WRONG_CAPACITY := "Wrong merge sort capacity given!"
  const SORTED_ALREADY := "Table is sorted already!"

  /** GetWorstCaseProcessedTables: the output table as it is after a full
      sort of the input: the output's entry with the input's record count
      and one sorted run spanning every record. */
  function GetWorstCaseProcessedTables(minCapacity: seq<int>, inputs: seq<string>, tables: Tables,
                                       outputs: seq<string>): (r: Result<Tables>)
    ensures (|inputs| != 1 || |outputs| != 1) ==> r == Failure(UNSUPPORTED_COUNTS)
    ensures |inputs| == 1 && |outputs| == 1 ==>
      (r.Success? <==> outputs[0] in tables && inputs[0] in tables)
    ensures r.Failure? && |inputs| == 1 && |outputs| == 1 ==> r.error == "out_of_range"
    ensures r.Success? ==>
      var n := tables[inputs[0]].recordCount;
      r.value.Keys == {outputs[0]} &&
      r.value[outputs[0]] == tables[outputs[0]].(recordCount := n, sortedStatus := [0, n - 1, n, 1])
  {
    if |inputs| != 1 || |outputs| != 1 then Failure(UNSUPPORTED_COUNTS)
    else if outputs[0] !in tables || inputs[0] !in tables then Failure("out_of_range")
    else
      var n := tables[inputs[0]].recordCount;
      Success(map[outputs[0] := tables[outputs[0]].(recordCount := n, sortedStatus := [0, n - 1, n, 1])])
  }

  /** The worst-case projection is a table IsTableSorted accepts. */
  lemma WorstCaseIsSorted(minCapacity: seq<int>, inputs: seq<string>, tables: Tables, outputs: seq<string>)
    requires GetWorstCaseProcessedTables(minCapacity, inputs, tables, outputs).Success?
    ensures IsTableSorted(GetWorstCaseProcessedTables(minCapacity, inputs, tables, outputs).value[outputs[0]])
  {
  }

  /** UpdateDataTable: one merge pass of a module with `capacity` inputs
      over the table's sorted runs.  When the remaining run count fits the
      module the status becomes `{record_count}` and the answer is true;
      otherwise `capacity - 1` runs are consumed and the answer is false. */
  function UpdateDataTable(capacity: seq<int>, inputs: seq<string>, tables: Tables): (r: Result<(Tables, bool)>)
    ensures |inputs| != 1 ==> r == Failure(WRONG_TABLE_COUNT)
    ensures |inputs| == 1 && |capacity| != 1 ==> r == Failure(WRONG_CAPACITY)
    ensures |inputs| == 1 && |capacity| == 1 && inputs[0] in tables && IsTableSorted(tables[inputs[0]]) ==>
      r == Failure(SORTED_ALREADY)
    ensures r.Success? ==> |inputs| == 1 && |capacity| == 1 && inputs[0] in tables
    ensures r.Success? ==> !IsTableSorted(tables[inputs[0]]) && |tables[inputs[0]].sortedStatus| >= 2
    ensures r.Success? ==> r.value.0.Keys == tables.Keys
    ensures r.Success? ==> forall n :: n in tables && n != inputs[0] ==> r.value.0[n] == tables[n]
    ensures r.Success? ==>
      var t := tables[inputs[0]];
      var c := capacity[0];
      var u := r.value.0[inputs[0]];
      u.recordSize == t.recordSize && u.recordCount == t.recordCount &&
      (r.value.1 <==> c >= t.sortedStatus[1] + 1) &&
      (r.value.1 ==> u.sortedStatus == [t.recordCount]) &&
      (!r.value.1 ==>
        |t.sortedStatus| >= 3 && |u.sortedStatus| == |t.sortedStatus| &&
        u.sortedStatus[0] == t.sortedStatus[0] + (c - 1) * t.sortedStatus[2] &&
        u.sortedStatus[1] == t.sortedStatus[1] - (c - 1) &&
        u.sortedStatus[2..] == t.sortedStatus[2..])
  {
    if |inputs| != 1 then Failure(WRONG_TABLE_COUNT)
    else if |capacity| != 1 then Failure(WRONG_CAPACITY)
    else if inputs[0] !in tables then Failure("out_of_range")
    else
      var t := tables[inputs[0]];
      if IsTableSorted(t) then Failure(SORTED_ALREADY)
      else
        var s := t.sortedStatus;
        var c := capacity[0];
        var count :- At(s, 1);
        if c >= count + 1 then
          Success((tables[inputs[0] := t.(sortedStatus := [t.recordCount])], true))
        else
          var start :- At(s, 0);
          var length :- At(s, 2);
          var s' := s[0 := start + (c - 1) * length][1 := s[1] - (c - 1)];
          Success((tables[inputs[0] := t.(sortedStatus := s')], false))
  }

  /** A pass that does not finish leaves a table the next pass accepts,
      with strictly fewer runs when the module merges at least two. */
  lemma UnfinishedPassShrinksRuns(capacity: seq<int>, inputs: seq<string>, tables: Tables)
    requires UpdateDataTable(capacity, inputs, tables).Success? && !UpdateDataTable(capacity, inputs, tables).value.1
    requires capacity[0] >= 2
    ensures var next := UpdateDataTable(capacity, inputs, tables).value.0;
      UpdateDataTable(capacity, inputs, next).Success? &&
      next[inputs[0]].sortedStatus[1] < tables[inputs[0]].sortedStatus[1]
  {
    var t := tables[inputs[0]];
    var u := UpdateDataTable(capacity, inputs, tables).value.0[inputs[0]];
    assert u.sortedStatus[2] == t.sortedStatus[2] by {
      assert u.sortedStatus[2..][0] == t.sortedStatus[2..][0];
    }
    assert |u.sortedStatus| == 4 ==> u.sortedStatus[2] == t.sortedStatus[2];
  }

  /** The merge passes a sort of the table takes with a fixed capacity of
      at least two: UpdateDataTable is called until it answers true.  That
      the recursion is well founded is the statement that the passes end. */
  function MergePasses(capacity: seq<int>, inputs: seq<string>, tables: Tables): (r: Result<(Tables, nat)>)
    requires |capacity| == 1 && capacity[0] >= 2
    requires UpdateDataTable(capacity, inputs, tables).Success?
    ensures r.Success?
    ensures r.value.1 >= 1
    ensures r.value.0.Keys == tables.Keys
    ensures forall n :: n in tables && n != inputs[0] ==> r.value.0[n] == tables[n]
    ensures r.value.0[inputs[0]] == tables[inputs[0]].(sortedStatus := [tables[inputs[0]].recordCount])
    decreases tables[inputs[0]].sortedStatus[1]
  {
    var (next, done) := UpdateDataTable(capacity, inputs, tables).value;
    if done then Success((next, 1))
    else
      UnfinishedPassShrinksRuns(capacity, inputs, tables);
      var (last, passes) := MergePasses(capacity, inputs, next).value;
      Success((last, passes + 1))
  }

  /** A finished sort leaves the status `{record_count}`, which
      IsTableSorted does not recognise for a non-empty table, so a further
      pass fails on the missing run count instead of reporting that the
      table is sorted already. */
  lemma FinishedSortIsNotRecognised(capacity: seq<int>, inputs: seq<string>, tables: Tables)
    requires UpdateDataTable(capacity, inputs, tables).Success? && UpdateDataTable(capacity, inputs, tables).value.1
    requires tables[inputs[0]].recordCount != 0
    ensures var next := UpdateDataTable(capacity, inputs, tables).value.0;
      !IsTableSorted(next[inputs[0]]) && UpdateDataTable(capacity, inputs, next) == Failure("out_of_range")
  {
  }

  /** SortDataTableWhileMinimizingMinorRuns: appends a 0 and then the runs
      the module does not take, those from index `capacity` on. */
  method SortDataTableWhileMinimizingMinorRuns(oldSequences: seq<int>, newSequences: seq<int>, recordCount: int,
                                               capacity: int)
    returns (r: seq<int>)
    ensures |r| == |newSequences| + 1 + (if 0 <= capacity < |oldSequences| then |oldSequences| - capacity else 0)
    ensures r[..|newSequences|] == newSequences && r[|newSequences|] == 0
    ensures forall k :: |newSequences| < k < |r| ==> r[k] == oldSequences[capacity + k - |newSequences| - 1]
  {
    r := newSequences + [0];
    // The comparison is between an int and a size: a negative capacity
    // compares as a very large unsigned value.
    if 0 <= capacity && capacity < |oldSequences| {
      r := r + oldSequences[capacity..];
    }
  }
}
