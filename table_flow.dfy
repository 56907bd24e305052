/** How a placed module changes the scheduler's graph and table metadata
    (schedule.py): the tables a finished node hands on, sorting nodes that
    become skippable, and the combined update of update_all_nodes. */
module TableFlow {
  import opened Wrappers
  import opened ScheduleTypes
  import opened CapacityRules
  import opened GraphUpdate

  predicate AllPresent(inputs: seq<string>, tables: DataTables) {
    forall k :: 0 <= k < |inputs| ==> inputs[k] in tables
  }

  /** The table chosen by the largest_input_is_output rule: "" when every
      record count is negative, otherwise the last input of largest record
      count. */
  predicate IsLargestInput(name: string, inputs: seq<string>, tables: DataTables)
    requires AllPresent(inputs, tables)
  {
    if forall k :: 0 <= k < |inputs| ==> tables[inputs[k]].recordCount < 0 then name == ""
    else exists k :: (0 <= k < |inputs| && inputs[k] == name && tables[inputs[k]].recordCount >= 0 &&
      (forall j :: 0 <= j < |inputs| ==> tables[inputs[j]].recordCount <= tables[inputs[k]].recordCount) &&
      (forall j :: k < j < |inputs| ==> tables[inputs[j]].recordCount < tables[inputs[k]].recordCount))
  }

  /** The rule picks a single table. */
  lemma LargestInputIsUnique(a: string, b: string, inputs: seq<string>, tables: DataTables)
    requires AllPresent(inputs, tables) && IsLargestInput(a, inputs, tables) && IsLargestInput(b, inputs, tables)
    ensures a == b
  {
    if !forall k :: 0 <= k < |inputs| ==> tables[inputs[k]].recordCount < 0 {
      var ka :| 0 <= ka < |inputs| && inputs[ka] == a && tables[inputs[ka]].recordCount >= 0 &&
        (forall j :: 0 <= j < |inputs| ==> tables[inputs[j]].recordCount <= tables[inputs[ka]].recordCount) &&
        (forall j :: ka < j < |inputs| ==> tables[inputs[j]].recordCount < tables[inputs[ka]].recordCount);
      var kb :| 0 <= kb < |inputs| && inputs[kb] == b && tables[inputs[kb]].recordCount >= 0 &&
        (forall j :: 0 <= j < |inputs| ==> tables[inputs[j]].recordCount <= tables[inputs[kb]].recordCount) &&
        (forall j :: kb < j < |inputs| ==> tables[inputs[j]].recordCount < tables[inputs[kb]].recordCount);
    }
  }

  /** The largest_input_is_output scan over `inputs`, carrying the name and
      record count of the largest table so far. */
  function LargestFrom(inputs: seq<string>, tables: DataTables, name: string, size: int): Result<string>
    decreases |inputs|
  {
    if |inputs| == 0 then Success(name)
    else if inputs[0] !in tables then Failure("KeyError")
    else if tables[inputs[0]].recordCount >= size then
      LargestFrom(inputs[1..], tables, inputs[0], tables[inputs[0]].recordCount)
    else LargestFrom(inputs[1..], tables, name, size)
  }

  /** The largest_input_is_output loop shared by get_resulting_tables and
      get_worst_case_fully_processed_tables. */
  method LargestInput(inputs: seq<string>, tables: DataTables) returns (r: Result<string>)
    ensures r == LargestFrom(inputs, tables, "", 0)
    ensures r.Success? <==> AllPresent(inputs, tables)
    ensures r.Success? ==> IsLargestInput(r.value, inputs, tables)
  {
    var maxName := "";
    var maxSize := 0;
    ghost var at := -1;
    var i := 0;
    while i < |inputs|
      invariant 0 <= i <= |inputs|
      invariant forall k :: 0 <= k < i ==> inputs[k] in tables
      invariant at == -1 ==> maxName == "" && maxSize == 0 && forall k :: 0 <= k < i ==> tables[inputs[k]].recordCount < 0
      invariant at != -1 ==> (0 <= at < i && inputs[at] == maxName && tables[maxName].recordCount == maxSize && maxSize >= 0 &&
        (forall j :: 0 <= j < i ==> tables[inputs[j]].recordCount <= maxSize) &&
        (forall j :: at < j < i ==> tables[inputs[j]].recordCount < maxSize))
      invariant LargestFrom(inputs[i..], tables, maxName, maxSize) == LargestFrom(inputs, tables, "", 0)
    {
      assert inputs[i..][1..] == inputs[i + 1..];
      if inputs[i] !in tables {
        return Failure("KeyError");
      }
      if tables[inputs[i]].recordCount >= maxSize {
        maxName := inputs[i];
        maxSize := tables[inputs[i]].recordCount;
        at := i;
      }
      i := i + 1;
    }
    r := Success(maxName);
  }

  predicate AllSorted(inputs: seq<string>, tables: DataTables) {
    forall k :: 0 <= k < |inputs| ==> inputs[k] in tables && IsTableSorted(tables[inputs[k]], 0)
  }

  /** What get_resulting_tables returns, errors in the order the source
      raises them. */
  function ResultingTables(inputs: seq<string>, decorators: set<string>, tables: DataTables): Result<seq<string>> {
    if |inputs| == 0 then Failure("No input data found!")
    else if "sorted_input" in decorators && TablesSorted(inputs, tables, 0).Failure? then Failure("KeyError")
    else if "sorted_input" in decorators && !TablesSorted(inputs, tables, 0).value then Failure("Table should be sorted!")
    else if "largest_input_is_output" in decorators then
      var largest :- LargestFrom(inputs, tables, "", 0);
      Success([largest])
    else Success(inputs)
  }

  /** get_resulting_tables: the output tables of a finished node; a
      "sorted_input" node insists on sorted inputs, a join-like node hands on
      its largest input and every other node forwards its inputs. */
  method GetResultingTables(inputs: seq<string>, decorators: set<string>, tables: DataTables) returns (r: Result<seq<string>>)
    ensures r == ResultingTables(inputs, decorators, tables)
    ensures |inputs| == 0 ==> r == Failure("No input data found!")
    ensures r.Success? <==> (|inputs| > 0 && ("sorted_input" in decorators ==> AllSorted(inputs, tables)) &&
      ("largest_input_is_output" in decorators ==> AllPresent(inputs, tables)))
    ensures r.Success? && "largest_input_is_output" !in decorators ==> r.value == inputs
    ensures r.Success? && "largest_input_is_output" in decorators ==>
      AllPresent(inputs, tables) && |r.value| == 1 && IsLargestInput(r.value[0], inputs, tables)
  {
    if |inputs| == 0 {
      return Failure("No input data found!");
    }
    if "sorted_input" in decorators {
      var i := 0;
      while i < |inputs|
        invariant 0 <= i <= |inputs|
        invariant AllSorted(inputs[..i], tables)
        invariant TablesSorted(inputs, tables, 0) == TablesSorted(inputs, tables, i)
      {
        if inputs[i] !in tables {
          return Failure("KeyError");
        }
        if !IsTableSorted(tables[inputs[i]], 0) {
          return Failure("Table should be sorted!");
        }
        i := i + 1;
      }
      assert inputs[..i] == inputs;
    }
    if "largest_input_is_output" in decorators {
      var largest := LargestInput(inputs, tables);
      if largest.Failure? {
        return Failure(largest.error);
      }
      return Success([largest.value]);
    }
    r := Success(inputs);
  }

  // ----- get_worst_case_fully_processed_tables -----

  /** One input of a sorter's loop in get_worst_case_fully_processed_tables:
      the name handed on and data_tables after it.  A partial sort copies
      the input with the linear sorter's runs into "_half_sorted" (several
      runs) or "_fully_sorted" (one run); a blocking sort hands a sorted
      input on as it is and copies an unsorted one into "_fully_sorted" as
      the single run (0, record_count, 0). */
  function CopyStep(input: string, partial: bool, tables: DataTables, capacity: int): (r: Result<(string, DataTables)>)
    ensures r.Success? ==> r.value.0 in r.value.1 && tables.Keys <= r.value.1.Keys
  {
    if input !in tables then Failure("KeyError")
    else if partial then
      if capacity == 0 then Failure("ZeroDivisionError")
      else
        var s := LinearSorterSequences(capacity, tables[input].recordCount);
        var name := input + if |s| != 1 then "_half_sorted" else "_fully_sorted";
        Success((name, tables[name := tables[input].(sortedSequences := s)]))
    else if IsTableSorted(tables[input], 0) then Success((input, tables))
    else
      var name := input + "_fully_sorted";
      Success((name, tables[name := tables[input].(sortedSequences := [(0, tables[input].recordCount, 0)])]))
  }

  /** The whole loop of a sorter, input after input, each reading the
      data_tables the earlier ones left. */
  function SortedCopies(inputs: seq<string>, partial: bool, tables: DataTables, capacity: int)
    : (r: Result<(seq<string>, DataTables)>)
    ensures r.Success? ==> (|r.value.0| == |inputs| && tables.Keys <= r.value.1.Keys &&
      forall k :: 0 <= k < |inputs| ==> r.value.0[k] in r.value.1)
    decreases |inputs|
  {
    if |inputs| == 0 then Success(([], tables))
    else
      var step :- CopyStep(inputs[0], partial, tables, capacity);
      var rest :- SortedCopies(inputs[1..], partial, step.1, capacity);
      Success(([step.0] + rest.0, rest.1))
  }

  /** `done` names handed on before the rest of the loop. */
  function NamesPrefixed(done: seq<string>, rest: Result<(seq<string>, DataTables)>): Result<(seq<string>, DataTables)> {
    match rest
    case Failure(e) => Failure(e)
    case Success((names, last)) => Success((done + names, last))
  }

  /** What get_worst_case_fully_processed_tables returns together with
      data_tables as it leaves it, errors in the order the source raises
      them. */
  function WorstCaseTables(inputs: seq<string>, decorators: set<string>, tables: DataTables, minCapacity: seq<int>)
    : Result<(seq<string>, DataTables)>
  {
    if |inputs| == 0 then Failure("No input data found!")
    else if "partial_sort" in decorators then
      if |minCapacity| != 1 then Failure("Incorrect capacity values given!")
      else SortedCopies(inputs, true, tables, minCapacity[0])
    else if "blocking_sort" in decorators then SortedCopies(inputs, false, tables, 0)
    else if "largest_input_is_output" in decorators then
      var largest :- LargestFrom(inputs, tables, "", 0);
      Success(([largest], tables))
    else Success((inputs, tables))
  }

  /** The name a blocking sort hands on for an input and the data it has. */
  function BlockingCopyName(input: string, t: TableData): string {
    if IsTableSorted(t, 0) then input else input + "_fully_sorted"
  }

  function BlockingCopyData(t: TableData): TableData {
    if IsTableSorted(t, 0) then t else t.(sortedSequences := [(0, t.recordCount, 0)])
  }

  /** The name a partial sort hands on for an input and the data it has. */
  function LinearCopyName(input: string, capacity: int, t: TableData): string
    requires capacity != 0
  {
    input + if |LinearSorterSequences(capacity, t.recordCount)| != 1 then "_half_sorted" else "_fully_sorted"
  }

  function LinearCopyData(capacity: int, t: TableData): TableData
    requires capacity != 0
  {
    t.(sortedSequences := LinearSorterSequences(capacity, t.recordCount))
  }

  /** No input is the copy name of an input, so the sorter loops never
      write a table they still have to read. */
  predicate FreshCopyNames(inputs: seq<string>) {
    forall j, k :: 0 <= j < |inputs| && 0 <= k < |inputs| ==>
      inputs[j] + "_half_sorted" != inputs[k] && inputs[j] + "_fully_sorted" != inputs[k]
  }

  /** Proof helper: a common suffix cancels. */
  lemma SuffixCancel(a: string, b: string, x: string)
    requires a + x == b + x
    ensures a == b
  {
    assert |a| == |b|;
    assert a == (a + x)[..|a|];
    assert b == (b + x)[..|b|];
  }

  /** Proof helper: a "_half_sorted" name is never a "_fully_sorted" name. */
  lemma HalfIsNotFully(a: string, b: string)
    ensures a + "_half_sorted" != b + "_fully_sorted"
  {
    if |a| == |b| + 1 {
      assert (a + "_half_sorted")[|a| + 4] != (b + "_fully_sorted")[|a| + 4];
    }
  }
  lemma LinearCopyNameInjective(a: string, b: string, capacity: int, ta: TableData, tb: TableData)
    requires capacity != 0 && LinearCopyName(a, capacity, ta) == LinearCopyName(b, capacity, tb)
    ensures a == b
  {
    HalfIsNotFully(a, b);
    HalfIsNotFully(b, a);
    var x := if |LinearSorterSequences(capacity, ta.recordCount)| != 1 then "_half_sorted" else "_fully_sorted";
    var y := if |LinearSorterSequences(capacity, tb.recordCount)| != 1 then "_half_sorted" else "_fully_sorted";
    assert x == y;
    SuffixCancel(a, b, x);
  }

  lemma BlockingCopyNameInjective(a: string, b: string, ta: TableData, tb: TableData)
    requires a + "_fully_sorted" != b && b + "_fully_sorted" != a
    requires BlockingCopyName(a, ta) == BlockingCopyName(b, tb)
    ensures a == b
  {
    if !IsTableSorted(ta, 0) && !IsTableSorted(tb, 0) {
      SuffixCancel(a, b, "_fully_sorted");
    }
  }

  /** Proof helper: a sorter step that writes only a copy name of the
      first input leaves the other inputs as they were. */
  lemma FreshTail(inputs: seq<string>, tables: DataTables, next: DataTables, written: string)
    requires |inputs| > 0 && FreshCopyNames(inputs)
    requires written == inputs[0] + "_half_sorted" || written == inputs[0] + "_fully_sorted"
    requires forall t :: t != written ==> (t in next <==> t in tables)
    requires forall t :: t != written && t in tables ==> next[t] == tables[t]
    ensures FreshCopyNames(inputs[1..])
    ensures AllPresent(inputs[1..], next) <==> AllPresent(inputs[1..], tables)
    ensures forall k :: 1 <= k < |inputs| ==> inputs[k] != written && inputs[1..][k - 1] == inputs[k]
  {
    var tail := inputs[1..];
    assert forall k :: 0 <= k < |tail| ==> tail[k] == inputs[k + 1];
  }

  /** When no input is a copy name, a partial sort succeeds exactly when
      every input is a table and (given an input) the capacity is not 0,
      and a blocking sort exactly when every input is a table. */
  lemma {:induction false} SortedCopiesSucceed(inputs: seq<string>, partial: bool, tables: DataTables, capacity: int)
    requires FreshCopyNames(inputs)
    ensures SortedCopies(inputs, partial, tables, capacity).Success? <==>
      AllPresent(inputs, tables) && (partial && |inputs| > 0 ==> capacity != 0)
    decreases |inputs|
  {
    if |inputs| > 0 && inputs[0] in tables && (partial ==> capacity != 0) {
      var step := CopyStep(inputs[0], partial, tables, capacity).value;
      var written := if partial then step.0 else inputs[0] + "_fully_sorted";
      FreshTail(inputs, tables, step.1, written);
      SortedCopiesSucceed(inputs[1..], partial, step.1, capacity);
    }
  }

  /** A blocking sort whose inputs are no copy names hands input k on as
      itself when is_table_sorted accepts it and as its "_fully_sorted"
      copy otherwise. */
  lemma {:induction false} BlockingCopyNamesExact(inputs: seq<string>, tables: DataTables)
    requires FreshCopyNames(inputs)
    ensures var r := SortedCopies(inputs, false, tables, 0);
      r.Success? ==> forall k :: 0 <= k < |inputs| ==>
        inputs[k] in tables && r.value.0[k] == BlockingCopyName(inputs[k], tables[inputs[k]])
    decreases |inputs|
  {
    var r := SortedCopies(inputs, false, tables, 0);
    if |inputs| > 0 && r.Success? {
      var name := BlockingCopyName(inputs[0], tables[inputs[0]]);
      var next := if IsTableSorted(tables[inputs[0]], 0) then tables
                  else tables[name := BlockingCopyData(tables[inputs[0]])];
      assert CopyStep(inputs[0], false, tables, 0) == Success((name, next));
      FreshTail(inputs, tables, next, inputs[0] + "_fully_sorted");
      BlockingCopyNamesExact(inputs[1..], next);
      var rest := SortedCopies(inputs[1..], false, next, 0).value;
      assert r.value.0 == [name] + rest.0;
      forall k | 1 <= k < |inputs|
        ensures r.value.0[k] == BlockingCopyName(inputs[k], tables[inputs[k]])
      {
        assert r.value.0[k] == rest.0[k - 1];
        assert next[inputs[k]] == tables[inputs[k]];
      }
    }
  }

  /** A table no copy overwrites keeps its data. */
  lemma CopiesKeep(inputs: seq<string>, partial: bool, tables: DataTables, capacity: int, t: string)
    requires SortedCopies(inputs, partial, tables, capacity).Success? && t in tables
    requires forall k :: 0 <= k < |inputs| ==> SortedCopies(inputs, partial, tables, capacity).value.0[k] != t
    ensures var r := SortedCopies(inputs, partial, tables, capacity).value; t in r.1 && r.1[t] == tables[t]
  {
    SortedCopiesFrame(inputs, partial, tables, capacity);
  }

  /** Each table a blocking sort hands on, for inputs that are no copy
      names: an input handed on as itself is unchanged, and a copy holds
      the input's record count and the single run (0, record_count, 0). */
  lemma {:induction false} BlockingCopiesExact(inputs: seq<string>, tables: DataTables)
    requires FreshCopyNames(inputs)
    ensures var r := SortedCopies(inputs, false, tables, 0);
      r.Success? ==> forall k :: 0 <= k < |inputs| ==>
        inputs[k] in tables && r.value.1[r.value.0[k]] == BlockingCopyData(tables[inputs[k]])
    decreases |inputs|
  {
    var r := SortedCopies(inputs, false, tables, 0);
    SortedCopiesSucceed(inputs, false, tables, 0);
    if |inputs| > 0 && r.Success? {
      var tail := inputs[1..];
      var name := BlockingCopyName(inputs[0], tables[inputs[0]]);
      var next := if IsTableSorted(tables[inputs[0]], 0) then tables
                  else tables[name := BlockingCopyData(tables[inputs[0]])];
      assert CopyStep(inputs[0], false, tables, 0) == Success((name, next));
      FreshTail(inputs, tables, next, inputs[0] + "_fully_sorted");
      BlockingCopiesExact(tail, next);
      BlockingCopyNamesExact(tail, next);
      var rest := SortedCopies(tail, false, next, 0).value;
      assert r.value == ([name] + rest.0, rest.1);
      assert r.value.1[name] == BlockingCopyData(tables[inputs[0]]) by {
        if j :| 0 <= j < |tail| && rest.0[j] == name {
          BlockingCopyNameInjective(tail[j], inputs[0], next[tail[j]], tables[inputs[0]]);
        } else {
          CopiesKeep(tail, false, next, 0, name);
        }
      }
      forall k | 1 <= k < |inputs|
        ensures r.value.1[r.value.0[k]] == BlockingCopyData(tables[inputs[k]])
      {
        assert r.value.0[k] == rest.0[k - 1];
        assert next[inputs[k]] == tables[inputs[k]];
      }
    }
  }

  /** A partial sort whose inputs are no copy names hands input k on as
      its "_half_sorted" copy when the linear sorter leaves several runs
      and as its "_fully_sorted" copy when it leaves one. */
  lemma {:induction false} PartialCopyNamesExact(inputs: seq<string>, tables: DataTables, capacity: int)
    requires FreshCopyNames(inputs)
    ensures var r := SortedCopies(inputs, true, tables, capacity);
      r.Success? && |inputs| > 0 ==> capacity != 0 && forall k :: 0 <= k < |inputs| ==>
        inputs[k] in tables && r.value.0[k] == LinearCopyName(inputs[k], capacity, tables[inputs[k]])
    decreases |inputs|
  {
    var r := SortedCopies(inputs, true, tables, capacity);
    if |inputs| > 0 && r.Success? {
      var name := LinearCopyName(inputs[0], capacity, tables[inputs[0]]);
      var next := tables[name := LinearCopyData(capacity, tables[inputs[0]])];
      assert CopyStep(inputs[0], true, tables, capacity) == Success((name, next));
      FreshTail(inputs, tables, next, name);
      PartialCopyNamesExact(inputs[1..], next, capacity);
      var rest := SortedCopies(inputs[1..], true, next, capacity).value;
      assert r.value.0 == [name] + rest.0;
      forall k | 1 <= k < |inputs|
        ensures r.value.0[k] == LinearCopyName(inputs[k], capacity, tables[inputs[k]])
      {
        assert r.value.0[k] == rest.0[k - 1];
        assert next[inputs[k]] == tables[inputs[k]];
      }
    }
  }

  /** Each table a partial sort hands on, for inputs that are no copy
      names, holds its input's data with the linear sorter's runs. */
  lemma {:induction false} PartialCopiesExact(inputs: seq<string>, tables: DataTables, capacity: int)
    requires FreshCopyNames(inputs)
    ensures var r := SortedCopies(inputs, true, tables, capacity);
      r.Success? && |inputs| > 0 ==> capacity != 0 && forall k :: 0 <= k < |inputs| ==>
        inputs[k] in tables && r.value.1[r.value.0[k]] == LinearCopyData(capacity, tables[inputs[k]])
    decreases |inputs|
  {
    var r := SortedCopies(inputs, true, tables, capacity);
    SortedCopiesSucceed(inputs, true, tables, capacity);
    if |inputs| > 0 && r.Success? {
      var tail := inputs[1..];
      var name := LinearCopyName(inputs[0], capacity, tables[inputs[0]]);
      var next := tables[name := LinearCopyData(capacity, tables[inputs[0]])];
      assert CopyStep(inputs[0], true, tables, capacity) == Success((name, next));
      FreshTail(inputs, tables, next, name);
      PartialCopiesExact(tail, next, capacity);
      PartialCopyNamesExact(tail, next, capacity);
      SortedCopiesSucceed(tail, true, next, capacity);
      var rest := SortedCopies(tail, true, next, capacity).value;
      assert r.value == ([name] + rest.0, rest.1);
      assert r.value.1[name] == LinearCopyData(capacity, tables[inputs[0]]) by {
        if j :| 0 <= j < |tail| && rest.0[j] == name {
          LinearCopyNameInjective(tail[j], inputs[0], capacity, next[tail[j]], tables[inputs[0]]);
        } else {
          CopiesKeep(tail, true, next, capacity, name);
        }
      }
      forall k | 1 <= k < |inputs|
        ensures r.value.1[r.value.0[k]] == LinearCopyData(capacity, tables[inputs[k]])
      {
        assert r.value.0[k] == rest.0[k - 1];
        assert next[inputs[k]] == tables[inputs[k]];
      }
    }
  }

  /** get_worst_case_fully_processed_tables: the tables a node would leave if
      its cheapest bitstream ran, writing the new table entries into
      data_tables (returned).  A partial sort yields "_half_sorted" or
      "_fully_sorted" copies, a merge sort "_fully_sorted" copies of the
      unsorted inputs. */
  method GetWorstCaseFullyProcessedTables(inputs: seq<string>, decorators: set<string>, tables: DataTables,
                                          minCapacity: seq<int>)
    returns (r: Result<(seq<string>, DataTables)>)
    ensures r == WorstCaseTables(inputs, decorators, tables, minCapacity)
    ensures |inputs| == 0 ==> r == Failure("No input data found!")
    ensures |inputs| > 0 && "partial_sort" in decorators && |minCapacity| != 1 ==>
      r == Failure("Incorrect capacity values given!")
    ensures r.Success? ==> tables.Keys <= r.value.1.Keys
    ensures r.Success? && "partial_sort" in decorators ==>
      |r.value.0| == |inputs| &&
      forall k :: 0 <= k < |inputs| ==> (r.value.0[k] in r.value.1 &&
        (r.value.0[k] == inputs[k] + "_half_sorted" || r.value.0[k] == inputs[k] + "_fully_sorted"))
    ensures r.Success? && "partial_sort" in decorators && |inputs| == 1 ==>
      inputs[0] in tables && minCapacity[0] != 0 &&
      var s := LinearSorterSequences(minCapacity[0], tables[inputs[0]].recordCount);
      var name := inputs[0] + if |s| != 1 then "_half_sorted" else "_fully_sorted";
      r.value == ([name], tables[name := tables[inputs[0]].(sortedSequences := s)])
    ensures r.Success? && "partial_sort" !in decorators && "blocking_sort" in decorators ==>
      |r.value.0| == |inputs| &&
      forall k :: 0 <= k < |inputs| ==> (r.value.0[k] in r.value.1 && IsTableSorted(r.value.1[r.value.0[k]], 0) &&
        (r.value.0[k] == inputs[k] || r.value.0[k] == inputs[k] + "_fully_sorted"))
    ensures r.Success? && "partial_sort" !in decorators && "blocking_sort" !in decorators ==>
      r.value.1 == tables &&
      ("largest_input_is_output" !in decorators ==> r.value.0 == inputs) &&
      ("largest_input_is_output" in decorators ==>
        AllPresent(inputs, tables) && |r.value.0| == 1 && IsLargestInput(r.value.0[0], inputs, tables))
  {
    if |inputs| == 0 {
      return Failure("No input data found!");
    }
    if "partial_sort" in decorators {
      if |minCapacity| != 1 {
        return Failure("Incorrect capacity values given!");
      }
      r := PartialSortCopies(inputs, tables, minCapacity[0]);
      PartialCopyNames(inputs, tables, minCapacity[0]);
      if |inputs| == 1 {
        assert inputs == [inputs[0]];
        SortedCopiesOne(inputs[0], true, tables, minCapacity[0]);
      }
    } else if "blocking_sort" in decorators {
      r := BlockingSortCopies(inputs, tables);
      BlockingCopiesSorted(inputs, tables);
    } else if "largest_input_is_output" in decorators {
      var largest := LargestInput(inputs, tables);
      if largest.Failure? {
        return Failure(largest.error);
      }
      r := Success(([largest.value], tables));
    } else {
      r := Success((inputs, tables));
    }
  }

  /** The partial-sort loop: each input is copied with the linear
      sorter's runs. */
  method PartialSortCopies(inputs: seq<string>, tables: DataTables, capacity: int)
    returns (r: Result<(seq<string>, DataTables)>)
    ensures r == SortedCopies(inputs, true, tables, capacity)
  {
    var names: seq<string> := [];
    var current := tables;
    var i := 0;
    assert inputs[i..] == inputs;
    NamesPrefixedNil(SortedCopies(inputs, true, tables, capacity));
    while i < |inputs|
      invariant 0 <= i <= |inputs|
      invariant NamesPrefixed(names, SortedCopies(inputs[i..], true, current, capacity)) ==
        SortedCopies(inputs, true, tables, capacity)
    {
      assert inputs[i..][1..] == inputs[i + 1..];
      if inputs[i] !in current {
        return Failure("KeyError");
      }
      var data := current[inputs[i]];
      var sequences := GetLinearSorterSequences(capacity, data.recordCount);
      if sequences.Failure? {
        return Failure(sequences.error);
      }
      var name := inputs[i] + if |sequences.value| != 1 then "_half_sorted" else "_fully_sorted";
      var next := current[name := data.(sortedSequences := sequences.value)];
      NamesPrefixedCons(names, name, SortedCopies(inputs[i + 1..], true, next, capacity));
      names := names + [name];
      current := next;
      i := i + 1;
    }
    assert names + [] == names;
    r := Success((names, current));
  }

  /** The blocking-sort loop: a sorted input is handed on, an unsorted one
      copied as one run. */
  method BlockingSortCopies(inputs: seq<string>, tables: DataTables) returns (r: Result<(seq<string>, DataTables)>)
    ensures r == SortedCopies(inputs, false, tables, 0)
  {
    var names: seq<string> := [];
    var current := tables;
    var i := 0;
    assert inputs[i..] == inputs;
    NamesPrefixedNil(SortedCopies(inputs, false, tables, 0));
    while i < |inputs|
      invariant 0 <= i <= |inputs|
      invariant NamesPrefixed(names, SortedCopies(inputs[i..], false, current, 0)) == SortedCopies(inputs, false, tables, 0)
    {
      assert inputs[i..][1..] == inputs[i + 1..];
      if inputs[i] !in current {
        return Failure("KeyError");
      }
      if IsTableSorted(current[inputs[i]], 0) {
        NamesPrefixedCons(names, inputs[i], SortedCopies(inputs[i + 1..], false, current, 0));
        names := names + [inputs[i]];
      } else {
        var name := inputs[i] + "_fully_sorted";
        var data := current[inputs[i]];
        var next := current[name := data.(sortedSequences := [(0, data.recordCount, 0)])];
        NamesPrefixedCons(names, name, SortedCopies(inputs[i + 1..], false, next, 0));
        names := names + [name];
        current := next;
      }
      i := i + 1;
    }
    assert names + [] == names;
    r := Success((names, current));
  }

  /** A sorter with one input hands on the one name its step makes. */
  lemma SortedCopiesOne(input: string, partial: bool, tables: DataTables, capacity: int)
    ensures SortedCopies([input], partial, tables, capacity) ==
      match CopyStep(input, partial, tables, capacity)
      case Failure(e) => Failure(e)
      case Success(step) => Success(([step.0], step.1))
  {
    assert [input][1..] == [];
    var step := CopyStep(input, partial, tables, capacity);
    if step.Success? {
      assert SortedCopies([], partial, step.value.1, capacity) == Success(([], step.value.1));
      assert [step.value.0] + [] == [step.value.0];
    }
  }

  /** The sorter loops write only the names they hand on: one name per
      input, and every other table is kept. */
  lemma {:induction false} SortedCopiesFrame(inputs: seq<string>, partial: bool, tables: DataTables, capacity: int)
    ensures var r := SortedCopies(inputs, partial, tables, capacity);
      r.Success? ==>
        |r.value.0| == |inputs| && tables.Keys <= r.value.1.Keys &&
        (forall k :: 0 <= k < |inputs| ==> r.value.0[k] in r.value.1) &&
        forall t :: t in r.value.1 && t !in r.value.0 ==> t in tables && r.value.1[t] == tables[t]
    decreases |inputs|
  {
    var r := SortedCopies(inputs, partial, tables, capacity);
    if |inputs| > 0 && r.Success? {
      var name := CopyStep(inputs[0], partial, tables, capacity).value.0;
      var next := CopyStep(inputs[0], partial, tables, capacity).value.1;
      var rest := SortedCopies(inputs[1..], partial, next, capacity);
      SortedCopiesFrame(inputs[1..], partial, next, capacity);
      assert r.value == ([name] + rest.value.0, rest.value.1);
      forall k | 1 <= k < |inputs|
        ensures r.value.0[k] == rest.value.0[k - 1]
      {
      }
    }
  }

  /** A partial sort names each copy after its input, with "_half_sorted"
      or "_fully_sorted" appended. */
  lemma {:induction false} PartialCopyNames(inputs: seq<string>, tables: DataTables, capacity: int)
    ensures var r := SortedCopies(inputs, true, tables, capacity);
      r.Success? ==> forall k :: 0 <= k < |inputs| ==>
        r.value.0[k] == inputs[k] + "_half_sorted" || r.value.0[k] == inputs[k] + "_fully_sorted"
    decreases |inputs|
  {
    var r := SortedCopies(inputs, true, tables, capacity);
    if |inputs| > 0 && r.Success? {
      var step := CopyStep(inputs[0], true, tables, capacity).value;
      var rest := SortedCopies(inputs[1..], true, step.1, capacity).value;
      PartialCopyNames(inputs[1..], step.1, capacity);
      assert r.value == ([step.0] + rest.0, rest.1);
      forall k | 1 <= k < |inputs|
        ensures r.value.0[k] == rest.0[k - 1] && inputs[k] == inputs[1..][k - 1]
      {
      }
    }
  }

  /** A blocking sort hands each input on as itself or as its
      "_fully_sorted" copy, and every table it hands on is sorted. */
  lemma {:induction false} BlockingCopiesSorted(inputs: seq<string>, tables: DataTables)
    ensures var r := SortedCopies(inputs, false, tables, 0);
      r.Success? ==> forall k :: 0 <= k < |inputs| ==>
        IsTableSorted(r.value.1[r.value.0[k]], 0) &&
        (r.value.0[k] == inputs[k] || r.value.0[k] == inputs[k] + "_fully_sorted")
    decreases |inputs|
  {
    var r := SortedCopies(inputs, false, tables, 0);
    if |inputs| > 0 && r.Success? {
      var step := CopyStep(inputs[0], false, tables, 0).value;
      var rest := SortedCopies(inputs[1..], false, step.1, 0).value;
      BlockingCopiesSorted(inputs[1..], step.1);
      SortedCopiesFrame(inputs[1..], false, step.1, 0);
      assert r.value == ([step.0] + rest.0, rest.1);
      assert IsTableSorted(r.value.1[step.0], 0) by {
        if step.0 !in rest.0 {
          assert r.value.1[step.0] == step.1[step.0];
        }
      }
      forall k | 1 <= k < |inputs|
        ensures r.value.0[k] == rest.0[k - 1] && inputs[k] == inputs[1..][k - 1]
      {
      }
    }
  }




  lemma NamesPrefixedNil(rest: Result<(seq<string>, DataTables)>)
    ensures NamesPrefixed([], rest) == rest
  {
    if rest.Success? {
      assert [] + rest.value.0 == rest.value.0;
    }
  }

  lemma NamesPrefixedCons(done: seq<string>, name: string, rest: Result<(seq<string>, DataTables)>)
    ensures NamesPrefixed(done, NamesPrefixed([name], rest)) == NamesPrefixed(done + [name], rest)
  {
    if rest.Success? {
      assert done + ([name] + rest.value.0) == done + [name] + rest.value.0;
    }
  }

  // ----- update_next_node_tables -----

  /** Hands the resulting tables of each listed node to its successors and
      deletes it from the graph, in list order. */
  function Retire(g: Graph, nodes: seq<string>, names: seq<string>): Result<Graph> {
    if |nodes| == 0 then Success(g)
    else
      var g1 :- Retire(g, nodes[..|nodes| - 1], names);
      var n := nodes[|nodes| - 1];
      if n !in g1 then Failure("KeyError")
      else
        var g2 :- PropagateTables(g1, n, g1[n].after, names);
        Success(g2 - {n})
  }

  predicate Distinct(nodes: seq<string>) {
    forall i, j :: 0 <= i < j < |nodes| ==> nodes[i] != nodes[j]
  }

  /** A retirement succeeds only for distinct nodes of the graph, and a
      node remains exactly when it was not retired. */
  lemma {:induction false} RetireKeys(g: Graph, nodes: seq<string>, names: seq<string>)
    ensures Retire(g, nodes, names).Success? ==>
      var r := Retire(g, nodes, names).value;
      (forall k :: 0 <= k < |nodes| ==> nodes[k] in g) && Distinct(nodes) &&
      forall x :: x in r <==> x in g && x !in nodes
  {
    if |nodes| > 0 {
      var p := nodes[..|nodes| - 1];
      var n := nodes[|nodes| - 1];
      RetireKeys(g, p, names);
      assert forall k :: 0 <= k < |p| ==> p[k] == nodes[k];
      assert forall x :: x in nodes <==> x in p || x == n;
      if Retire(g, p, names).Success? {
        var g1 := Retire(g, p, names).value;
        if n in g1 {
          PropagateTablesShape(g1, n, g1[n].after, names);
        }
      }
    }
  }

  /** The nodes that remain keep everything but their input table names,
      and their number of inputs. */
  lemma {:induction false} RetireKeepsNodes(g: Graph, nodes: seq<string>, names: seq<string>)
    ensures Retire(g, nodes, names).Success? ==>
      var r := Retire(g, nodes, names).value;
      r.Keys <= g.Keys &&
      forall n :: n in r ==> r[n] == g[n].(tables := r[n].tables) && |r[n].tables| == |g[n].tables|
  {
    if |nodes| > 0 {
      var p := nodes[..|nodes| - 1];
      RetireKeepsNodes(g, p, names);
      if Retire(g, p, names).Success? {
        var g1 := Retire(g, p, names).value;
        var n := nodes[|nodes| - 1];
        if n in g1 {
          PropagateTablesShape(g1, n, g1[n].after, names);
        }
      }
    }
  }

  /** A retirement succeeds only for distinct nodes of the graph; it deletes
      exactly them and changes nothing but input table names elsewhere. */
  lemma RetireRemovesExactly(g: Graph, nodes: seq<string>, names: seq<string>)
    ensures Retire(g, nodes, names).Success? ==>
      var r := Retire(g, nodes, names).value;
      (forall k :: 0 <= k < |nodes| ==> nodes[k] in g) && Distinct(nodes) &&
      r.Keys == g.Keys - (set k | 0 <= k < |nodes| :: nodes[k]) &&
      forall n :: n in r ==> r[n] == g[n].(tables := r[n].tables) && |r[n].tables| == |g[n].tables|
  {
    RetireKeys(g, nodes, names);
    RetireKeepsNodes(g, nodes, names);
    if Retire(g, nodes, names).Success? {
      var r := Retire(g, nodes, names).value;
      assert forall x :: x in (set k | 0 <= k < |nodes| :: nodes[k]) <==> x in nodes;
      assert r.Keys == g.Keys - (set k | 0 <= k < |nodes| :: nodes[k]);
    }
  }

  /** update_next_node_tables: retires the finished node, then each skipped
      sorting node. */
  method UpdateNextNodeTables(g: Graph, node: string, skipped: seq<string>, names: seq<string>) returns (r: Result<Graph>)
    ensures r == Retire(g, [node] + skipped, names)
  {
    var nodes := [node] + skipped;
    var graph := g;
    var k := 0;
    while k < |nodes|
      invariant 0 <= k <= |nodes|
      invariant Retire(g, nodes[..k], names) == Success(graph)
    {
      assert nodes[..k + 1][..k] == nodes[..k];
      var n := nodes[k];
      var next := AddNewTableToNextNodes(graph, n, names);
      if next.Failure? {
        RetireFailureExtends(g, nodes, names, k + 1);
        return Failure(next.error);
      }
      graph := next.value - {n};
      k := k + 1;
    }
    assert nodes[..k] == nodes;
    r := Success(graph);
  }

  lemma {:induction false} RetireFailureExtends(g: Graph, nodes: seq<string>, names: seq<string>, k: nat)
    requires k <= |nodes| && Retire(g, nodes[..k], names).Failure?
    ensures Retire(g, nodes, names) == Retire(g, nodes[..k], names)
    decreases |nodes| - k
  {
    if k < |nodes| {
      assert nodes[..k + 1][..k] == nodes[..k];
      RetireFailureExtends(g, nodes, names, k + 1);
    } else {
      assert nodes[..k] == nodes;
    }
  }

  // ----- check_for_skippable_sort_operations -----

  /** The first loop of check_for_skippable_sort_operations from table k
      on: false at the first unsorted table, KeyError for a missing one
      before it. */
  function TablesSorted(inputs: seq<string>, tables: DataTables, k: nat): Result<bool>
    decreases |inputs| - k
  {
    if k >= |inputs| then Success(true)
    else if inputs[k] !in tables then Failure("KeyError")
    else if !IsTableSorted(tables[inputs[k]], 0) then Success(false)
    else TablesSorted(inputs, tables, k + 1)
  }

  lemma {:induction false} TablesSortedMeaning(inputs: seq<string>, tables: DataTables, k: nat)
    requires k <= |inputs|
    ensures TablesSorted(inputs, tables, k) == Success(true) <==> AllSorted(inputs[k..], tables)
    decreases |inputs| - k
  {
    if k < |inputs| {
      TablesSortedMeaning(inputs, tables, k + 1);
      assert inputs[k..] == [inputs[k]] + inputs[k + 1..];
    }
  }

  /** The named successors whose operation is a sort, in after order. */
  function SortingSuccessors(after: seq<string>, g: Graph, hw: HwLibrary): Result<seq<string>> {
    if |after| == 0 then Success([])
    else
      var prefix :- SortingSuccessors(after[..|after| - 1], g, hw);
      var n := after[|after| - 1];
      if n == "" then Success(prefix)
      else if n !in g || g[n].operation !in hw then Failure("KeyError")
      else Success(prefix + if "sorting" in hw[g[n].operation].decorators then [n] else [])
  }

  /** The skipped nodes are exactly the named sorting successors; the scan
      fails only on a successor or operation missing from the tables. */
  lemma {:induction false} SortingSuccessorsMeaning(after: seq<string>, g: Graph, hw: HwLibrary)
    ensures SortingSuccessors(after, g, hw).Success? <==>
      forall n :: n in after && n != "" ==> n in g && g[n].operation in hw
    ensures SortingSuccessors(after, g, hw).Success? ==>
      forall n :: n in SortingSuccessors(after, g, hw).value <==>
        n in after && n != "" && n in g && g[n].operation in hw && "sorting" in hw[g[n].operation].decorators
  {
    if |after| > 0 {
      SortingSuccessorsMeaning(after[..|after| - 1], g, hw);
      assert after == after[..|after| - 1] + [after[|after| - 1]];
    }
  }

  /** check_for_skippable_sort_operations: once all of the node's tables are
      sorted, the sorting nodes right after it have nothing left to do. */
  method CheckForSkippableSortOperations(g: Graph, tables: DataTables, node: string, hw: HwLibrary)
    returns (r: Result<seq<string>>)
    ensures node !in g ==> r.Failure?
    ensures node in g ==> r == (var sorted :- TablesSorted(g[node].tables, tables, 0);
                                if sorted then SortingSuccessors(g[node].after, g, hw) else Success([]))
  {
    if node !in g {
      return Failure("KeyError");
    }
    var inputs := g[node].tables;
    var allSorted := true;
    ghost var whole := TablesSorted(inputs, tables, 0);
    var i: nat := 0;
    while i < |inputs|
      invariant i <= |inputs|
      invariant allSorted ==> whole == TablesSorted(inputs, tables, i)
      invariant !allSorted ==> whole == Success(false)
    {
      if inputs[i] !in tables {
        return Failure("KeyError");
      }
      if !IsTableSorted(tables[inputs[i]], 0) {
        allSorted := false;
        break;
      }
      i := i + 1;
    }
    var skipped: seq<string> := [];
    if allSorted {
      var after := g[node].after;
      var k := 0;
      while k < |after|
        invariant 0 <= k <= |after|
        invariant SortingSuccessors(after[..k], g, hw) == Success(skipped)
      {
        assert after[..k + 1][..k] == after[..k];
        var n := after[k];
        if n != "" {
          if n !in g || g[n].operation !in hw {
            SkippableFailureExtends(after, g, hw, k + 1);
            return Failure("KeyError");
          }
          skipped := skipped + if "sorting" in hw[g[n].operation].decorators then [n] else [];
        }
        k := k + 1;
      }
      assert after[..k] == after;
    }
    r := Success(skipped);
  }

  lemma {:induction false} SkippableFailureExtends(after: seq<string>, g: Graph, hw: HwLibrary, k: nat)
    requires k <= |after| && SortingSuccessors(after[..k], g, hw).Failure?
    ensures SortingSuccessors(after, g, hw) == SortingSuccessors(after[..k], g, hw)
    decreases |after| - k
  {
    if k < |after| {
      assert after[..k + 1][..k] == after[..k];
      SkippableFailureExtends(after, g, hw, k + 1);
    } else {
      assert after[..k] == after;
    }
  }

  // ----- update_all_nodes -----

  lemma ElementsOfCons(x: string, s: seq<string>)
    ensures (set k | 0 <= k < |[x] + s| :: ([x] + s)[k]) == {x} + (set k | 0 <= k < |s| :: s[k])
  {
    var l := set k | 0 <= k < |[x] + s| :: ([x] + s)[k];
    assert ([x] + s)[0] == x;
    forall k | 0 <= k < |s|
      ensures s[k] in l
    {
      assert ([x] + s)[k + 1] == s[k];
    }
  }

  /** update_all_nodes: the graph and tables after `bitstream` of
      `operation` ran for `node`, whether the node is finished, and the
      sorting nodes skipped with it.  A finished node and its skipped nodes
      leave the graph; an unfinished node keeps the clamped shortfall as its
      capacity. */
  method UpdateAllNodes(g: Graph, bitstream: string, tables: DataTables, hw: HwLibrary, node: string,
                        cost: seq<int>, operation: string)
    returns (r: Result<(Graph, DataTables, bool, seq<string>)>)
    ensures operation !in hw || FindBitstream(hw[operation].bitstreams, bitstream).None? ==> r == Failure("KeyError")
    ensures r.Success? ==> (operation in hw && FindBitstream(hw[operation].bitstreams, bitstream).Some? &&
      node in g && tables.Keys <= r.value.1.Keys)
    ensures r.Success? && "sorting" !in hw[operation].decorators ==> (r.value.1 == tables && r.value.3 == [] &&
      var capacity := FindBitstream(hw[operation].bitstreams, bitstream).value.capacity;
      |capacity| == |cost| &&
      (r.value.2 <==> forall i :: 0 <= i < |cost| ==> capacity[i] >= cost[i]) &&
      (!r.value.2 ==> r.value.0 == g[node := g[node].(capacity := RemainingCapacity(cost, capacity))]))
    ensures r.Success? && "sorting" in hw[operation].decorators ==> (
      TablesSorted(g[node].tables, r.value.1, 0).Success? &&
      (!r.value.2 ==> r.value.0 == g) &&
      (!r.value.2 && "blocking_sort" in hw[operation].decorators ==> r.value.3 == []) &&
      ("partial_sort" in hw[operation].decorators ==> r.value.2) &&
      (TablesSorted(g[node].tables, r.value.1, 0).value ==> SortingSuccessors(g[node].after, g, hw).Success?) &&
      r.value.3 == (if TablesSorted(g[node].tables, r.value.1, 0).value
                    then SortingSuccessors(g[node].after, g, hw).value else []))
    ensures r.Success? && "sorting" in hw[operation].decorators ==>
      NodeDataTables(g, node, FindBitstream(hw[operation].bitstreams, bitstream).value.capacity,
                     hw[operation].decorators, tables, tables) == Success((r.value.2, r.value.1))
    ensures r.Success? && r.value.2 ==>
      ResultingTables(g[node].tables, hw[operation].decorators, r.value.1).Success? &&
      Retire(g, [node] + r.value.3, ResultingTables(g[node].tables, hw[operation].decorators, r.value.1).value) ==
        Success(r.value.0)
    ensures r.Success? && r.value.2 ==> (
      r.value.0.Keys == g.Keys - {node} - (set k | 0 <= k < |r.value.3| :: r.value.3[k]) &&
      forall n :: n in r.value.0 ==> (r.value.0[n] == g[n].(tables := r.value.0[n].tables) &&
        |r.value.0[n].tables| == |g[n].tables|))
  {
    if operation !in hw {
      return Failure("KeyError");
    }
    var found := FindBitstream(hw[operation].bitstreams, bitstream);
    if found.None? {
      return Failure("KeyError");
    }
    var capacity := found.value.capacity;
    var decorators := hw[operation].decorators;
    var graph := g;
    var newTables := tables;
    var skipped: seq<string> := [];
    var removed: bool;
    if "sorting" in decorators {
      var update := UpdateNodeDataTables(g, node, capacity, decorators, tables, tables);
      if update.Failure? {
        return Failure(update.error);
      }
      removed := update.value.0;
      newTables := update.value.1;
      var skip := CheckForSkippableSortOperations(graph, newTables, node, hw);
      if skip.Failure? {
        return Failure(skip.error);
      }
      skipped := skip.value;
    } else {
      var missing := FindMissingUtility(capacity, cost);
      if missing.Failure? {
        return Failure(missing.error);
      }
      removed := missing.value.0;
      var updated := UpdateGraphCapacities(g, missing.value.1, graph, node, removed);
      if updated.Failure? {
        return Failure(updated.error);
      }
      graph := updated.value;
      if !removed {
        assert graph[node].capacity == RemainingCapacity(cost, capacity);
      }
    }
    if removed {
      if node !in g {
        return Failure("KeyError");
      }
      var names := GetResultingTables(g[node].tables, decorators, newTables);
      if names.Failure? {
        return Failure(names.error);
      }
      var next := UpdateNextNodeTables(graph, node, skipped, names.value);
      if next.Failure? {
        return Failure(next.error);
      }
      RetireRemovesExactly(graph, [node] + skipped, names.value);
      ElementsOfCons(node, skipped);
      graph := next.value;
    }
    r := Success((graph, newTables, removed, skipped));
  }
}
