/** Preprocessing of the Python scheduler (schedule.py): which start
    locations can satisfy each node, worked out along the graph from the
    available nodes, and the check that decides when to redo it. */
module Preprocessing {
  import opened Wrappers
  import opened ScheduleTypes
  import opened CapacityRules
  import opened GraphUpdate
  import opened TableFlow

  /** get_fitting_bitstream_locations_based_on_list as a value: each start
      column keeps, in order, only the bitstreams in `fit`. */
  function FittingLocations(fit: set<string>, locations: seq<seq<string>>): (r: seq<seq<string>>)
    ensures |r| == |locations|
    ensures forall i :: 0 <= i < |r| ==> forall x :: x in r[i] <==> x in locations[i] && x in fit
  {
    KeepListedEach(fit, locations);
    seq(|locations|, i requires 0 <= i < |locations| => KeepListed(locations[i], fit))
  }

  lemma KeepListedEach(fit: set<string>, locations: seq<seq<string>>)
    ensures forall i :: 0 <= i < |locations| ==>
      forall x :: x in KeepListed(locations[i], fit) <==> x in locations[i] && x in fit
  {
    forall i | 0 <= i < |locations| {
      KeepListedMeaning(locations[i], fit);
    }
  }

  /** `sb` is what the preprocessing records for an operation `op` whose
      minimum requirement is `requirement`: the start locations of the
      adequate bitstreams, there being at least one. */
  predicate LocatedBy(requirement: seq<int>, op: string, sb: seq<seq<string>>, hw: HwLibrary) {
    op in hw &&
    var fit := AdequateBitstreams(requirement, hw[op].bitstreams);
    fit.Success? && fit.value != {} && sb == FittingLocations(fit.value, hw[op].startLocations)
  }

  /** A satisfying-bitstreams list the preprocessing may leave on a node:
      the one it had, or the start locations of the bitstreams adequate for
      some requirement of its operation. */
  ghost predicate AllowedLocations(node: GraphNode, sb: seq<seq<string>>, hw: HwLibrary) {
    sb == node.satisfyingBitstreams || exists requirement :: LocatedBy(requirement, node.operation, sb, hw)
  }

  /** Recorded locations list, column by column, only bitstreams that are
      adequate and may start in that column. */
  lemma LocatedListsStarts(requirement: seq<int>, op: string, sb: seq<seq<string>>, hw: HwLibrary)
    requires LocatedBy(requirement, op, sb, hw)
    ensures |sb| == |hw[op].startLocations|
    ensures forall i :: 0 <= i < |sb| ==> forall x :: x in sb[i] ==>
      x in hw[op].startLocations[i] && x in AdequateBitstreams(requirement, hw[op].bitstreams).value
  {
  }

  /** The preprocessing only drops nodes, and in the nodes it keeps it
      changes no operation or capacity and only replaces locations by those
      of adequate bitstreams. */
  ghost predicate Preserves(g: Graph, g': Graph, hw: HwLibrary) {
    g'.Keys <= g.Keys &&
    forall n :: n in g' ==> (g'[n].operation == g[n].operation && g'[n].capacity == g[n].capacity &&
      AllowedLocations(g[n], g'[n].satisfyingBitstreams, hw))
  }

  lemma PreservesTransitive(g: Graph, g1: Graph, g2: Graph, hw: HwLibrary)
    requires Preserves(g, g1, hw)
    requires g2.Keys <= g1.Keys
    requires forall n :: n in g2 ==> (g2[n].operation == g1[n].operation && g2[n].capacity == g1[n].capacity &&
      g2[n].satisfyingBitstreams == g1[n].satisfyingBitstreams)
    ensures Preserves(g, g2, hw)
  {
  }

  /** Recording locations on one node keeps the preprocessing's guarantee. */
  lemma PreservesAttach(g: Graph, g1: Graph, g2: Graph, n: string, hw: HwLibrary)
    requires Preserves(g, g1, hw) && n in g1
    requires g2.Keys == g1.Keys && forall m :: m in g1 && m != n ==> g2[m] == g1[m]
    requires g2[n] == g1[n].(satisfyingBitstreams := g2[n].satisfyingBitstreams)
    requires AllowedLocations(g1[n], g2[n].satisfyingBitstreams, hw)
    ensures Preserves(g, g2, hw)
  {
    assert AllowedLocations(g[n], g2[n].satisfyingBitstreams, hw);
  }

  /** The start locations of the bitstreams of `n`'s operation that meet
      `requirement`, recorded on `n` when there are any. */
  method AttachLocations(graph: Graph, n: string, requirement: seq<int>, hw: HwLibrary) returns (r: Result<Graph>)
    requires n in graph
    ensures graph[n].operation !in hw ==> r.Failure?
    ensures graph[n].operation in hw ==>
      (r.Success? <==> AdequateBitstreams(requirement, hw[graph[n].operation].bitstreams).Success?)
    ensures r.Success? ==> (r.value.Keys == graph.Keys &&
      (forall m :: m in graph && m != n ==> r.value[m] == graph[m]) &&
      r.value[n] == graph[n].(satisfyingBitstreams := r.value[n].satisfyingBitstreams) &&
      AllowedLocations(graph[n], r.value[n].satisfyingBitstreams, hw))
    ensures r.Success? ==>
      (AdequateBitstreams(requirement, hw[graph[n].operation].bitstreams).value == {} ==> r.value == graph) &&
      (AdequateBitstreams(requirement, hw[graph[n].operation].bitstreams).value != {} ==>
        LocatedBy(requirement, graph[n].operation, r.value[n].satisfyingBitstreams, hw))
  {
    var op := graph[n].operation;
    var fitting := FindAdequateBitstreams(requirement, op, hw);
    if fitting.Failure? {
      return Failure(fitting.error);
    }
    if fitting.value == {} {
      return Success(graph);
    }
    var locations := GetFittingBitstreamLocations(fitting.value, hw[op].startLocations);
    assert locations == FittingLocations(fitting.value, hw[op].startLocations);
    assert LocatedBy(requirement, op, locations, hw);
    r := Success(graph[n := graph[n].(satisfyingBitstreams := locations)]);
  }

  /** The tables a node leaves under its cheapest bitstream, as
      get_worst_case_fully_processed_tables names and records them: sorted
      copies for the sorters (with the linear sorter's runs for a partial
      sort, the single run (0, record_count, 0) for a blocking sort), the
      largest input for a node that outputs it, and the inputs themselves
      otherwise. */
  predicate WorstCase(inputs: seq<string>, decorators: set<string>, tables: DataTables, minCapacity: seq<int>,
                      names: seq<string>, tables': DataTables) {
    WorstCaseTables(inputs, decorators, tables, minCapacity) == Success((names, tables')) &&
    tables.Keys <= tables'.Keys &&
    ("partial_sort" in decorators ==>
      |names| == |inputs| &&
      forall k :: 0 <= k < |inputs| ==> (names[k] in tables' &&
        (names[k] == inputs[k] + "_half_sorted" || names[k] == inputs[k] + "_fully_sorted"))) &&
    ("partial_sort" !in decorators && "blocking_sort" in decorators ==>
      |names| == |inputs| &&
      forall k :: 0 <= k < |inputs| ==> (names[k] in tables' && IsTableSorted(tables'[names[k]], 0) &&
        (names[k] == inputs[k] || names[k] == inputs[k] + "_fully_sorted"))) &&
    ("partial_sort" !in decorators && "blocking_sort" !in decorators ==>
      tables' == tables &&
      ("largest_input_is_output" !in decorators ==> names == inputs) &&
      ("largest_input_is_output" in decorators ==>
        AllPresent(inputs, tables) && |names| == 1 && IsLargestInput(names[0], inputs, tables)))
  }

  /** Hands the worst-case tables `handed` of `n` on to its successors:
      every successor's input slot fed by `n` takes the table of its
      stream. */
  method HandOnWorstCase(graph: Graph, n: string, hw: HwLibrary, data: DataTables, minimum: map<string, seq<int>>)
    returns (r: Result<(Graph, DataTables)>, handed: seq<string>)
    requires n in graph
    ensures graph[n].operation !in hw || graph[n].operation !in minimum ==> r == Failure("KeyError")
    ensures r.Success? ==> (r.value.0.Keys == graph.Keys && data.Keys <= r.value.1.Keys &&
      forall m :: m in graph ==> r.value.0[m] == graph[m].(tables := r.value.0[m].tables))
    ensures r.Success? ==> (graph[n].operation in hw &&
      graph[n].operation in minimum &&
      WorstCase(graph[n].tables, hw[graph[n].operation].decorators, data, minimum[graph[n].operation], handed, r.value.1) &&
      PropagateTables(graph, n, graph[n].after, handed) == Success(r.value.0))
  {
    handed := [];
    var op := graph[n].operation;
    if op !in hw || op !in minimum {
      return Failure("KeyError"), handed;
    }
    var worst := GetWorstCaseFullyProcessedTables(graph[n].tables, hw[op].decorators, data, minimum[op]);
    if worst.Failure? {
      return Failure(worst.error), handed;
    }
    handed := worst.value.0;
    var next := AddNewTableToNextNodes(graph, n, handed);
    if next.Failure? {
      return Failure(next.error), handed;
    }
    PropagateTablesShape(graph, n, graph[n].after, handed);
    r := Success((next.value, worst.value.1));
  }

  /** A node that needs nothing leaves the graph, bypassed by the
      removal, and, when it was available, leaves the available set, to
      which the successors it frees are added. */
  method DropSatisfied(graph: Graph, n: string, avail: set<string>, done: set<string>)
    returns (r: Result<(set<string>, Graph)>)
    ensures r.Success? ==> (r.value.1.Keys == graph.Keys - {n} &&
      r.value.0 <= avail + graph.Keys &&
      forall m :: m in r.value.1 ==> (r.value.1[m].operation == graph[m].operation &&
        r.value.1[m].capacity == graph[m].capacity &&
        r.value.1[m].satisfyingBitstreams == graph[m].satisfyingBitstreams))
    ensures r.Success? <==> (Unlinked(graph, n).Success? &&
      (n in avail ==> forall m :: m in graph[n].after && m != "" ==> m in graph))
    ensures r.Success? ==> (r.value.1 == Unlinked(graph, n).value &&
      r.value.0 == if n in avail then (avail - {n}) + NewlyAvailable(n, done + {n}, graph) else avail)
  {
    var freed := avail;
    if n in avail {
      freed := avail - {n};
      var more := GetNewAvailableNodes(n, done + {n}, graph);
      if more.Failure? {
        RemovalKeepsNodeData(graph, n);
        return Failure(more.error);
      }
      freed := freed + more.value;
    }
    var removed := RemoveFromGraph(graph, n);
    if removed.Failure? {
      return Failure(removed.error);
    }
    RemovalKeepsNodeData(graph, n);
    r := Success((freed, removed.value));
  }

  /** add_satisfying_bitstream_locations_to_graph: pops available nodes in
      an unspecified order, records for each the start locations of the
      bitstreams meeting its minimum requirement, hands its worst-case
      tables on, and drops nodes that need nothing (a requirement of [0])
      from the graph and from `available`.  `fuel` bounds the iterations,
      which the source does not bound. */
  method AddSatisfyingBitstreamLocationsToGraph(available: set<string>, g: Graph, hw: HwLibrary, tables: DataTables,
                                                processed: set<string>, fuel: nat)
    returns (r: Result<(set<string>, Graph, DataTables)>)
    ensures r.Success? ==> (Preserves(g, r.value.1, hw) && tables.Keys <= r.value.2.Keys &&
      r.value.0 <= available + g.Keys)
  {
    var minimum := GetMinimumCapacityValues(hw);
    if minimum.Failure? {
      return Failure(minimum.error);
    }
    var current := available;
    var done := processed;
    var avail := available;
    var graph := g;
    var data := tables;
    var steps := fuel;
    while current != {}
      invariant Preserves(g, graph, hw) && tables.Keys <= data.Keys && avail <= available + g.Keys
      decreases steps
    {
      if steps == 0 {
        return Failure("Out of fuel");
      }
      steps := steps - 1;
      var n :| n in current;
      current := current - {n};
      done := done + {n};
      var newly := GetNewAvailableNodes(n, done, graph);
      if newly.Failure? {
        return Failure(newly.error);
      }
      current := current + newly.value;
      var requirement := GetMinRequirements(n, graph, hw, data);
      if requirement.Failure? {
        return Failure(requirement.error);
      }
      if requirement.value.None? {
        return Failure("TypeError");
      }
      var located := AttachLocations(graph, n, requirement.value.value, hw);
      if located.Failure? {
        return Failure(located.error);
      }
      PreservesAttach(g, graph, located.value, n, hw);
      graph := located.value;
      var handed, _ := HandOnWorstCase(graph, n, hw, data, minimum.value);
      if handed.Failure? {
        return Failure(handed.error);
      }
      PreservesTransitive(g, graph, handed.value.0, hw);
      graph := handed.value.0;
      data := handed.value.1;
      if requirement.value.value == [0] {
        var dropped := DropSatisfied(graph, n, avail, done);
        if dropped.Failure? {
          return Failure(dropped.error);
        }
        PreservesTransitive(g, graph, dropped.value.1, hw);
        avail := dropped.value.0;
        graph := dropped.value.1;
      }
    }
    r := Success((avail, graph, data));
  }

  // ----- update_satisfying_bitstreams -----

  /** check_table_equality_of_given_node from table index k on: true at the
      first input whose metadata changed. */
  function TablesDiffer(names: seq<string>, g: Graph, n: string, oldTables: DataTables, newTables: DataTables,
                        k: nat): Result<bool>
    decreases |names| - k
  {
    if k >= |names| then Success(false)
    else if names[k] !in oldTables then Failure("KeyError")
    else if n !in g then Failure("KeyError")
    else if k >= |g[n].tables| then Failure("IndexError")
    else if g[n].tables[k] !in newTables then Failure("KeyError")
    else if oldTables[names[k]] != newTables[g[n].tables[k]] then Success(true)
    else TablesDiffer(names, g, n, oldTables, newTables, k + 1)
  }

  function TableDifference(prev: Graph, g: Graph, n: string, oldTables: DataTables, newTables: DataTables): Result<bool> {
    if n !in prev then Failure("KeyError") else TablesDiffer(prev[n].tables, g, n, oldTables, newTables, 0)
  }

  /** Position by position, the tables of `n` before and after carry the
      same metadata. */
  predicate SameTableData(names: seq<string>, g: Graph, n: string, oldTables: DataTables, newTables: DataTables, k: nat)
  {
    forall j :: k <= j < |names| ==> (names[j] in oldTables && n in g && j < |g[n].tables| &&
      g[n].tables[j] in newTables && oldTables[names[j]] == newTables[g[n].tables[j]])
  }

  /** The comparison reports no change exactly when every table kept its
      metadata, and a change only when some table has different metadata. */
  lemma {:induction false} TablesDifferMeaning(names: seq<string>, g: Graph, n: string, oldTables: DataTables,
                                               newTables: DataTables, k: nat)
    requires k <= |names|
    ensures TablesDiffer(names, g, n, oldTables, newTables, k) == Success(false) <==>
      SameTableData(names, g, n, oldTables, newTables, k)
    ensures TablesDiffer(names, g, n, oldTables, newTables, k) == Success(true) ==>
      exists j :: k <= j < |names| && names[j] in oldTables && n in g && j < |g[n].tables| &&
        g[n].tables[j] in newTables && oldTables[names[j]] != newTables[g[n].tables[j]]
    decreases |names| - k
  {
    if k < |names| {
      TablesDifferMeaning(names, g, n, oldTables, newTables, k + 1);
      var here := names[k] in oldTables && n in g && k < |g[n].tables| && g[n].tables[k] in newTables &&
        oldTables[names[k]] == newTables[g[n].tables[k]];
      if here {
        assert TablesDiffer(names, g, n, oldTables, newTables, k) == TablesDiffer(names, g, n, oldTables, newTables, k + 1);
        assert SameTableData(names, g, n, oldTables, newTables, k) <==> SameTableData(names, g, n, oldTables, newTables, k + 1);
      } else {
        assert TablesDiffer(names, g, n, oldTables, newTables, k) != Success(false);
        assert !SameTableData(names, g, n, oldTables, newTables, k);
      }
    }
  }

  /** The node changed: a different capacity, or a table with different
      metadata. */
  predicate Changed(prev: Graph, g: Graph, n: string, oldTables: DataTables, newTables: DataTables)
    requires n in g
  {
    n in prev && (prev[n].capacity != g[n].capacity || TableDifference(prev, g, n, oldTables, newTables) == Success(true))
  }

  predicate Unchanged(prev: Graph, g: Graph, n: string, oldTables: DataTables, newTables: DataTables)
    requires n in g
  {
    n in prev && prev[n].capacity == g[n].capacity && TableDifference(prev, g, n, oldTables, newTables) == Success(false)
  }

  /** The first loop of update_satisfying_bitstreams, over the nodes of the
      new graph in an unspecified order: it stops at the first changed node
      and raises where a comparison raises. */
  method AnyNodeChanged(prev: Graph, g: Graph, oldTables: DataTables, newTables: DataTables) returns (r: Result<bool>)
    ensures r == Success(true) ==> exists n :: n in g && Changed(prev, g, n, oldTables, newTables)
    ensures r == Success(false) ==> forall n :: n in g ==> Unchanged(prev, g, n, oldTables, newTables)
    ensures r.Failure? ==> exists n :: (n in g && !Changed(prev, g, n, oldTables, newTables) &&
      !Unchanged(prev, g, n, oldTables, newTables))
    ensures (forall n :: n in g ==> Unchanged(prev, g, n, oldTables, newTables) || Changed(prev, g, n, oldTables, newTables)) ==>
      r == Success(exists n :: n in g && Changed(prev, g, n, oldTables, newTables))
  {
    var rest := g.Keys;
    while rest != {}
      invariant rest <= g.Keys
      invariant forall n :: n in g && n !in rest ==> Unchanged(prev, g, n, oldTables, newTables)
      decreases rest
    {
      var n :| n in rest;
      rest := rest - {n};
      if n !in prev {
        return Failure("KeyError");
      }
      if prev[n].capacity != g[n].capacity {
        return Success(true);
      }
      var differ := CheckTableEquality(prev, g, n, oldTables, newTables);
      if differ.Failure? {
        return Failure(differ.error);
      }
      if differ.value {
        return Success(true);
      }
    }
    r := Success(false);
  }

  /** check_table_equality_of_given_node. */
  method CheckTableEquality(prev: Graph, g: Graph, n: string, oldTables: DataTables, newTables: DataTables)
    returns (r: Result<bool>)
    ensures r == TableDifference(prev, g, n, oldTables, newTables)
  {
    if n !in prev {
      return Failure("KeyError");
    }
    var names := prev[n].tables;
    var k := 0;
    while k < |names|
      invariant 0 <= k <= |names|
      invariant TablesDiffer(names, g, n, oldTables, newTables, 0) == TablesDiffer(names, g, n, oldTables, newTables, k)
    {
      if names[k] !in oldTables || n !in g {
        return Failure("KeyError");
      }
      if k >= |g[n].tables| {
        return Failure("IndexError");
      }
      if g[n].tables[k] !in newTables {
        return Failure("KeyError");
      }
      if oldTables[names[k]] != newTables[g[n].tables[k]] {
        return Success(true);
      }
      k := k + 1;
    }
    r := Success(false);
  }

  /** The second loop of update_satisfying_bitstreams over the successors
      of the placed node: a successor that left the graph, or one whose
      tables changed, asks for an update. */
  function SuccessorsChanged(after: seq<string>, prev: Graph, g: Graph, oldTables: DataTables, newTables: DataTables,
                             k: nat): Result<bool>
    decreases |after| - k
  {
    if k >= |after| then Success(false)
    else if after[k] == "" then SuccessorsChanged(after, prev, g, oldTables, newTables, k + 1)
    else if after[k] !in g then Success(true)
    else
      var d :- TableDifference(prev, g, after[k], oldTables, newTables);
      if d then Success(true) else SuccessorsChanged(after, prev, g, oldTables, newTables, k + 1)
  }

  /** No update is asked for exactly when every named successor is still in
      the graph with unchanged tables. */
  lemma {:induction false} SuccessorsChangedMeaning(after: seq<string>, prev: Graph, g: Graph, oldTables: DataTables,
                                                    newTables: DataTables, k: nat)
    requires k <= |after|
    ensures SuccessorsChanged(after, prev, g, oldTables, newTables, k) == Success(false) <==>
      forall j :: k <= j < |after| && after[j] != "" ==>
        (after[j] in g && TableDifference(prev, g, after[j], oldTables, newTables) == Success(false))
    decreases |after| - k
  {
    if k < |after| {
      SuccessorsChangedMeaning(after, prev, g, oldTables, newTables, k + 1);
    }
  }

  /** update_satisfying_bitstreams: reruns the preprocessing on the new
      graph when a capacity or a table changed anywhere or a successor of
      `node` left the graph, and otherwise leaves everything as it is. */
  method UpdateSatisfyingBitstreams(node: string, prev: Graph, g: Graph, available: set<string>, hw: HwLibrary,
                                    oldTables: DataTables, newTables: DataTables, past: set<string>, fuel: nat)
    returns (r: Result<(set<string>, Graph, DataTables)>)
    ensures r.Success? ==> (Preserves(g, r.value.1, hw) && newTables.Keys <= r.value.2.Keys &&
      r.value.0 <= available + g.Keys)
    ensures (r.Success? && (forall n :: n in g ==> Unchanged(prev, g, n, oldTables, newTables)) &&
      node in prev && SuccessorsChanged(prev[node].after, prev, g, oldTables, newTables, 0) == Success(false)) ==>
      r.value == (available, g, newTables)
  {
    var required := AnyNodeChanged(prev, g, oldTables, newTables);
    if required.Failure? {
      return Failure(required.error);
    }
    var update := required.value;
    if !update {
      if node !in prev {
        return Failure("KeyError");
      }
      var after := prev[node].after;
      var k := 0;
      while k < |after|
        invariant 0 <= k <= |after|
        invariant SuccessorsChanged(after, prev, g, oldTables, newTables, 0) ==
          SuccessorsChanged(after, prev, g, oldTables, newTables, k)
      {
        if after[k] != "" {
          if after[k] !in g {
            update := true;
            break;
          }
          var differ := CheckTableEquality(prev, g, after[k], oldTables, newTables);
          if differ.Failure? {
            // every node of the new graph compared equal in the first loop
            assert false;
          }
          if differ.value {
            update := true;
            break;
          }
        }
        k := k + 1;
      }
    }
    if update {
      r := AddSatisfyingBitstreamLocationsToGraph(available, g, hw, newTables, past, fuel);
    } else {
      r := Success((available, g, newTables));
    }
  }
}
