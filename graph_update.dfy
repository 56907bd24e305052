/** Graph bookkeeping of the Python scheduler (schedule.py): which nodes
    become available, how table names flow to successors, how a finished
    1-in/1-out node is bypassed, and the tables a node leaves behind.
    Python dictionaries that the source edits in place are passed in and
    the edited dictionary is returned; a raised exception is a Failure. */
module GraphUpdate {
  import opened Wrappers
  import opened ScheduleTypes
  import opened CapacityRules

  // ----- get_new_available_nodes -----

  /** Every streamed input (stream index other than -1) of `n` comes from a
      node already processed. */
  predicate InputsDone(g: Graph, n: string, past: set<string>)
    requires n in g
  {
    forall k :: 0 <= k < |g[n].before| && g[n].before[k].1 != -1 ==> g[n].before[k].0 in past
  }

  /** The successors of `node` that become available once it is processed. */
  function NewlyAvailable(node: string, past: set<string>, g: Graph): set<string>
    requires node in g
  {
    set n | n in g[node].after && n != "" && n in g && InputsDone(g, n, past)
  }

  /** get_new_available_nodes; a successor missing from the graph raises
      KeyError. */
  method GetNewAvailableNodes(node: string, past: set<string>, g: Graph) returns (r: Result<set<string>>)
    ensures node !in g ==> r.Failure?
    ensures node in g ==> (r.Failure? <==> exists n :: n in g[node].after && n != "" && n !in g)
    ensures r.Success? ==> node in g && r.value == NewlyAvailable(node, past, g)
  {
    if node !in g {
      return Failure("KeyError");
    }
    var potential := set n | n in g[node].after;
    var available := potential;
    var rest := potential;
    while rest != {}
      invariant rest <= potential
      invariant forall n :: n in potential && n !in rest ==> n == "" || n in g
      invariant forall n :: n in available <==> n in potential && (n in rest || n == "" || (n in g && InputsDone(g, n, past)))
      decreases |rest|
    {
      var n :| n in rest;
      if n != "" {
        if n !in g {
          return Failure("KeyError");
        }
        var k := 0;
        while k < |g[n].before|
          invariant 0 <= k <= |g[n].before|
          invariant forall m :: m != n ==> (m in available <==> m in potential && (m in rest || m == "" || (m in g && InputsDone(g, m, past))))
          invariant n in available <==> forall j :: 0 <= j < k && g[n].before[j].1 != -1 ==> g[n].before[j].0 in past
        {
          if g[n].before[k].1 != -1 && g[n].before[k].0 !in past {
            available := available - {n};
          }
          k := k + 1;
        }
      }
      rest := rest - {n};
    }
    r := Success(set n | n in available && n != "");
  }

  /** A node becomes available only as a named successor whose streamed
      inputs are all processed, and processing more nodes never makes a
      successor unavailable. */
  lemma NewlyAvailableMeaning(node: string, past: set<string>, past': set<string>, g: Graph)
    requires node in g && past <= past'
    ensures forall n :: n in NewlyAvailable(node, past, g) ==>
      n != "" && n in g[node].after && n in g &&
      forall k :: 0 <= k < |g[n].before| && g[n].before[k].1 != -1 ==> g[n].before[k].0 in past
    ensures NewlyAvailable(node, past, g) <= NewlyAvailable(node, past', g)
  {
  }

  // ----- get_current_node_index -----

  /** The (position, stream index) pairs of a before list that name `name`,
      in ascending position. */
  function NodeIndexes(before: seq<(string, int)>, name: string): (r: seq<(int, int)>)
    ensures forall j :: 0 <= j < |r| ==> 0 <= r[j].0 < |before| && before[r[j].0].0 == name && r[j].1 == before[r[j].0].1
  {
    if |before| == 0 then []
    else
      NodeIndexes(before[..|before| - 1], name) +
        (if before[|before| - 1].0 == name then [(|before| - 1, before[|before| - 1].1)] else [])
  }

  /** Each entry naming `name` is listed. */
  lemma {:induction false} NodeIndexesComplete(before: seq<(string, int)>, name: string)
    ensures forall k :: 0 <= k < |before| && before[k].0 == name ==> (k, before[k].1) in NodeIndexes(before, name)
    ensures NodeIndexes(before, name) == [] <==> forall k :: 0 <= k < |before| ==> before[k].0 != name
  {
    if |before| > 0 {
      var b' := before[..|before| - 1];
      NodeIndexesComplete(b', name);
      forall k | 0 <= k < |b'| && before[k].0 == name ensures (k, before[k].1) in NodeIndexes(before, name) {
        assert b'[k] == before[k];
      }
    }
    if NodeIndexes(before, name) != [] {
      assert NodeIndexes(before, name)[0] in NodeIndexes(before, name);
    }
  }

  /** The entries are listed in ascending position, so each at most once. */
  lemma {:induction false} NodeIndexesAscending(before: seq<(string, int)>, name: string)
    ensures forall i, j :: 0 <= i < j < |NodeIndexes(before, name)| ==>
      NodeIndexes(before, name)[i].0 < NodeIndexes(before, name)[j].0
  {
    if |before| > 0 {
      var b' := before[..|before| - 1];
      NodeIndexesAscending(b', name);
      var r' := NodeIndexes(b', name);
      assert forall i :: 0 <= i < |r'| ==> NodeIndexes(before, name)[i] == r'[i];
    }
  }

  /** get_current_node_index: raises KeyError for an unknown successor and
      ValueError when its before list does not name the node. */
  method GetCurrentNodeIndex(g: Graph, next: string, name: string) returns (r: Result<seq<(int, int)>>)
    ensures next !in g ==> r == Failure("KeyError")
    ensures next in g ==> (r.Failure? <==> NodeIndexes(g[next].before, name) == [])
    ensures next in g && r.Failure? ==> r == Failure("No next nodes found with the expected dependencies!")
    ensures r.Success? ==> next in g && r.value == NodeIndexes(g[next].before, name)
  {
    if next !in g {
      return Failure("KeyError");
    }
    var before := g[next].before;
    var indexes: seq<(int, int)> := [];
    var i := 0;
    while i < |before|
      invariant 0 <= i <= |before|
      invariant indexes == NodeIndexes(before[..i], name)
    {
      assert before[..i + 1][..i] == before[..i];
      if before[i].0 == name {
        indexes := indexes + [(i, before[i].1)];
      }
      i := i + 1;
    }
    assert before[..i] == before;
    if |indexes| == 0 {
      return Failure("No next nodes found with the expected dependencies!");
    }
    r := Success(indexes);
  }

  // ----- add_new_table_to_next_nodes_in_place -----

  /** Writes `names[stream]` into each listed input slot, in list order. */
  function AssignTables(tables: seq<string>, indexes: seq<(int, int)>, names: seq<string>): Result<seq<string>> {
    if |indexes| == 0 then Success(tables)
    else
      var t :- AssignTables(tables, indexes[..|indexes| - 1], names);
      var x :- PyAt(names, indexes[|indexes| - 1].1);
      PySet(t, indexes[|indexes| - 1].0, x)
  }

  /** Every input slot among the first k before entries naming `name`
      exists, and its stream index selects one of the names. */
  predicate SlotsWritable(tables: seq<string>, before: seq<(string, int)>, name: string, names: seq<string>, k: nat)
    requires k <= |before|
  {
    forall i :: 0 <= i < k && before[i].0 == name ==> i < |tables| && -|names| <= before[i].1 < |names|
  }

  /** Relinking those slots succeeds exactly when they are writable; each
      then holds the name of its stream and every other slot is untouched. */
  lemma {:induction false} AssignTablesMeaning(tables: seq<string>, before: seq<(string, int)>, name: string,
                                               names: seq<string>, k: nat)
    requires k <= |before|
    ensures AssignTables(tables, NodeIndexes(before[..k], name), names).Success? <==>
      SlotsWritable(tables, before, name, names, k)
    ensures AssignTables(tables, NodeIndexes(before[..k], name), names).Success? ==>
      Relinked(tables, before, name, names, k, AssignTables(tables, NodeIndexes(before[..k], name), names).value)
  {
    if k > 0 {
      AssignTablesMeaning(tables, before, name, names, k - 1);
      RelinkStep(before, name, k);
      WritableStep(tables, before, name, names, k);
      if before[k - 1].0 == name {
        AssignTablesSnoc(tables, NodeIndexes(before[..k - 1], name), (k - 1, before[k - 1].1), names);
        RelinkedSlot(tables, before, name, names, k);
      } else {
        RelinkedOther(tables, before, name, names, k);
      }
    }
  }

  /** What relinking the slots among the first `k` entries does. */
  predicate AssignMeaning(tables: seq<string>, before: seq<(string, int)>, name: string, names: seq<string>, k: nat)
    requires k <= |before|
  {
    (AssignTables(tables, NodeIndexes(before[..k], name), names).Success? <==>
      SlotsWritable(tables, before, name, names, k)) &&
    (AssignTables(tables, NodeIndexes(before[..k], name), names).Success? ==>
      Relinked(tables, before, name, names, k, AssignTables(tables, NodeIndexes(before[..k], name), names).value))
  }

  /** An entry that does not name the node leaves the relinking as it was. */
  lemma RelinkedOther(tables: seq<string>, before: seq<(string, int)>, name: string, names: seq<string>, k: nat)
    requires 0 < k <= |before| && before[k - 1].0 != name
    requires AssignMeaning(tables, before, name, names, k - 1)
    requires NodeIndexes(before[..k], name) == NodeIndexes(before[..k - 1], name) + []
    requires SlotsWritable(tables, before, name, names, k) <==> SlotsWritable(tables, before, name, names, k - 1)
    ensures AssignMeaning(tables, before, name, names, k)
  {
    assert NodeIndexes(before[..k - 1], name) + [] == NodeIndexes(before[..k - 1], name);
  }

  /** The slots are writable, each relinked one holds the name of its
      stream and every other slot is as in `tables`. */
  predicate Relinked(tables: seq<string>, before: seq<(string, int)>, name: string, names: seq<string>, k: nat,
                     t: seq<string>)
    requires k <= |before|
  {
    SlotsWritable(tables, before, name, names, k) && |t| == |tables| &&
    forall i :: 0 <= i < |tables| ==>
      t[i] == if i < k && before[i].0 == name then PyAt(names, before[i].1).value else tables[i]
  }

  /** Relinking slot `k - 1` after the earlier ones keeps what they hold
      and writes the name of its stream into it. */
  lemma RelinkedSlot(tables: seq<string>, before: seq<(string, int)>, name: string, names: seq<string>, k: nat)
    requires 0 < k <= |before| && before[k - 1].0 == name
    requires AssignMeaning(tables, before, name, names, k - 1)
    requires SlotsWritable(tables, before, name, names, k) <==>
      SlotsWritable(tables, before, name, names, k - 1) && k - 1 < |tables| && -|names| <= before[k - 1].1 < |names|
    requires AssignTables(tables, NodeIndexes(before[..k], name), names) ==
      (var t :- AssignTables(tables, NodeIndexes(before[..k - 1], name), names);
       var x :- PyAt(names, before[k - 1].1);
       PySet(t, k - 1, x))
    ensures AssignMeaning(tables, before, name, names, k)
  {
    var prev := AssignTables(tables, NodeIndexes(before[..k - 1], name), names);
    var now := AssignTables(tables, NodeIndexes(before[..k], name), names);
    if now.Success? {
      assert prev.Success?;
      assert now.value == prev.value[k - 1 := PyAt(names, before[k - 1].1).value];
    }
  }

  lemma WritableStep(tables: seq<string>, before: seq<(string, int)>, name: string, names: seq<string>, k: nat)
    requires 0 < k <= |before|
    ensures SlotsWritable(tables, before, name, names, k) <==>
      SlotsWritable(tables, before, name, names, k - 1) &&
      (before[k - 1].0 == name ==> k - 1 < |tables| && -|names| <= before[k - 1].1 < |names|)
  {
  }

  lemma RelinkStep(before: seq<(string, int)>, name: string, k: nat)
    requires 0 < k <= |before|
    ensures NodeIndexes(before[..k], name) == NodeIndexes(before[..k - 1], name) +
      (if before[k - 1].0 == name then [(k - 1, before[k - 1].1)] else [])
  {
    assert before[..k][..k - 1] == before[..k - 1];
  }

  lemma AssignTablesSnoc(tables: seq<string>, indexes: seq<(int, int)>, p: (int, int), names: seq<string>)
    ensures AssignTables(tables, indexes + [p], names) ==
      (var t :- AssignTables(tables, indexes, names);
       var x :- PyAt(names, p.1);
       PySet(t, p.0, x))
  {
    assert (indexes + [p])[..|indexes|] == indexes;
  }

  /** The edits of add_new_table_to_next_nodes_in_place for the successors
      listed in `after`, in order. */
  function PropagateTables(g: Graph, node: string, after: seq<string>, names: seq<string>): Result<Graph> {
    if |after| == 0 then Success(g)
    else
      var g' :- PropagateTables(g, node, after[..|after| - 1], names);
      var next := after[|after| - 1];
      if next == "" then Success(g')
      else if next !in g' then Failure("KeyError")
      else if NodeIndexes(g'[next].before, node) == [] then Failure("No next nodes found with the expected dependencies!")
      else
        var t :- AssignTables(g'[next].tables, NodeIndexes(g'[next].before, node), names);
        Success(g'[next := g'[next].(tables := t)])
  }

  /** Every successor slot linked to `node` can be written. */
  predicate LinksWritable(g: Graph, node: string, after: seq<string>, names: seq<string>) {
    forall n :: n in after && n != "" ==>
      n in g && NodeIndexes(g[n].before, node) != [] &&
      forall i :: 0 <= i < |g[n].before| && g[n].before[i].0 == node ==>
        i < |g[n].tables| && -|names| <= g[n].before[i].1 < |names|
  }

  /** Propagation only rewrites input slots: the keys, every other field and
      the number of slots stay, and nodes not listed as successors are
      untouched. */
  lemma {:induction false} PropagateTablesShape(g: Graph, node: string, after: seq<string>, names: seq<string>)
    ensures PropagateTables(g, node, after, names).Success? ==>
      var r := PropagateTables(g, node, after, names).value;
      r.Keys == g.Keys &&
      (forall n :: n in g ==> r[n] == g[n].(tables := r[n].tables) && |r[n].tables| == |g[n].tables|) &&
      (forall n :: n in g && n !in after ==> r[n] == g[n])
  {
    if |after| > 0 {
      var a' := after[..|after| - 1];
      var next := after[|after| - 1];
      PropagateTablesShape(g, node, a', names);
      assert forall n :: n in after <==> n in a' || n == next;
      if PropagateTables(g, node, a', names).Success? && next != "" && next in g {
        var g' := PropagateTables(g, node, a', names).value;
        var before := g'[next].before;
        assert before[..|before|] == before;
        AssignTablesMeaning(g'[next].tables, before, node, names, |before|);
      }
    }
  }

  /** Propagation succeeds exactly when every linked slot can be written. */
  lemma {:induction false} PropagateTablesSucceeds(g: Graph, node: string, after: seq<string>, names: seq<string>)
    ensures PropagateTables(g, node, after, names).Success? <==> LinksWritable(g, node, after, names)
  {
    if |after| > 0 {
      var a' := after[..|after| - 1];
      var next := after[|after| - 1];
      PropagateTablesSucceeds(g, node, a', names);
      PropagateTablesShape(g, node, a', names);
      assert forall n :: n in after <==> n in a' || n == next;
      if PropagateTables(g, node, a', names).Success? && next != "" && next in g {
        var g' := PropagateTables(g, node, a', names).value;
        var before := g'[next].before;
        assert before[..|before|] == before;
        AssignTablesMeaning(g'[next].tables, before, node, names, |before|);
      }
    }
  }

  /** After a successful propagation each input slot of a listed successor
      that names `node` holds the table of its stream index, and every other
      slot keeps its table. */
  lemma {:induction false} PropagateTablesContent(g: Graph, node: string, after: seq<string>, names: seq<string>)
    ensures PropagateTables(g, node, after, names).Success? ==>
      var r := PropagateTables(g, node, after, names).value;
      LinksWritable(g, node, after, names) && r.Keys == g.Keys &&
      (forall n :: n in g ==> |r[n].tables| == |g[n].tables|) &&
      forall n, i :: n in g && 0 <= i < |g[n].tables| ==>
        r[n].tables[i] == if n in after && n != "" && i < |g[n].before| && g[n].before[i].0 == node
          then PyAt(names, g[n].before[i].1).value else g[n].tables[i]
  {
    PropagateTablesSucceeds(g, node, after, names);
    PropagateTablesShape(g, node, after, names);
    if |after| > 0 {
      var a' := after[..|after| - 1];
      var next := after[|after| - 1];
      PropagateTablesContent(g, node, a', names);
      PropagateTablesShape(g, node, a', names);
      assert forall n :: n in after <==> n in a' || n == next;
      if PropagateTables(g, node, a', names).Success? && next != "" && next in g {
        var g' := PropagateTables(g, node, a', names).value;
        var before := g'[next].before;
        assert before[..|before|] == before;
        AssignTablesMeaning(g'[next].tables, before, node, names, |before|);
      }
    }
  }

  lemma PropagateStepFails(g: Graph, node: string, after: seq<string>, names: seq<string>, k: nat, graph: Graph)
    requires k < |after| && PropagateTables(g, node, after[..k], names) == Success(graph)
    requires after[k] != "" && after[k] in graph && NodeIndexes(graph[after[k]].before, node) != []
    requires AssignTables(graph[after[k]].tables, NodeIndexes(graph[after[k]].before, node), names).Failure?
    ensures PropagateTables(g, node, after, names) ==
      Failure(AssignTables(graph[after[k]].tables, NodeIndexes(graph[after[k]].before, node), names).error)
  {
    assert after[..k + 1][..k] == after[..k];
    PropagateFailureExtends(g, node, after, names, k + 1);
  }

  lemma {:induction false} PropagateFailureExtends(g: Graph, node: string, after: seq<string>, names: seq<string>, k: nat)
    requires k <= |after| && PropagateTables(g, node, after[..k], names).Failure?
    ensures PropagateTables(g, node, after, names) == PropagateTables(g, node, after[..k], names)
    decreases |after| - k
  {
    if k < |after| {
      assert after[..k + 1][..k] == after[..k];
      PropagateFailureExtends(g, node, after, names, k + 1);
    } else {
      assert after[..k] == after;
    }
  }

  lemma {:induction false} AssignFailureExtends(tables: seq<string>, indexes: seq<(int, int)>, names: seq<string>, k: nat)
    requires k <= |indexes| && AssignTables(tables, indexes[..k], names).Failure?
    ensures AssignTables(tables, indexes, names) == AssignTables(tables, indexes[..k], names)
    decreases |indexes| - k
  {
    if k < |indexes| {
      assert indexes[..k + 1][..k] == indexes[..k];
      AssignFailureExtends(tables, indexes, names, k + 1);
    } else {
      assert indexes[..k] == indexes;
    }
  }

  /** The inner loop of add_new_table_to_next_nodes_in_place: each listed
      input slot, in list order, takes the name of its stream. */
  method AssignSlots(tables: seq<string>, indexes: seq<(int, int)>, names: seq<string>) returns (r: Result<seq<string>>)
    ensures r == AssignTables(tables, indexes, names)
  {
    var current := tables;
    var j := 0;
    while j < |indexes|
      invariant 0 <= j <= |indexes|
      invariant AssignTables(tables, indexes[..j], names) == Success(current)
    {
      assert indexes[..j + 1][..j] == indexes[..j];
      var slot := indexes[j];
      var x := PyAt(names, slot.1);
      if x.Failure? {
        AssignFailureExtends(tables, indexes, names, j + 1);
        return Failure(x.error);
      }
      var t := PySet(current, slot.0, x.value);
      if t.Failure? {
        AssignFailureExtends(tables, indexes, names, j + 1);
        return Failure(t.error);
      }
      current := t.value;
      j := j + 1;
    }
    assert indexes[..j] == indexes;
    r := Success(current);
  }

  /** add_new_table_to_next_nodes_in_place: every successor's input slot
      fed by `node` receives the output table of its stream. */
  method AddNewTableToNextNodes(g: Graph, node: string, names: seq<string>) returns (r: Result<Graph>)
    ensures node !in g ==> r == Failure("KeyError")
    ensures node in g ==> r == PropagateTables(g, node, g[node].after, names)
  {
    if node !in g {
      return Failure("KeyError");
    }
    var after := g[node].after;
    var graph := g;
    var k := 0;
    while k < |after|
      invariant 0 <= k <= |after|
      invariant PropagateTables(g, node, after[..k], names) == Success(graph)
    {
      assert after[..k + 1][..k] == after[..k];
      var next := after[k];
      if next != "" {
        var indexes := GetCurrentNodeIndex(graph, next, node);
        if indexes.Failure? {
          PropagateFailureExtends(g, node, after, names, k + 1);
          return Failure(indexes.error);
        }
        var tables := AssignSlots(graph[next].tables, indexes.value, names);
        if tables.Failure? {
          PropagateStepFails(g, node, after, names, k, graph);
          return Failure(tables.error);
        }
        graph := graph[next := graph[next].(tables := tables.value)];
      }
      k := k + 1;
    }
    assert after[..k] == after;
    r := Success(graph);
  }

  // ----- remove_from_graph -----

  /** The edits of remove_from_graph: the predecessor's after slot is
      pointed at the successor, the successor's first input slot naming the
      node takes over the node's before edge, and the node is deleted. */
  function Unlinked(g: Graph, name: string): Result<Graph> {
    if name !in g then Failure("KeyError")
    else if |g[name].after| != 1 || |g[name].before| != 1 then Failure("Not implemented")
    else
      var a := g[name].after[0];
      var b := g[name].before[0];
      var g1 :- if b != ("", -1) && b.0 in g then
                  var s :- PySet(g[b.0].after, b.1, a);
                  Success(g[b.0 := g[b.0].(after := s)])
                else Success(g);
      var g2 :- if a == "" then Success(g1)
                else if a !in g1 then Failure("KeyError")
                else if NodeIndexes(g1[a].before, name) == [] then Failure("No next nodes found with the expected dependencies!")
                else Success(g1[a := g1[a].(before := g1[a].before[NodeIndexes(g1[a].before, name)[0].0 := b])]);
      Success(g2 - {name})
  }

  /** remove_from_graph: bypasses and deletes a 1-in/1-out node. */
  method RemoveFromGraph(g: Graph, name: string) returns (r: Result<Graph>)
    ensures r == Unlinked(g, name)
  {
    if name !in g {
      return Failure("KeyError");
    }
    if |g[name].after| != 1 || |g[name].before| != 1 {
      return Failure("Not implemented");
    }
    var after := g[name].after[0];
    var before := g[name].before[0];
    var graph := g;
    if before != ("", -1) && before.0 in graph {
      var s := PySet(graph[before.0].after, before.1, after);
      if s.Failure? {
        return Failure(s.error);
      }
      graph := graph[before.0 := graph[before.0].(after := s.value)];
    }
    if after != "" {
      var indexes := GetCurrentNodeIndex(graph, after, name);
      if indexes.Failure? {
        return Failure(indexes.error);
      }
      var index := indexes.value[0].0;
      NodeIndexesComplete(graph[after].before, name);
      assert indexes.value[0] in indexes.value;
      graph := graph[after := graph[after].(before := graph[after].before[index := before])];
    }
    r := Success(graph - {name});
  }

  /** Only a node with exactly one before and one after edge can be removed;
      in the bypass case (a live predecessor and successor, all three
      distinct) the predecessor's slot names the successor, the successor's
      first slot naming the node holds the node's own before edge, the node
      is gone and no other node changes. */
  lemma RemovalBypassesNode(g: Graph, name: string)
    requires name in g && |g[name].after| == 1 && |g[name].before| == 1
    requires var a := g[name].after[0]; var b := g[name].before[0];
      a != "" && b != ("", -1) && a in g && b.0 in g && a != name && b.0 != name && a != b.0 &&
      0 <= b.1 < |g[b.0].after| && NodeIndexes(g[a].before, name) != []
    ensures Unlinked(g, name).Success?
    ensures var r := Unlinked(g, name).value; var a := g[name].after[0]; var b := g[name].before[0];
      var slot := NodeIndexes(g[a].before, name)[0].0;
      r.Keys == g.Keys - {name} &&
      r[b.0] == g[b.0].(after := g[b.0].after[b.1 := a]) &&
      0 <= slot < |g[a].before| && g[a].before[slot].0 == name &&
      (forall i :: 0 <= i < slot ==> g[a].before[i].0 != name) &&
      r[a] == g[a].(before := g[a].before[slot := b]) &&
      forall n :: n in r && n != a && n != b.0 ==> r[n] == g[n]
  {
    var a := g[name].after[0];
    NodeIndexesComplete(g[a].before, name);
    var idx := NodeIndexes(g[a].before, name);
    NodeIndexesAscending(g[a].before, name);
  }

  /** Whatever the case, a removal that succeeds deletes exactly the node and
      leaves every other node's operation, capacity, tables and satisfying
      bitstreams as they were. */
  lemma RemovalKeepsNodeData(g: Graph, name: string)
    ensures Unlinked(g, name).Success? ==>
      var r := Unlinked(g, name).value;
      r.Keys == g.Keys - {name} &&
      forall n :: n in r ==> (r[n].operation == g[n].operation && r[n].capacity == g[n].capacity &&
        r[n].tables == g[n].tables && r[n].satisfyingBitstreams == g[n].satisfyingBitstreams)
    ensures name !in g || |g[name].after| != 1 || |g[name].before| != 1 ==> Unlinked(g, name).Failure?
  {
  }
}
