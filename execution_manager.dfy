/** The execution manager's graph and table bookkeeping
    (execution_manager.cpp): pruning of unused tables, naming of every
    intermediate table by a worklist over the query graph, the scheduling
    graph entry built from a query node, and the placement of empty modules
    among the nodes of a run.  Query nodes live in an arena keyed by node,
    pointers being keys. */
module ExecutionManager {
  import opened Wrappers
  import opened CoreTypes
  import SchedulingHelper

  const EMPTY_TABLE := "Table initialisation has an empty table!"
  const NODE_NOT_FOUND := "Node not found!"

  // ---------------------------------------------------------------------
  // RemoveUnusedTables

  /** The non-empty names of a file list. */
  function NonEmptyNames(files: seq<string>): set<string> {
    set f | f in files && f != ""
  }

  /** The tables some node reads or writes. */
  function RequiredTables(nodes: seq<QueryNode>): set<string> {
    if |nodes| == 0 then {}
    else
      var last := nodes[|nodes| - 1];
      RequiredTables(nodes[..|nodes| - 1]) + NonEmptyNames(last.inputFiles) + NonEmptyNames(last.outputFiles)
  }

  /** A table is required exactly when it is a non-empty input or output
      name of some node. */
  lemma {:induction false} RequiredTablesMeaning(nodes: seq<QueryNode>, x: string)
    ensures x in RequiredTables(nodes) <==>
      x != "" && exists i :: 0 <= i < |nodes| && (x in nodes[i].inputFiles || x in nodes[i].outputFiles)
  {
    if |nodes| > 0 {
      var prefix := nodes[..|nodes| - 1];
      RequiredTablesMeaning(prefix, x);
      assert forall i :: 0 <= i < |prefix| ==> prefix[i] == nodes[i];
    }
  }

  lemma NonEmptyNamesSnoc(files: seq<string>, j: int)
    requires 0 <= j < |files|
    ensures NonEmptyNames(files[..j + 1]) == NonEmptyNames(files[..j]) + (if files[j] != "" then {files[j]} else {})
  {
    assert files[..j + 1] == files[..j] + [files[j]];
  }

  /** The first loop of RemoveUnusedTables: the set of required names. */
  method CollectRequired(nodes: seq<QueryNode>) returns (required: set<string>)
    ensures required == RequiredTables(nodes)
  {
    required := {};
    for i := 0 to |nodes|
      invariant required == RequiredTables(nodes[..i])
    {
      assert nodes[..i + 1][..i] == nodes[..i];
      var node := nodes[i];
      for j := 0 to |node.inputFiles|
        invariant required == RequiredTables(nodes[..i]) + NonEmptyNames(node.inputFiles[..j])
      {
        NonEmptyNamesSnoc(node.inputFiles, j);
        if node.inputFiles[j] != "" {
          required := required + {node.inputFiles[j]};
        }
      }
      assert node.inputFiles[..|node.inputFiles|] == node.inputFiles;
      for j := 0 to |node.outputFiles|
        invariant required ==
          RequiredTables(nodes[..i]) + NonEmptyNames(node.inputFiles) + NonEmptyNames(node.outputFiles[..j])
      {
        NonEmptyNamesSnoc(node.outputFiles, j);
        if node.outputFiles[j] != "" {
          required := required + {node.outputFiles[j]};
        }
      }
      assert node.outputFiles[..|node.outputFiles|] == node.outputFiles;
    }
    assert nodes[..|nodes|] == nodes;
  }

  /** The second loop: the names of the tables outside `required`, in
      some order of the map's keys. */
  method UnusedNames(tables: Tables, required: set<string>) returns (toDelete: seq<string>)
    ensures forall k :: k in toDelete <==> k in tables && k !in required
  {
    toDelete := [];
    var rest := tables.Keys;
    while rest != {}
      invariant rest <= tables.Keys
      invariant forall k :: k in toDelete <==> k in tables && k !in rest && k !in required
      decreases |rest|
    {
      var name :| name in rest;
      if name !in required {
        toDelete := toDelete + [name];
      }
      rest := rest - {name};
    }
  }

  /** RemoveUnusedTables: collects the required names, then erases every
      other table; the tables kept are unchanged. */
  method RemoveUnusedTables(tables: Tables, nodes: seq<QueryNode>) returns (r: Tables)
    ensures r.Keys == tables.Keys * RequiredTables(nodes)
    ensures forall k :: k in r ==> r[k] == tables[k]
  {
    var required := CollectRequired(nodes);
    var toDelete := UnusedNames(tables, required);
    r := tables;
    for i := 0 to |toDelete|
      invariant forall k :: k in r <==> k in tables && k !in toDelete[..i]
      invariant forall k :: k in r ==> r[k] == tables[k]
    {
      assert toDelete[..i + 1] == toDelete[..i] + [toDelete[i]];
      r := r - {toDelete[i]};
    }
    assert toDelete[..|toDelete|] == toDelete;
  }

  // ---------------------------------------------------------------------
  // GetCurrentNodeIndexFromNextNode

  /** The first input stream of a successor whose predecessor is `current`,
      or "Node not found!". */
  function NodeIndex(previous: seq<Option<string>>, current: string): (r: Result<int>)
    ensures r.Success? <==> Some(current) in previous
    ensures r.Success? ==>
      0 <= r.value < |previous| && previous[r.value] == Some(current) && Some(current) !in previous[..r.value]
    ensures r.Failure? ==> r.error == NODE_NOT_FOUND
  {
    var i := IndexOf(previous, Some(current));
    if i == -1 then Failure(NODE_NOT_FOUND) else Success(i)
  }

  /** GetCurrentNodeIndexFromNextNode: the scan of the successor's
      predecessors. */
  method GetCurrentNodeIndexFromNextNode(current: string, previous: seq<Option<string>>) returns (r: Result<int>)
    ensures r == NodeIndex(previous, current)
  {
    for i := 0 to |previous|
      invariant Some(current) !in previous[..i]
    {
      assert previous[..i + 1] == previous[..i] + [previous[i]];
      if previous[i] == Some(current) {
        return Success(i);
      }
    }
    assert previous[..|previous|] == previous;
    r := Failure(NODE_NOT_FOUND);
  }

  // ---------------------------------------------------------------------
  // AddSchedulingNodeToGraph

  /** The names of the successors, "" for a null pointer; a dangling
      pointer is undefined behaviour. */
  function AfterNames(nexts: seq<Option<string>>, arena: Arena): (r: Result<seq<string>>)
    ensures r.Success? <==> forall i :: 0 <= i < |nexts| && nexts[i].Some? ==> nexts[i].value in arena
    ensures r.Failure? ==> r.error == "Undefined"
    ensures r.Success? ==>
      |r.value| == |nexts| && forall i :: 0 <= i < |nexts| ==> r.value[i] == if nexts[i].Some? then arena[nexts[i].value].name else ""
  {
    if |nexts| == 0 then Success([])
    else
      var prefix := nexts[..|nexts| - 1];
      assert forall i :: 0 <= i < |prefix| ==> prefix[i] == nexts[i];
      match AfterNames(prefix, arena)
      case Failure(e) => Failure(e)
      case Success(names) =>
        match nexts[|nexts| - 1]
        case None => Success(names + [""])
        case Some(n) => if n in arena then Success(names + [arena[n].name]) else Failure("Undefined")
  }

  /** The predecessors as (name, stream index) pairs, ("", -1) for a null
      pointer; the index is where the predecessor's successors point back
      at the node. */
  function BeforeEdges(node: string, previous: seq<Option<string>>, arena: Arena): (r: Result<seq<(string, int)>>)
    ensures r.Success? ==> |r.value| == |previous|
    ensures r.Success? ==> forall i :: 0 <= i < |previous| && previous[i].None? ==> r.value[i] == ("", -1)
    ensures r.Success? ==> forall i :: 0 <= i < |previous| && previous[i].Some? ==>
      previous[i].value in arena && r.value[i].0 == arena[previous[i].value].name &&
      SchedulingHelper.FindNodePtrIndex(node, arena[previous[i].value].nextNodes) == Success(r.value[i].1)
  {
    if |previous| == 0 then Success([])
    else
      var prefix := previous[..|previous| - 1];
      assert forall i :: 0 <= i < |prefix| ==> prefix[i] == previous[i];
      match BeforeEdges(node, prefix, arena)
      case Failure(e) => Failure(e)
      case Success(edges) =>
        match previous[|previous| - 1]
        case None => Success(edges + [("", -1)])
        case Some(p) =>
          if p !in arena then Failure("Undefined")
          else
            match SchedulingHelper.FindNodePtrIndex(node, arena[p].nextNodes)
            case Failure(e) => Failure(e)
            case Success(index) => Success(edges + [(arena[p].name, index)])
  }

  /** Every edge of a built entry is mirrored: the named stream of the
      predecessor points back at the node, and no other stream does. */
  lemma BeforeEdgesMirrored(node: string, previous: seq<Option<string>>, arena: Arena, i: int)
    requires BeforeEdges(node, previous, arena).Success? && 0 <= i < |previous| && previous[i].Some?
    ensures var nexts := arena[previous[i].value].nextNodes;
      var index := BeforeEdges(node, previous, arena).value[i].1;
      0 <= index < |nexts| && nexts[index] == Some(node) &&
      forall j :: 0 <= j < |nexts| && j != index ==> nexts[j] != Some(node)
  {
  }

  /** The scheduling graph entry of a query node. */
  function SchedulingEntry(key: string, arena: Arena, capacityOf: (OperationType, seq<seq<int>>) -> seq<int>)
    : Result<SchedulingNode>
    requires key in arena
  {
    var node := arena[key];
    match AfterNames(node.nextNodes, arena)
    case Failure(e) => Failure(e)
    case Success(after) =>
      match BeforeEdges(key, node.previousNodes, arena)
      case Failure(e) => Failure(e)
      case Success(before) =>
        Success(SchedulingNode(node.operation, capacityOf(node.operation, node.operationParameters), before, after,
                               node.inputFiles))
  }

  /** The loop over the successors. */
  method SuccessorNames(nexts: seq<Option<string>>, arena: Arena) returns (r: Result<seq<string>>)
    ensures r == AfterNames(nexts, arena)
  {
    var after: seq<string> := [];
    for i := 0 to |nexts|
      invariant AfterNames(nexts[..i], arena) == Success(after)
    {
      assert nexts[..i + 1][..i] == nexts[..i];
      match nexts[i]
      case None =>
        after := after + [""];
      case Some(n) =>
        if n !in arena {
          AfterNamesPrefixFailure(nexts, arena, i + 1);
          return Failure("Undefined");
        }
        after := after + [arena[n].name];
    }
    assert nexts[..|nexts|] == nexts;
    r := Success(after);
  }

  /** The loop over the predecessors. */
  method PredecessorEdges(key: string, previous: seq<Option<string>>, arena: Arena)
    returns (r: Result<seq<(string, int)>>)
    ensures r == BeforeEdges(key, previous, arena)
  {
    var before: seq<(string, int)> := [];
    for i := 0 to |previous|
      invariant BeforeEdges(key, previous[..i], arena) == Success(before)
    {
      assert previous[..i + 1][..i] == previous[..i];
      match previous[i]
      case None =>
        before := before + [("", -1)];
      case Some(p) =>
        if p !in arena {
          BeforeEdgesPrefixFailure(key, previous, arena, i + 1);
          return Failure("Undefined");
        }
        var index := SchedulingHelper.FindNodePtrIndex(key, arena[p].nextNodes);
        if index.Failure? {
          BeforeEdgesPrefixFailure(key, previous, arena, i + 1);
          return Failure(index.error);
        }
        before := before + [(arena[p].name, index.value)];
    }
    assert previous[..|previous|] == previous;
    r := Success(before);
  }

  /** AddSchedulingNodeToGraph: builds the entry and inserts it under the
      node's name; an existing entry of that name is kept (`insert`). */
  method AddSchedulingNodeToGraph(key: string, arena: Arena, graph: SchedulingGraph,
                                  capacityOf: (OperationType, seq<seq<int>>) -> seq<int>)
    returns (r: Result<SchedulingGraph>)
    requires key in arena
    ensures r.Success? <==> SchedulingEntry(key, arena, capacityOf).Success?
    ensures r.Failure? ==> r.error == SchedulingEntry(key, arena, capacityOf).error
    ensures r.Success? ==> r.value.Keys == graph.Keys + {arena[key].name}
    ensures r.Success? ==> forall n :: n in graph ==> r.value[n] == graph[n]
    ensures r.Success? && arena[key].name !in graph ==>
      r.value[arena[key].name] == SchedulingEntry(key, arena, capacityOf).value
  {
    var node := arena[key];
    var after := SuccessorNames(node.nextNodes, arena);
    if after.Failure? {
      return Failure(after.error);
    }
    var before := PredecessorEdges(key, node.previousNodes, arena);
    if before.Failure? {
      return Failure(before.error);
    }
    var dataTables: seq<string> := [];
    for i := 0 to |node.inputFiles|
      invariant dataTables == node.inputFiles[..i]
    {
      assert node.inputFiles[..i + 1] == node.inputFiles[..i] + [node.inputFiles[i]];
      dataTables := dataTables + [node.inputFiles[i]];
    }
    assert dataTables == node.inputFiles;
    var entry := SchedulingNode(node.operation, capacityOf(node.operation, node.operationParameters), before.value,
                                after.value, dataTables);
    if node.name in graph {
      r := Success(graph);
    } else {
      r := Success(graph[node.name := entry]);
    }
  }

  lemma {:induction false} AfterNamesPrefixFailure(nexts: seq<Option<string>>, arena: Arena, m: nat)
    requires m <= |nexts| && AfterNames(nexts[..m], arena).Failure?
    ensures AfterNames(nexts, arena) == AfterNames(nexts[..m], arena)
    decreases |nexts| - m
  {
    if m < |nexts| {
      assert nexts[..m + 1][..m] == nexts[..m];
      AfterNamesPrefixFailure(nexts, arena, m + 1);
    } else {
      assert nexts[..m] == nexts;
    }
  }

  lemma {:induction false} BeforeEdgesPrefixFailure(node: string, previous: seq<Option<string>>, arena: Arena, m: nat)
    requires m <= |previous| && BeforeEdges(node, previous[..m], arena).Failure?
    ensures BeforeEdges(node, previous, arena) == BeforeEdges(node, previous[..m], arena)
    decreases |previous| - m
  {
    if m < |previous| {
      assert previous[..m + 1][..m] == previous[..m];
      BeforeEdgesPrefixFailure(node, previous, arena, m + 1);
    } else {
      assert previous[..m] == previous;
    }
  }

  // ---------------------------------------------------------------------
  // The empty-module placement of SetupNextRunData

  /** The run's nodes after the placement loop, from position `base` on: a
      flagged position gets a new empty module there, any other position
      the next of the remaining nodes; a position past the nodes is
      `at()` out of range. */
  function PlaceFrom(nodes: seq<AcceleratedNode>, empty: seq<(OperationType, bool)>, base: int,
                     emptyNode: (OperationType, int) -> AcceleratedNode): Result<seq<AcceleratedNode>>
    decreases |empty|
  {
    if |empty| == 0 then Success(nodes)
    else if empty[0].1 then
      match PlaceFrom(nodes, empty[1..], base + 1, emptyNode)
      case Failure(e) => Failure(e)
      case Success(rest) => Success([emptyNode(empty[0].0, base + 1)] + rest)
    else if |nodes| == 0 then Failure("out_of_range")
    else
      match PlaceFrom(nodes[1..], empty[1..], base + 1, emptyNode)
      case Failure(e) => Failure(e)
      case Success(rest) => Success([nodes[0].(location := base + 1)] + rest)
  }

  /** How many positions are not flagged. */
  function Unflagged(empty: seq<(OperationType, bool)>): (r: nat)
    ensures r <= |empty|
  {
    if |empty| == 0 then 0 else (if empty[0].1 then 0 else 1) + Unflagged(empty[1..])
  }

  /** The placement loop: inserts the flagged empty modules and sets the
      location of every other node to its position plus one. */
  method PlaceEmptyModules(nodes: seq<AcceleratedNode>, empty: seq<(OperationType, bool)>,
                           emptyNode: (OperationType, int) -> AcceleratedNode)
    returns (r: Result<seq<AcceleratedNode>>)
    ensures r == PlaceFrom(nodes, empty, 0, emptyNode)
  {
    var current := nodes;
    assert current[..0] == [] && current[0..] == nodes && empty[0..] == empty;
    assert PrefixedBy([], PlaceFrom(nodes, empty, 0, emptyNode)) == PlaceFrom(nodes, empty, 0, emptyNode) by {
      var whole := PlaceFrom(nodes, empty, 0, emptyNode);
      if whole.Success? {
        assert [] + whole.value == whole.value;
      }
    }
    for p := 0 to |empty|
      invariant p <= |current|
      invariant PlaceFrom(nodes, empty, 0, emptyNode) ==
        PrefixedBy(current[..p], PlaceFrom(current[p..], empty[p..], p, emptyNode))
    {
      if empty[p].1 {
        var next := current[..p] + [emptyNode(empty[p].0, p + 1)] + current[p..];
        InsertEmptyStep(current, empty, p, emptyNode);
        current := next;
      } else {
        if p >= |current| {
          PlaceNodeFailure(current, empty, p, emptyNode);
          return Failure("out_of_range");
        }
        var next := current[p := current[p].(location := p + 1)];
        PlaceNodeStep(current, empty, p, emptyNode);
        current := next;
      }
    }
    assert empty[|empty|..] == [];
    assert current[..|empty|] + current[|empty|..] == current;
    r := Success(current);
  }

  /** A flagged position: the empty module is inserted before the rest. */
  lemma InsertEmptyStep(current: seq<AcceleratedNode>, empty: seq<(OperationType, bool)>, p: nat,
                        emptyNode: (OperationType, int) -> AcceleratedNode)
    requires p < |empty| && p <= |current| && empty[p].1
    ensures var next := current[..p] + [emptyNode(empty[p].0, p + 1)] + current[p..];
      PrefixedBy(current[..p], PlaceFrom(current[p..], empty[p..], p, emptyNode)) ==
      PrefixedBy(next[..p + 1], PlaceFrom(next[p + 1..], empty[p + 1..], p + 1, emptyNode))
  {
    var e := emptyNode(empty[p].0, p + 1);
    var next := current[..p] + [e] + current[p..];
    assert empty[p..][0] == empty[p] && empty[p..][1..] == empty[p + 1..];
    assert next[..p + 1] == current[..p] + [e] && next[p + 1..] == current[p..];
    PrefixedByAppend(current[..p], e, PlaceFrom(current[p..], empty[p + 1..], p + 1, emptyNode));
  }

  /** An unflagged position with a node: the node gets its location. */
  lemma PlaceNodeStep(current: seq<AcceleratedNode>, empty: seq<(OperationType, bool)>, p: nat,
                      emptyNode: (OperationType, int) -> AcceleratedNode)
    requires p < |empty| && p < |current| && !empty[p].1
    ensures var next := current[p := current[p].(location := p + 1)];
      PrefixedBy(current[..p], PlaceFrom(current[p..], empty[p..], p, emptyNode)) ==
      PrefixedBy(next[..p + 1], PlaceFrom(next[p + 1..], empty[p + 1..], p + 1, emptyNode))
  {
    var n := current[p].(location := p + 1);
    var next := current[p := n];
    assert empty[p..][0] == empty[p] && empty[p..][1..] == empty[p + 1..];
    assert next[..p + 1] == current[..p] + [n] && next[p + 1..] == current[p + 1..];
    assert current[p..][1..] == current[p + 1..];
    PrefixedByAppend(current[..p], n, PlaceFrom(current[p + 1..], empty[p + 1..], p + 1, emptyNode));
  }

  /** An unflagged position past the nodes is out of range. */
  lemma PlaceNodeFailure(current: seq<AcceleratedNode>, empty: seq<(OperationType, bool)>, p: nat,
                         emptyNode: (OperationType, int) -> AcceleratedNode)
    requires p < |empty| && p == |current| && !empty[p].1
    ensures PrefixedBy(current[..p], PlaceFrom(current[p..], empty[p..], p, emptyNode)) == Failure("out_of_range")
  {
    assert current[p..] == [];
    assert empty[p..][0] == empty[p];
  }

  /** `done` followed by the rest of a placement. */
  function PrefixedBy(done: seq<AcceleratedNode>, rest: Result<seq<AcceleratedNode>>): Result<seq<AcceleratedNode>> {
    match rest
    case Failure(e) => Failure(e)
    case Success(s) => Success(done + s)
  }

  lemma PrefixedByAppend(done: seq<AcceleratedNode>, x: AcceleratedNode, rest: Result<seq<AcceleratedNode>>)
    ensures PrefixedBy(done, PrefixedBy([x], rest)) == PrefixedBy(done + [x], rest)
  {
    if rest.Success? {
      assert done + ([x] + rest.value) == done + [x] + rest.value;
    }
  }

  /** The placement succeeds exactly when every unflagged position has a
      node, and then holds one entry per position followed by the nodes
      left over. */
  lemma {:induction false} PlaceFromShape(nodes: seq<AcceleratedNode>, empty: seq<(OperationType, bool)>, base: int,
                                          emptyNode: (OperationType, int) -> AcceleratedNode)
    ensures PlaceFrom(nodes, empty, base, emptyNode).Success? <==> Unflagged(empty) <= |nodes|
    ensures PlaceFrom(nodes, empty, base, emptyNode).Success? ==>
      var r := PlaceFrom(nodes, empty, base, emptyNode).value;
      |r| == |nodes| + |empty| - Unflagged(empty) && r[|empty|..] == nodes[Unflagged(empty)..]
    decreases |empty|
  {
    if |empty| > 0 {
      var nodesRest := if empty[0].1 then nodes else if |nodes| == 0 then nodes else nodes[1..];
      PlaceFromShape(nodesRest, empty[1..], base + 1, emptyNode);
      if PlaceFrom(nodes, empty, base, emptyNode).Success? {
        var r := PlaceFrom(nodes, empty, base, emptyNode).value;
        var rest := PlaceFrom(nodesRest, empty[1..], base + 1, emptyNode).value;
        assert r[|empty|..] == rest[|empty| - 1..];
      }
    }
  }

  /** Position `p` of a placement holds the empty module when it is
      flagged, and otherwise the next node not yet placed, with location
      `base + p + 1` either way. */
  lemma {:induction false} PlaceFromAt(nodes: seq<AcceleratedNode>, empty: seq<(OperationType, bool)>, base: int,
                                       emptyNode: (OperationType, int) -> AcceleratedNode, p: int)
    requires PlaceFrom(nodes, empty, base, emptyNode).Success? && 0 <= p < |empty|
    ensures var r := PlaceFrom(nodes, empty, base, emptyNode).value;
      p < |r| &&
      if empty[p].1 then r[p] == emptyNode(empty[p].0, base + p + 1)
      else Unflagged(empty[..p]) < |nodes| && r[p] == nodes[Unflagged(empty[..p])].(location := base + p + 1)
    decreases p
  {
    PlaceFromShape(nodes, empty, base, emptyNode);
    assert empty[..0] == [];
    if p > 0 {
      var nodesRest := if empty[0].1 then nodes else nodes[1..];
      var r := PlaceFrom(nodes, empty, base, emptyNode).value;
      var rest := PlaceFrom(nodesRest, empty[1..], base + 1, emptyNode).value;
      assert r == [r[0]] + rest;
      PlaceFromAt(nodesRest, empty[1..], base + 1, emptyNode, p - 1);
      assert empty[1..][p - 1] == empty[p];
      assert empty[..p][1..] == empty[1..][..p - 1];
      assert Unflagged(empty[..p]) == (if empty[0].1 then 0 else 1) + Unflagged(empty[1..][..p - 1]);
    }
  }
}

/** InitialiseTables: the worklist that names every intermediate table of
    the query graph.  Kept in a module of its own so that its bookkeeping
    predicates stay apart from the rest of the executor. */
module TableInitialisation {
  import opened Wrappers
  import opened CoreTypes
  import opened ExecutionManager

  // ---------------------------------------------------------------------
  // std::to_string on a stream index

  function DigitChar(d: int): char
    requires 0 <= d < 10
  {
    ('0' as int + d) as char
  }

  function DigitValue(c: char): int {
    c as int - '0' as int
  }

  /** The decimal digits of `n`, most significant first. */
  function NatToString(n: nat): (r: string)
    ensures |r| >= 1
    ensures forall i :: 0 <= i < |r| ==> '0' <= r[i] <= '9'
    decreases n
  {
    if n < 10 then [DigitChar(n)] else NatToString(n / 10) + [DigitChar(n % 10)]
  }

  /** The value of a string of decimal digits. */
  function ParseDigits(s: string): int {
    if |s| == 0 then 0 else ParseDigits(s[..|s| - 1]) * 10 + DigitValue(s[|s| - 1])
  }

  /** Reading the digits back gives the number. */
  lemma {:induction false} ParseNatToString(n: nat)
    ensures ParseDigits(NatToString(n)) == n
    decreases n
  {
    var s := NatToString(n);
    if n < 10 {
      assert s[..0] == [];
      assert DigitValue(s[0]) == n;
    } else {
      ParseNatToString(n / 10);
      assert s[..|s| - 1] == NatToString(n / 10);
      assert DigitValue(s[|s| - 1]) == n % 10;
      assert n == (n / 10) * 10 + n % 10;
    }
  }

  /** The name given to an unnamed output table: the node name, '_' and
      the stream index. */
  function GeneratedName(nodeName: string, id: nat): (r: string)
    ensures r != ""
  {
    nodeName + "_" + NatToString(id)
  }

  /** Two streams of one node never get the same generated name. */
  lemma GeneratedNamesDistinct(nodeName: string, i: nat, j: nat)
    requires GeneratedName(nodeName, i) == GeneratedName(nodeName, j)
    ensures i == j
  {
    var p := nodeName + "_";
    assert NatToString(i) == GeneratedName(nodeName, i)[|p|..];
    assert NatToString(j) == GeneratedName(nodeName, j)[|p|..];
    ParseNatToString(i);
    ParseNatToString(j);
  }

  // ---------------------------------------------------------------------
  // What a step of the worklist may change

  /** `f` is `f0` with some empty names filled in. */
  ghost predicate FilesRefine(f0: seq<string>, f: seq<string>) {
    |f| == |f0| && forall i :: 0 <= i < |f0| && f0[i] != "" ==> f[i] == f0[i]
  }

  /** A node whose only change is names given to empty tables. */
  ghost predicate NodeRefines(n0: QueryNode, n: QueryNode) {
    n == n0.(inputFiles := n.inputFiles, outputFiles := n.outputFiles) &&
    FilesRefine(n0.inputFiles, n.inputFiles) && FilesRefine(n0.outputFiles, n.outputFiles)
  }

  /** The same nodes, each refined. */
  ghost predicate Refines(a0: Arena, a: Arena) {
    a.Keys == a0.Keys && forall k :: k in a0 ==> NodeRefines(a0[k], a[k])
  }

  /** Tables are only added, each new one with an unknown record count
      and no sorted runs. */
  ghost predicate TablesGrow(t0: Tables, t: Tables) {
    t0.Keys <= t.Keys && (forall x :: x in t0 ==> t[x] == t0[x]) &&
    forall x :: x in t && x !in t0 ==> t[x].recordCount == -1 && t[x].sortedStatus == []
  }

  /** Every output that got a name got its generated name, and that name
      is a table. */
  ghost predicate OutputsNamed(a0: Arena, a: Arena, t: Tables) {
    forall k, id ::
      (k in a0 && k in a && 0 <= id < |a0[k].outputFiles| && id < |a[k].outputFiles| &&
       a0[k].outputFiles[id] == "" && a[k].outputFiles[id] != "") ==>
        a[k].outputFiles[id] == GeneratedName(a0[k].name, id) && a[k].outputFiles[id] in t
  }

  /** The empty input slots of the graph; a step that fills one shrinks
      the set, which is why the worklist ends. */
  ghost function EmptySlots(a: Arena): set<(string, int)> {
    set k, i | k in a && 0 <= i < |a[k].inputFiles| && a[k].inputFiles[i] == "" :: (k, i)
  }

  /** Every node whose last empty input was filled is in `pushed`. */
  ghost predicate Collected(a0: Arena, a: Arena, pushed: seq<string>) {
    forall x :: x in a0 && x in a && "" in a0[x].inputFiles && "" !in a[x].inputFiles ==> x in pushed
  }

  /** A step that pushes a node has filled a slot. */
  ghost predicate Shrinks(a0: Arena, a: Arena, pushed: seq<string>) {
    EmptySlots(a) <= EmptySlots(a0) && (pushed != [] ==> EmptySlots(a) < EmptySlots(a0))
  }

  // ---------------------------------------------------------------------
  // What a finished node looks like

  /** The successor on a stream of `k` is null, or a node whose input
      stream fed by `k` has a table. */
  ghost predicate SuccessorFilled(a: Arena, k: string, next: Option<string>) {
    next.None? ||
    (next.value in a && NodeIndex(a[next.value].previousNodes, k).Success? &&
     NodeIndex(a[next.value].previousNodes, k).value < |a[next.value].inputFiles| &&
     a[next.value].inputFiles[NodeIndex(a[next.value].previousNodes, k).value] != "")
  }

  /** The output tables `n` hands to `o`: its names on the streams whose
      successor is `o`. */
  ghost function NamesTo(n: QueryNode, o: string): set<string> {
    set j | 0 <= j < |n.nextNodes| && j < |n.outputFiles| && n.nextNodes[j] == Some(o) :: n.outputFiles[j]
  }

  /** Input `i` of `o` holds one of the output tables that its predecessor
      on that input hands to `o`. */
  ghost predicate FedBy(a: Arena, o: string, i: int) {
    o in a && 0 <= i < |a[o].inputFiles| && i < |a[o].previousNodes| && a[o].previousNodes[i].Some? &&
    a[o].previousNodes[i].value in a && a[o].inputFiles[i] != "" &&
    a[o].inputFiles[i] in NamesTo(a[a[o].previousNodes[i].value], o)
  }

  /** Every input that was empty in `a0` and has a table in `a` got it
      from its predecessor's output. */
  ghost predicate InputsFed(a0: Arena, a: Arena) {
    forall o, i ::
      (o in a0 && o in a && 0 <= i < |a0[o].inputFiles| && i < |a[o].inputFiles| &&
       a0[o].inputFiles[i] == "" && a[o].inputFiles[i] != "") ==> FedBy(a, o, i)
  }

  /** The first `m` output streams of `k` are named and handed on. */
  ghost predicate StreamsDone(a: Arena, k: string, m: int) {
    k in a && 0 <= m <= |a[k].nextNodes| && m <= |a[k].outputFiles| &&
    forall id :: 0 <= id < m ==> a[k].outputFiles[id] != "" && SuccessorFilled(a, k, a[k].nextNodes[id])
  }

  /** A processed node: every input and every output stream has a table,
      and every successor has it on the matching input. */
  ghost predicate Done(a: Arena, k: string) {
    k in a && "" !in a[k].inputFiles && StreamsDone(a, k, |a[k].nextNodes|)
  }

  // ---------------------------------------------------------------------
  // Transitivity and monotonicity

  lemma RefinesTrans(a0: Arena, a1: Arena, a2: Arena)
    requires Refines(a0, a1) && Refines(a1, a2)
    ensures Refines(a0, a2)
  {
    forall k | k in a0
      ensures NodeRefines(a0[k], a2[k])
    {
      assert NodeRefines(a0[k], a1[k]) && NodeRefines(a1[k], a2[k]);
    }
  }

  lemma TablesGrowTrans(t0: Tables, t1: Tables, t2: Tables)
    requires TablesGrow(t0, t1) && TablesGrow(t1, t2)
    ensures TablesGrow(t0, t2)
  {
  }

  lemma OutputsNamedTrans(a0: Arena, a1: Arena, a2: Arena, t1: Tables, t2: Tables)
    requires Refines(a0, a1) && Refines(a1, a2) && TablesGrow(t1, t2)
    requires OutputsNamed(a0, a1, t1) && OutputsNamed(a1, a2, t2)
    ensures OutputsNamed(a0, a2, t2)
  {
    forall k, id | k in a0 && k in a2 && 0 <= id < |a0[k].outputFiles| && id < |a2[k].outputFiles| &&
      a0[k].outputFiles[id] == "" && a2[k].outputFiles[id] != ""
      ensures a2[k].outputFiles[id] == GeneratedName(a0[k].name, id) && a2[k].outputFiles[id] in t2
    {
      assert NodeRefines(a0[k], a1[k]) && NodeRefines(a1[k], a2[k]);
      if a1[k].outputFiles[id] != "" {
        assert a2[k].outputFiles[id] == a1[k].outputFiles[id];
      }
    }
  }

  /** A fed input stays fed while names are only filled in. */
  lemma FedByMono(a1: Arena, a2: Arena, o: string, i: int)
    requires Refines(a1, a2) && FedBy(a1, o, i)
    ensures FedBy(a2, o, i)
  {
    var k := a1[o].previousNodes[i].value;
    assert NodeRefines(a1[o], a2[o]) && NodeRefines(a1[k], a2[k]);
    var j :| 0 <= j < |a1[k].nextNodes| && j < |a1[k].outputFiles| && a1[k].nextNodes[j] == Some(o) &&
      a1[k].outputFiles[j] == a1[o].inputFiles[i];
    assert a2[k].outputFiles[j] in NamesTo(a2[k], o);
  }

  lemma InputsFedTrans(a0: Arena, a1: Arena, a2: Arena)
    requires Refines(a0, a1) && Refines(a1, a2) && InputsFed(a0, a1) && InputsFed(a1, a2)
    ensures InputsFed(a0, a2)
  {
    forall o, i | o in a0 && o in a2 && 0 <= i < |a0[o].inputFiles| && i < |a2[o].inputFiles| &&
      a0[o].inputFiles[i] == "" && a2[o].inputFiles[i] != ""
      ensures FedBy(a2, o, i)
    {
      assert NodeRefines(a0[o], a1[o]);
      if a1[o].inputFiles[i] != "" {
        FedByMono(a1, a2, o, i);
      }
    }
  }

  lemma StreamsDoneMono(a1: Arena, a2: Arena, k: string, m: int)
    requires Refines(a1, a2) && StreamsDone(a1, k, m)
    ensures StreamsDone(a2, k, m)
  {
    assert NodeRefines(a1[k], a2[k]);
    forall id | 0 <= id < m
      ensures a2[k].outputFiles[id] != "" && SuccessorFilled(a2, k, a2[k].nextNodes[id])
    {
      assert a1[k].outputFiles[id] != "" && SuccessorFilled(a1, k, a1[k].nextNodes[id]);
      var next := a1[k].nextNodes[id];
      if next.Some? {
        assert NodeRefines(a1[next.value], a2[next.value]);
      }
    }
  }

  lemma DoneMono(a1: Arena, a2: Arena, k: string)
    requires Refines(a1, a2) && Done(a1, k)
    ensures Done(a2, k)
  {
    assert NodeRefines(a1[k], a2[k]);
    StreamsDoneMono(a1, a2, k, |a1[k].nextNodes|);
  }

  /** A refined graph has no empty slot the original did not have. */
  lemma RefinesSlots(a0: Arena, a: Arena)
    requires Refines(a0, a)
    ensures EmptySlots(a) <= EmptySlots(a0)
  {
    forall p | p in EmptySlots(a)
      ensures p in EmptySlots(a0)
    {
      var (k, i) := p;
      assert NodeRefines(a0[k], a[k]);
    }
  }

  lemma CollectedTrans(a0: Arena, a1: Arena, a2: Arena, p1: seq<string>, p2: seq<string>)
    requires Refines(a0, a1) && Refines(a1, a2) && Collected(a0, a1, p1) && Collected(a1, a2, p2)
    ensures Collected(a0, a2, p1 + p2)
  {
    forall x | x in a0 && x in a2 && "" in a0[x].inputFiles && "" !in a2[x].inputFiles
      ensures x in p1 + p2
    {
      if "" in a1[x].inputFiles {
        assert x in p2;
      } else {
        assert x in p1;
      }
    }
  }

  lemma ShrinksTrans(a0: Arena, a1: Arena, a2: Arena, p1: seq<string>, p2: seq<string>)
    requires Shrinks(a0, a1, p1) && Shrinks(a1, a2, p2)
    ensures Shrinks(a0, a2, p1 + p2)
  {
  }

  // ---------------------------------------------------------------------
  // One output stream

  /** The effect of naming stream `id` of node `k`. */
  ghost predicate StreamStepped(t0: Tables, a0: Arena, k: string, id: int, t: Tables, a: Arena, pushed: seq<string>) {
    Refines(a0, a) && TablesGrow(t0, t) && OutputsNamed(a0, a, t) && InputsFed(a0, a) &&
    k in a && 0 <= id < |a[k].outputFiles| && id < |a[k].nextNodes| &&
    a[k].outputFiles[id] != "" && SuccessorFilled(a, k, a[k].nextNodes[id]) &&
    Collected(a0, a, pushed) && Shrinks(a0, a, pushed)
  }

  /** The errors the table initialisation can end with. */
  predicate KnownError(e: string) {
    e == EMPTY_TABLE || e == NODE_NOT_FOUND || e == "out_of_range" || e == "Undefined"
  }

  /** No node's inputs changed. */
  ghost predicate InputsUnchanged(a0: Arena, a: Arena) {
    forall x :: x in a0 && x in a ==> a[x].inputFiles == a0[x].inputFiles
  }

  /** No node's outputs changed. */
  ghost predicate OutputsUnchanged(a0: Arena, a: Arena) {
    forall x :: x in a0 && x in a ==> a[x].outputFiles == a0[x].outputFiles
  }

  /** The first half of a stream: the output table of stream `id` of `k`
      gets its generated name, and is registered, when it has none. */
  method NameOutput(tables: Tables, arena: Arena, k: string, id: nat, recordSize: (seq<seq<int>>, int) -> int)
    returns (r: Result<(Tables, Arena)>)
    requires k in arena && id < |arena[k].nextNodes|
    ensures r.Success? ==>
      var (t, a) := r.value;
      Refines(arena, a) && TablesGrow(tables, t) && OutputsNamed(arena, a, t) && InputsUnchanged(arena, a) &&
      id < |a[k].outputFiles| && a[k].outputFiles[id] != ""
    ensures r.Success? <==> id < |arena[k].outputFiles|
    ensures r.Failure? ==> r.error == "out_of_range"
    ensures r.Success? ==>
      var name := GeneratedName(arena[k].name, id);
      r.value.0 == if arena[k].outputFiles[id] == "" && name !in tables
                   then tables[name := TableMetadata(recordSize(arena[k].outputStreamParameters, id), -1, [])]
                   else tables
  {
    var node := arena[k];
    if id >= |node.outputFiles| {
      return Failure("out_of_range");
    }
    if node.outputFiles[id] != "" {
      return Success((tables, arena));
    }
    var tableName := GeneratedName(node.name, id);
    var a := arena[k := node.(outputFiles := node.outputFiles[id := tableName])];
    var t := tables;
    if tableName !in t {
      t := t[tableName := TableMetadata(recordSize(node.outputStreamParameters, id), -1, [])];
    }
    assert NodeRefines(arena[k], a[k]);
    r := Success((t, a));
  }

  /** The second half: the table is handed to the successor's matching
      input if that has none; the successor is returned when that was its
      last empty input. */
  method HandOn(arena: Arena, k: string, id: nat, tableName: string) returns (r: Result<(Arena, seq<string>)>)
    requires k in arena && id < |arena[k].nextNodes| && id < |arena[k].outputFiles|
    requires tableName == arena[k].outputFiles[id] && tableName != ""
    ensures r.Success? ==>
      var (a, pushed) := r.value;
      Refines(arena, a) && OutputsUnchanged(arena, a) && SuccessorFilled(a, k, arena[k].nextNodes[id]) &&
      InputsFed(arena, a) && Collected(arena, a, pushed) && Shrinks(arena, a, pushed)
    ensures r.Success? && arena[k].nextNodes[id].Some? ==>
      var o := arena[k].nextNodes[id].value;
      var index := NodeIndex(arena[o].previousNodes, k).value;
      arena[o].inputFiles[index] == "" ==> r.value.0[o].inputFiles[index] == tableName
    ensures r.Failure? ==> KnownError(r.error)
  {
    RefinesSlots(arena, arena);
    if arena[k].nextNodes[id].None? {
      return Success((arena, []));
    }
    var o := arena[k].nextNodes[id].value;
    if o !in arena {
      return Failure("Undefined");
    }
    var out := arena[o];
    var index := GetCurrentNodeIndexFromNextNode(k, out.previousNodes);
    if index.Failure? {
      return Failure(index.error);
    }
    if index.value >= |out.inputFiles| {
      return Failure("out_of_range");
    }
    if out.inputFiles[index.value] != "" {
      return Success((arena, []));
    }
    var filled := out.(inputFiles := out.inputFiles[index.value := tableName]);
    var a := arena[o := filled];
    assert NodeRefines(arena[o], a[o]);
    HandOnFeeds(arena, k, id, o, index.value, a);
    assert (o, index.value) in EmptySlots(arena) - EmptySlots(a);
    RefinesSlots(arena, a);
    var pushed := if "" !in filled.inputFiles then [o] else [];
    r := Success((a, pushed));
  }

  /** The table handed on at input `index` of `o` is one `k` hands to
      `o`, and no other input changed. */
  lemma HandOnFeeds(arena: Arena, k: string, id: nat, o: string, index: int, a: Arena)
    requires k in arena && id < |arena[k].nextNodes| && id < |arena[k].outputFiles|
    requires arena[k].outputFiles[id] != "" && arena[k].nextNodes[id] == Some(o) && o in arena
    requires NodeIndex(arena[o].previousNodes, k) == Success(index) && index < |arena[o].inputFiles|
    requires a == arena[o := arena[o].(inputFiles := arena[o].inputFiles[index := arena[k].outputFiles[id]])]
    ensures InputsFed(arena, a)
  {
    assert a[k].outputFiles == arena[k].outputFiles && a[k].nextNodes == arena[k].nextNodes;
    assert a[o].inputFiles[index] in NamesTo(a[k], o);
    assert FedBy(a, o, index);
  }

  /** Naming stream `id` of `k`: both halves. */
  method NameStream(tables: Tables, arena: Arena, k: string, id: nat, recordSize: (seq<seq<int>>, int) -> int)
    returns (r: Result<(Tables, Arena, seq<string>)>)
    requires k in arena && id < |arena[k].nextNodes|
    ensures r.Success? ==> StreamStepped(tables, arena, k, id, r.value.0, r.value.1, r.value.2)
    ensures r.Success? ==>
      var name := GeneratedName(arena[k].name, id);
      r.value.0 == if arena[k].outputFiles[id] == "" && name !in tables
                   then tables[name := TableMetadata(recordSize(arena[k].outputStreamParameters, id), -1, [])]
                   else tables
    ensures r.Failure? ==> KnownError(r.error)
  {
    var named := NameOutput(tables, arena, k, id, recordSize);
    if named.Failure? {
      return Failure(named.error);
    }
    var (t, a) := named.value;
    var handed := HandOn(a, k, id, a[k].outputFiles[id]);
    if handed.Failure? {
      return Failure(handed.error);
    }
    var (a', pushed) := handed.value;
    StreamComposes(tables, arena, k, id, t, a, a', pushed);
    r := Success((t, a', pushed));
  }

  lemma StreamComposes(t0: Tables, a0: Arena, k: string, id: nat, t: Tables, a: Arena, a': Arena, pushed: seq<string>)
    requires k in a0 && id < |a0[k].nextNodes|
    requires Refines(a0, a) && TablesGrow(t0, t) && OutputsNamed(a0, a, t) && InputsUnchanged(a0, a)
    requires id < |a[k].outputFiles| && a[k].outputFiles[id] != ""
    requires Refines(a, a') && OutputsUnchanged(a, a') && SuccessorFilled(a', k, a[k].nextNodes[id])
    requires InputsFed(a, a') && Collected(a, a', pushed) && Shrinks(a, a', pushed)
    ensures StreamStepped(t0, a0, k, id, t, a', pushed)
  {
    RefinesTrans(a0, a, a');
    assert InputsFed(a0, a);
    InputsFedTrans(a0, a, a');
    assert NodeRefines(a0[k], a[k]) && NodeRefines(a[k], a'[k]);
    assert OutputsNamed(a0, a', t) by {
      forall x, j | x in a0 && x in a' && 0 <= j < |a0[x].outputFiles| && j < |a'[x].outputFiles| &&
        a0[x].outputFiles[j] == "" && a'[x].outputFiles[j] != ""
        ensures a'[x].outputFiles[j] == GeneratedName(a0[x].name, j) && a'[x].outputFiles[j] in t
      {
        assert a'[x].outputFiles == a[x].outputFiles;
      }
    }
    assert Collected(a0, a', pushed) by {
      forall x | x in a0 && x in a' && "" in a0[x].inputFiles && "" !in a'[x].inputFiles
        ensures x in pushed
      {
        assert a[x].inputFiles == a0[x].inputFiles;
      }
    }
    assert Shrinks(a0, a', pushed) by {
      assert EmptySlots(a) == EmptySlots(a0);
    }
  }

  // ---------------------------------------------------------------------
  // One node

  /** After the first `m` streams of `k`. */
  ghost predicate ProcessInvariant(t0: Tables, a0: Arena, k: string, m: int, t: Tables, a: Arena, pushed: seq<string>) {
    Refines(a0, a) && TablesGrow(t0, t) && OutputsNamed(a0, a, t) && InputsFed(a0, a) &&
    k in a && "" !in a[k].inputFiles && StreamsDone(a, k, m) &&
    Collected(a0, a, pushed) && Shrinks(a0, a, pushed)
  }

  lemma ProcessStep(t0: Tables, a0: Arena, k: string, m: int, t: Tables, a: Arena, pushed: seq<string>,
                    t': Tables, a': Arena, more: seq<string>)
    requires ProcessInvariant(t0, a0, k, m, t, a, pushed) && m < |a[k].nextNodes|
    requires StreamStepped(t, a, k, m, t', a', more)
    ensures ProcessInvariant(t0, a0, k, m + 1, t', a', pushed + more)
  {
    RefinesTrans(a0, a, a');
    TablesGrowTrans(t0, t, t');
    assert OutputsNamed(a0, a, t') by {
      forall x, j | x in a0 && x in a && 0 <= j < |a0[x].outputFiles| && j < |a[x].outputFiles| &&
        a0[x].outputFiles[j] == "" && a[x].outputFiles[j] != ""
        ensures a[x].outputFiles[j] == GeneratedName(a0[x].name, j) && a[x].outputFiles[j] in t'
      {
      }
    }
    OutputsNamedTrans(a0, a, a', t', t');
    InputsFedTrans(a0, a, a');
    CollectedTrans(a0, a, a', pushed, more);
    ShrinksTrans(a0, a, a', pushed, more);
    StreamsDoneMono(a, a', k, m);
    assert NodeRefines(a[k], a'[k]);
  }

  /** The processing of node `k` popped from the worklist: a node with an
      empty input is an error; otherwise each output stream in turn. */
  method ProcessNode(tables: Tables, arena: Arena, k: string, recordSize: (seq<seq<int>>, int) -> int)
    returns (r: Result<(Tables, Arena, seq<string>)>)
    ensures r.Success? ==>
      var (t, a, pushed) := r.value;
      Refines(arena, a) && TablesGrow(tables, t) && OutputsNamed(arena, a, t) && InputsFed(arena, a) &&
      Done(a, k) && Collected(arena, a, pushed) && Shrinks(arena, a, pushed)
    ensures r.Failure? ==> KnownError(r.error)
    ensures k in arena && "" in arena[k].inputFiles ==> r == Failure(EMPTY_TABLE)
  {
    if k !in arena {
      return Failure("Undefined");
    }
    if "" in arena[k].inputFiles {
      return Failure(EMPTY_TABLE);
    }
    var t := tables;
    var a := arena;
    var pushed: seq<string> := [];
    ProcessEntry(tables, arena, k);
    var streams := |arena[k].nextNodes|;
    for id := 0 to streams
      invariant ProcessInvariant(tables, arena, k, id, t, a, pushed)
      invariant streams == |a[k].nextNodes|
    {
      var step := NameStream(t, a, k, id, recordSize);
      if step.Failure? {
        return Failure(step.error);
      }
      var (t', a', more) := step.value;
      ProcessStep(tables, arena, k, id, t, a, pushed, t', a', more);
      t, a, pushed := t', a', pushed + more;
    }
    r := Success((t, a, pushed));
  }

  lemma ProcessEntry(t0: Tables, a0: Arena, k: string)
    requires k in a0 && "" !in a0[k].inputFiles
    ensures ProcessInvariant(t0, a0, k, 0, t0, a0, [])
  {
    forall x | x in a0
      ensures NodeRefines(a0[x], a0[x])
    {
      assert a0[x] == a0[x].(inputFiles := a0[x].inputFiles, outputFiles := a0[x].outputFiles);
    }
  }

  // ---------------------------------------------------------------------
  // The worklist

  /** A node the initialisation owes a result: one of the starting nodes,
      or one whose last empty input was filled. */
  ghost predicate Awaited(a0: Arena, w0: seq<string>, a: Arena, k: string) {
    k in a0 && k in a && (k in w0 || ("" in a0[k].inputFiles && "" !in a[k].inputFiles))
  }

  /** The worklist invariant: graph and tables only refined, and every
      awaited node either still queued or done. */
  ghost predicate WorklistInvariant(t0: Tables, a0: Arena, w0: seq<string>, t: Tables, a: Arena, worklist: seq<string>) {
    Refines(a0, a) && TablesGrow(t0, t) && OutputsNamed(a0, a, t) && InputsFed(a0, a) &&
    forall k :: Awaited(a0, w0, a, k) ==> k in worklist || Done(a, k)
  }

  lemma WorklistEntry(t0: Tables, a0: Arena, w0: seq<string>)
    ensures WorklistInvariant(t0, a0, w0, t0, a0, w0)
  {
    forall x | x in a0
      ensures NodeRefines(a0[x], a0[x])
    {
      assert a0[x] == a0[x].(inputFiles := a0[x].inputFiles, outputFiles := a0[x].outputFiles);
    }
  }

  lemma WorklistStep(t0: Tables, a0: Arena, w0: seq<string>, t: Tables, a: Arena, worklist: seq<string>,
                     t': Tables, a': Arena, pushed: seq<string>)
    requires WorklistInvariant(t0, a0, w0, t, a, worklist) && |worklist| > 0
    requires var k := worklist[|worklist| - 1];
      Refines(a, a') && TablesGrow(t, t') && OutputsNamed(a, a', t') && InputsFed(a, a') &&
      Done(a', k) && Collected(a, a', pushed)
    ensures WorklistInvariant(t0, a0, w0, t', a', worklist[..|worklist| - 1] + pushed)
  {
    var k := worklist[|worklist| - 1];
    var rest := worklist[..|worklist| - 1];
    assert worklist == rest + [k];
    RefinesTrans(a0, a, a');
    TablesGrowTrans(t0, t, t');
    assert OutputsNamed(a0, a, t') by {
      forall x, j | x in a0 && x in a && 0 <= j < |a0[x].outputFiles| && j < |a[x].outputFiles| &&
        a0[x].outputFiles[j] == "" && a[x].outputFiles[j] != ""
        ensures a[x].outputFiles[j] == GeneratedName(a0[x].name, j) && a[x].outputFiles[j] in t'
      {
      }
    }
    OutputsNamedTrans(a0, a, a', t', t');
    InputsFedTrans(a0, a, a');
    forall x | Awaited(a0, w0, a', x)
      ensures x in rest + pushed || Done(a', x)
    {
      assert NodeRefines(a0[x], a[x]);
      if "" in a[x].inputFiles && "" !in a'[x].inputFiles {
        assert x in pushed;
      } else {
        assert Awaited(a0, w0, a, x);
        if x in worklist && x != k {
          assert x in rest;
        } else if x != k {
          DoneMono(a, a', x);
        }
      }
    }
  }

  /** InitialiseTables: pops a node from the back of the worklist,
      processes it, and pushes the successors that got their last input
      table, until the worklist is empty.  On success the graph and the
      tables are only refined, every named output has its generated name
      and a table, and every starting node and every node whose last
      empty input was filled is done. */
  method InitialiseTables(tables: Tables, arena: Arena, available: seq<string>,
                          recordSize: (seq<seq<int>>, int) -> int)
    returns (r: Result<(Tables, Arena)>)
    ensures r.Success? ==>
      var (t, a) := r.value;
      Refines(arena, a) && TablesGrow(tables, t) && OutputsNamed(arena, a, t) && InputsFed(arena, a) &&
      forall k :: Awaited(arena, available, a, k) ==> Done(a, k)
    ensures r.Failure? ==> KnownError(r.error)
  {
    var t := tables;
    var a := arena;
    var worklist := available;
    WorklistEntry(tables, arena, available);
    while worklist != []
      invariant WorklistInvariant(tables, arena, available, t, a, worklist)
      decreases EmptySlots(a), |worklist|
    {
      var k := worklist[|worklist| - 1];
      var rest := worklist[..|worklist| - 1];
      var step := ProcessNode(t, a, k, recordSize);
      if step.Failure? {
        return Failure(step.error);
      }
      var (t', a', pushed) := step.value;
      WorklistStep(tables, arena, available, t, a, worklist, t', a', pushed);
      assert EmptySlots(a') < EmptySlots(a) || (EmptySlots(a') == EmptySlots(a) && |rest + pushed| < |worklist|);
      t, a, worklist := t', a', rest + pushed;
    }
    r := Success((t, a));
  }
}
