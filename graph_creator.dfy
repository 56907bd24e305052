/** MakeGraph of graph_creator.cpp after the JSON read: the query nodes of
    an input definition, their links to one another and the nodes that
    start the graph.  The definition is given as its nodes in the key
    order of the `std::map` it was read into; a shared pointer to a node
    becomes the node's name in the arena, a null one `None`.  Every node
    lives in the arena while the graph is built, so a weak previous
    pointer locks exactly when it is set. */
module GraphCreator {
  import opened Wrappers
  import opened CoreTypes
  import opened Folds

  const INCORRECT_INPUT_COUNT := "Incorrect number of input file definitions found!"
  const INPUT_NOT_REQUIRED := "Input file not required!"
  const INPUT_REQUIRED := "Input file required!"

  /** A field of a node's JSON object: the alternatives of its variant. */
  datatype NodeField =
    | NodeNames(names: seq<string>)
    | NodeText(text: string)
    | NodeParams(params: map<string, seq<seq<int>>>)

  type NodeObject = map<string, NodeField>

  type InputDefinition = seq<(string, NodeObject)>

  /** A node as the first pass reads it: the node without links and its
      lists of previous and next node names, when given. */
  datatype NodeRead = NodeRead(node: QueryNode, previous: Option<seq<string>>, next: Option<seq<string>>)

  // ---------------------------------------------------------------------
  // Reading one node

  function NamesOf(p: NodeObject, field: string): (r: Result<seq<string>>)
    ensures r.Success? <==> field in p && p[field].NodeNames?
    ensures r.Success? ==> r.value == p[field].names
    ensures r.Failure? ==> r.error == (if field in p then BAD_VARIANT else "out_of_range")
  {
    if field !in p then Failure("out_of_range")
    else if !p[field].NodeNames? then Failure(BAD_VARIANT)
    else Success(p[field].names)
  }

  function TextOf(p: NodeObject, field: string): (r: Result<string>)
    ensures r.Success? <==> field in p && p[field].NodeText?
    ensures r.Success? ==> r.value == p[field].text
    ensures r.Failure? ==> r.error == (if field in p then BAD_VARIANT else "out_of_range")
  {
    if field !in p then Failure("out_of_range")
    else if !p[field].NodeText? then Failure(BAD_VARIANT)
    else Success(p[field].text)
  }

  function ParamsOf(p: NodeObject, field: string): (r: Result<map<string, seq<seq<int>>>>)
    ensures r.Success? <==> field in p && p[field].NodeParams?
    ensures r.Success? ==> r.value == p[field].params
    ensures r.Failure? ==> r.error == (if field in p then BAD_VARIANT else "out_of_range")
  {
    if field !in p then Failure("out_of_range")
    else if !p[field].NodeParams? then Failure(BAD_VARIANT)
    else Success(p[field].params)
  }

  /** A field that may be absent: `find`, then `std::get` when found. */
  function OptionalNamesOf(p: NodeObject, field: string): (r: Result<Option<seq<string>>>)
    ensures r.Success? <==> field !in p || p[field].NodeNames?
    ensures r.Success? ==> r.value == (if field in p then Some(p[field].names) else None)
    ensures r.Failure? ==> r.error == BAD_VARIANT
  {
    if field !in p then Success(None)
    else if !p[field].NodeNames? then Failure(BAD_VARIANT)
    else Success(Some(p[field].names))
  }

  function ParamAt(params: map<string, seq<seq<int>>>, key: string): (r: Result<seq<seq<int>>>)
    ensures r.Success? <==> key in params
    ensures r.Success? ==> r.value == params[key]
    ensures r.Failure? ==> r.error == "out_of_range"
  {
    if key in params then Success(params[key]) else Failure("out_of_range")
  }

  /** Which outputs are checked: those given a file name. */
  function CheckedFlags(outputs: seq<string>): seq<bool> {
    seq(|outputs|, i requires 0 <= i < |outputs| => outputs[i] != "")
  }

  /** The first pass over one node: its fields read in the order
      operation parameters, output, input, operation, previous nodes, next
      nodes.  C++ leaves the evaluation order of the constructor's
      arguments unspecified; the model fixes this one, which only decides
      which error is reported when several fields are malformed. */
  function NodeOf(entry: (string, NodeObject), supported: Supported): (r: Result<NodeRead>)
    ensures r.Success? ==> r.value.node.name == entry.0 && r.value.node.previousNodes == [] && r.value.node.nextNodes == []
  {
    var p := entry.1;
    var all :- ParamsOf(p, "operation_parameters");
    var inputStream :- ParamAt(all, "input_stream_params");
    var outputStream :- ParamAt(all, "output_stream_params");
    var operationParams :- ParamAt(all, "operation_params");
    var outputs :- NamesOf(p, "output");
    var inputs :- NamesOf(p, "input");
    var operationName :- TextOf(p, "operation");
    var operation :- if operationName in supported then Success(supported[operationName]) else Failure("out_of_range");
    var previous :- OptionalNamesOf(p, "previous_nodes");
    var next :- OptionalNamesOf(p, "next_nodes");
    Success(NodeRead(QueryNode(entry.0, operation, inputs, outputs, [], [], CheckedFlags(outputs), [],
                               operationParams, inputStream, outputStream), previous, next))
  }

  function NodeParser(supported: Supported): ((string, NodeObject)) -> Result<NodeRead> {
    entry => NodeOf(entry, supported)
  }

  /** A node object holds every field with the alternative it is read as,
      and names a supported operation. */
  predicate WellFormedNode(p: NodeObject, supported: Supported) {
    "operation_parameters" in p && p["operation_parameters"].NodeParams? &&
    "input_stream_params" in p["operation_parameters"].params &&
    "output_stream_params" in p["operation_parameters"].params &&
    "operation_params" in p["operation_parameters"].params &&
    "output" in p && p["output"].NodeNames? &&
    "input" in p && p["input"].NodeNames? &&
    "operation" in p && p["operation"].NodeText? && p["operation"].text in supported &&
    ("previous_nodes" in p ==> p["previous_nodes"].NodeNames?) &&
    ("next_nodes" in p ==> p["next_nodes"].NodeNames?)
  }

  /** A node is read exactly when it is well formed.  It then carries its
      name, files, operation type and parameters unchanged, no links yet,
      and an output is checked exactly when it is given a file name;
      otherwise the error is out of range or a bad variant access. */
  lemma NodeOfMeaning(entry: (string, NodeObject), supported: Supported)
    ensures NodeOf(entry, supported).Success? <==> WellFormedNode(entry.1, supported)
    ensures NodeOf(entry, supported).Failure? ==> NodeOf(entry, supported).error in {"out_of_range", BAD_VARIANT}
    ensures NodeOf(entry, supported).Success? ==>
      var p := entry.1;
      var read := NodeOf(entry, supported).value;
      var node := read.node;
      node.name == entry.0 && node.inputFiles == p["input"].names && node.outputFiles == p["output"].names &&
      node.operation == supported[p["operation"].text] &&
      node.previousNodes == [] && node.nextNodes == [] &&
      node.operationParameters == p["operation_parameters"].params["operation_params"] &&
      node.inputStreamParameters == p["operation_parameters"].params["input_stream_params"] &&
      node.outputStreamParameters == p["operation_parameters"].params["output_stream_params"] &&
      |node.isChecked| == |node.outputFiles| &&
      (forall i :: 0 <= i < |node.outputFiles| ==> (node.isChecked[i] <==> node.outputFiles[i] != "")) &&
      read.previous == (if "previous_nodes" in p then Some(p["previous_nodes"].names) else None) &&
      read.next == (if "next_nodes" in p then Some(p["next_nodes"].names) else None)
  {
  }

  method IsChecked(outputs: seq<string>) returns (r: seq<bool>)
    ensures r == CheckedFlags(outputs)
    ensures |r| == |outputs| && forall i :: 0 <= i < |outputs| ==> (r[i] <==> outputs[i] != "")
  {
    r := [];
    for i := 0 to |outputs|
      invariant |r| == i && forall j :: 0 <= j < i ==> r[j] == (outputs[j] != "")
    {
      r := r + [outputs[i] != ""];
    }
  }

  method ReadNode(entry: (string, NodeObject), supported: Supported) returns (r: Result<NodeRead>)
    ensures r == NodeOf(entry, supported)
  {
    var p := entry.1;
    var all :- ParamsOf(p, "operation_parameters");
    var inputStream :- ParamAt(all, "input_stream_params");
    var outputStream :- ParamAt(all, "output_stream_params");
    var operationParams :- ParamAt(all, "operation_params");
    var outputs :- NamesOf(p, "output");
    var isChecked := IsChecked(outputs);
    var inputs :- NamesOf(p, "input");
    var operationName :- TextOf(p, "operation");
    if operationName !in supported {
      return Failure("out_of_range");
    }
    var previous :- OptionalNamesOf(p, "previous_nodes");
    var next :- OptionalNamesOf(p, "next_nodes");
    r := Success(NodeRead(QueryNode(entry.0, supported[operationName], inputs, outputs, [], [], isChecked, [],
                                    operationParams, inputStream, outputStream), previous, next));
  }

  // ---------------------------------------------------------------------
  // Linking one node

  /** Input slot `i`: the name of the node feeding it ("" for none) and
      its input file ("" for none).  Exactly one of the two is given, and
      a named node must exist. */
  function PreviousLink(names: seq<string>, slot: (string, string)): Result<Option<string>> {
    var (previous, inputFile) := slot;
    if previous != "" then
      if inputFile != "" then Failure(INPUT_NOT_REQUIRED)
      else if previous !in names then Failure("out_of_range")
      else Success(Some(previous))
    else if inputFile == "" then Failure(INPUT_REQUIRED)
    else Success(None)
  }

  function PreviousReader(names: seq<string>): ((string, string)) -> Result<Option<string>> {
    slot => PreviousLink(names, slot)
  }

  function Slots(previous: seq<string>, inputs: seq<string>): (r: seq<(string, string)>)
    requires |previous| == |inputs|
    ensures |r| == |previous| && forall i :: 0 <= i < |r| ==> r[i] == (previous[i], inputs[i])
  {
    seq(|previous|, i requires 0 <= i < |previous| => (previous[i], inputs[i]))
  }

  /** The previous pointers of a node with a previous list: one per input
      file, in order. */
  function PreviousLinks(inputs: seq<string>, previous: seq<string>, names: seq<string>): Result<seq<Option<string>>> {
    if |previous| != |inputs| then Failure(INCORRECT_INPUT_COUNT)
    else MapAll(Slots(previous, inputs), PreviousReader(names))
  }

  /** Input slot `i` is given exactly one of a node and a file, and a named
      node exists. */
  predicate SlotOk(names: seq<string>, previous: string, inputFile: string) {
    (previous != "" <==> inputFile == "") && (previous != "" ==> previous in names)
  }

  /** The previous list is accepted exactly when it has one entry per
      input file and every slot is given exactly one source; then slot `i`
      points at the named node or is null.  A wrong length is reported
      first; otherwise the first bad slot's error: a file beside a named
      node is not required, a slot with neither requires a file, and an
      unknown node is out of range. */
  lemma {:induction false} PreviousLinksMeaning(inputs: seq<string>, previous: seq<string>, names: seq<string>)
    ensures PreviousLinks(inputs, previous, names).Success? <==>
      |previous| == |inputs| && forall i :: 0 <= i < |previous| ==> SlotOk(names, previous[i], inputs[i])
    ensures PreviousLinks(inputs, previous, names).Success? ==>
      var links := PreviousLinks(inputs, previous, names).value;
      |links| == |previous| &&
      forall i :: 0 <= i < |previous| ==> links[i] == if previous[i] == "" then None else Some(previous[i])
    ensures |previous| != |inputs| ==> PreviousLinks(inputs, previous, names) == Failure(INCORRECT_INPUT_COUNT)
    ensures |previous| == |inputs| && PreviousLinks(inputs, previous, names).Failure? ==>
      exists i :: 0 <= i < |previous| && !SlotOk(names, previous[i], inputs[i]) &&
        (forall j :: 0 <= j < i ==> SlotOk(names, previous[j], inputs[j])) &&
        PreviousLinks(inputs, previous, names).error ==
          if previous[i] == "" then INPUT_REQUIRED
          else if inputs[i] != "" then INPUT_NOT_REQUIRED
          else "out_of_range"
  {
    if |previous| == |inputs| {
      var slots := Slots(previous, inputs);
      var reader := PreviousReader(names);
      MapAllMeaning(slots, reader);
      assert forall i :: 0 <= i < |slots| ==> (reader(slots[i]).Success? <==> SlotOk(names, previous[i], inputs[i]));
      if PreviousLinks(inputs, previous, names).Failure? {
        var i :| 0 <= i < |slots| && reader(slots[i]).Failure? &&
          PreviousLinks(inputs, previous, names).error == reader(slots[i]).error &&
          forall j :: 0 <= j < i ==> reader(slots[j]).Success?;
        assert !SlotOk(names, previous[i], inputs[i]);
      }
    }
  }

  /** Next pointer for a listed name: null for "", otherwise the named
      node, which must exist. */
  function NextLink(names: seq<string>, next: string): Result<Option<string>> {
    if next == "" then Success(None)
    else if next !in names then Failure("out_of_range")
    else Success(Some(next))
  }

  function NextReader(names: seq<string>): string -> Result<Option<string>> {
    next => NextLink(names, next)
  }

  function NextLinks(next: seq<string>, names: seq<string>): Result<seq<Option<string>>> {
    MapAll(next, NextReader(names))
  }

  /** The next list is accepted exactly when every name it gives is a
      node; then it has one pointer per listed name, null for "". */
  lemma NextLinksMeaning(next: seq<string>, names: seq<string>)
    ensures NextLinks(next, names).Success? <==> forall i :: 0 <= i < |next| ==> next[i] != "" ==> next[i] in names
    ensures NextLinks(next, names).Failure? ==> NextLinks(next, names).error == "out_of_range"
    ensures NextLinks(next, names).Success? ==>
      var links := NextLinks(next, names).value;
      |links| == |next| && forall i :: 0 <= i < |next| ==> links[i] == if next[i] == "" then None else Some(next[i])
  {
    var reader := NextReader(names);
    MapAllMeaning(next, reader);
    if NextLinks(next, names).Failure? {
      var i :| 0 <= i < |next| && reader(next[i]).Failure? && NextLinks(next, names).error == reader(next[i]).error;
    }
  }

  /** The second pass over one node: its previous pointers, when it has a
      previous list, then its next pointers, when it has a next list. */
  function Linked(read: NodeRead, names: seq<string>): (r: Result<QueryNode>)
    ensures r.Success? ==> r.value.name == read.node.name
  {
    var previous :- if read.previous.Some? then PreviousLinks(read.node.inputFiles, read.previous.value, names)
                    else Success([]);
    var next :- if read.next.Some? then NextLinks(read.next.value, names) else Success([]);
    Success(read.node.(previousNodes := previous, nextNodes := next))
  }

  function LinkReader(names: seq<string>): NodeRead -> Result<QueryNode> {
    read => Linked(read, names)
  }

  method AddPreviousNodes(node: QueryNode, previous: seq<string>, names: seq<string>) returns (r: Result<QueryNode>)
    requires node.previousNodes == []
    ensures r.Success? <==> PreviousLinks(node.inputFiles, previous, names).Success?
    ensures r.Failure? ==> r.error == PreviousLinks(node.inputFiles, previous, names).error
    ensures r.Success? ==> r.value == node.(previousNodes := PreviousLinks(node.inputFiles, previous, names).value)
  {
    if |previous| != |node.inputFiles| {
      return Failure(INCORRECT_INPUT_COUNT);
    }
    var slots := Slots(previous, node.inputFiles);
    var current := node;
    for i := 0 to |previous|
      invariant MapAll(slots[..i], PreviousReader(names)) == Success(current.previousNodes)
      invariant current == node.(previousNodes := current.previousNodes)
    {
      assert slots[..i + 1][..i] == slots[..i];
      if previous[i] != "" {
        if node.inputFiles[i] != "" {
          MapAllPrefixFailure(slots, PreviousReader(names), i + 1);
          return Failure(INPUT_NOT_REQUIRED);
        }
        if previous[i] !in names {
          MapAllPrefixFailure(slots, PreviousReader(names), i + 1);
          return Failure("out_of_range");
        }
        current := current.(previousNodes := current.previousNodes + [Some(previous[i])]);
      } else {
        if node.inputFiles[i] == "" {
          MapAllPrefixFailure(slots, PreviousReader(names), i + 1);
          return Failure(INPUT_REQUIRED);
        }
        current := current.(previousNodes := current.previousNodes + [None]);
      }
    }
    assert slots[..|previous|] == slots;
    r := Success(current);
  }

  method AddNextNodes(node: QueryNode, next: seq<string>, names: seq<string>) returns (r: Result<QueryNode>)
    requires node.nextNodes == []
    ensures r.Success? <==> NextLinks(next, names).Success?
    ensures r.Failure? ==> r.error == NextLinks(next, names).error
    ensures r.Success? ==> r.value == node.(nextNodes := NextLinks(next, names).value)
  {
    var current := node;
    for i := 0 to |next|
      invariant MapAll(next[..i], NextReader(names)) == Success(current.nextNodes)
      invariant current == node.(nextNodes := current.nextNodes)
    {
      assert next[..i + 1][..i] == next[..i];
      if next[i] != "" {
        if next[i] !in names {
          MapAllPrefixFailure(next, NextReader(names), i + 1);
          return Failure("out_of_range");
        }
        current := current.(nextNodes := current.nextNodes + [Some(next[i])]);
      } else {
        current := current.(nextNodes := current.nextNodes + [None]);
      }
    }
    assert next[..|next|] == next;
    r := Success(current);
  }

  method LinkNode(read: NodeRead, names: seq<string>) returns (r: Result<QueryNode>)
    requires read.node.previousNodes == [] && read.node.nextNodes == []
    ensures r == Linked(read, names)
  {
    var node := read.node;
    if read.previous.Some? {
      var linked := AddPreviousNodes(node, read.previous.value, names);
      if linked.Failure? {
        return Failure(linked.error);
      }
      node := linked.value;
    }
    if read.next.Some? {
      var linked := AddNextNodes(node, read.next.value, names);
      if linked.Failure? {
        return Failure(linked.error);
      }
      node := linked.value;
    }
    r := Success(node);
  }

  // ---------------------------------------------------------------------
  // The graph

  /** A node none of whose previous pointers is set. */
  predicate NoLivePrevious(node: QueryNode) {
    forall i :: 0 <= i < |node.previousNodes| ==> node.previousNodes[i].None?
  }

  /** The names of the nodes with no live previous pointer, in order. */
  function Roots(nodes: seq<QueryNode>): seq<string> {
    if |nodes| == 0 then []
    else Roots(nodes[..|nodes| - 1]) + if NoLivePrevious(nodes[|nodes| - 1]) then [nodes[|nodes| - 1].name] else []
  }

  /** A name is returned exactly when it names a node with no live
      previous pointer. */
  lemma {:induction false} RootsMeaning(nodes: seq<QueryNode>, x: string)
    ensures x in Roots(nodes) <==> exists k :: 0 <= k < |nodes| && nodes[k].name == x && NoLivePrevious(nodes[k])
  {
    if |nodes| > 0 {
      var prefix := nodes[..|nodes| - 1];
      RootsMeaning(prefix, x);
      assert forall k :: 0 <= k < |prefix| ==> prefix[k] == nodes[k];
      if exists k :: 0 <= k < |nodes| && nodes[k].name == x && NoLivePrevious(nodes[k]) {
        var k :| 0 <= k < |nodes| && nodes[k].name == x && NoLivePrevious(nodes[k]);
        if k < |prefix| {
          assert prefix[k].name == x && NoLivePrevious(prefix[k]);
        }
      }
    }
  }

  /** The map of the first pass: each node inserted under its name. */
  function NodesMap(firstPass: seq<NodeRead>): Arena {
    if |firstPass| == 0 then map[]
    else
      var last := firstPass[|firstPass| - 1];
      NodesMap(firstPass[..|firstPass| - 1])[last.node.name := last.node]
  }

  /** The map after the second pass has replaced each linked node. */
  function Relinked(arena: Arena, linked: seq<QueryNode>): Arena {
    if |linked| == 0 then arena
    else
      var last := linked[|linked| - 1];
      Relinked(arena, linked[..|linked| - 1])[last.name := last]
  }

  /** The node names of the input definition, in order. */
  function DefinedNames(data: InputDefinition): (r: seq<string>)
    ensures |r| == |data| && forall k :: 0 <= k < |data| ==> r[k] == data[k].0
  {
    seq(|data|, k requires 0 <= k < |data| => data[k].0)
  }

  /** MakeGraph: the graph's nodes by name and the names of the start
      nodes, or the first error in the order the two passes meet them. */
  function Graph(data: InputDefinition, supported: Supported): Result<(Arena, seq<string>)> {
    var firstPass :- MapAll(data, NodeParser(supported));
    var linked :- MapAll(firstPass, LinkReader(DefinedNames(data)));
    Success((Relinked(NodesMap(firstPass), linked), Roots(linked)))
  }

  lemma {:induction false} NodesMapAt(firstPass: seq<NodeRead>, k: int)
    requires 0 <= k < |firstPass| && forall i, j :: 0 <= i < j < |firstPass| ==> firstPass[i].node.name != firstPass[j].node.name
    ensures firstPass[k].node.name in NodesMap(firstPass) && NodesMap(firstPass)[firstPass[k].node.name] == firstPass[k].node
  {
    if k < |firstPass| - 1 {
      NodesMapAt(firstPass[..|firstPass| - 1], k);
    }
  }

  lemma {:induction false} NodesMapKeys(firstPass: seq<NodeRead>, x: string)
    ensures x in NodesMap(firstPass) <==> exists k :: 0 <= k < |firstPass| && firstPass[k].node.name == x
  {
    if |firstPass| > 0 {
      var prefix := firstPass[..|firstPass| - 1];
      NodesMapKeys(prefix, x);
      assert forall k :: 0 <= k < |prefix| ==> prefix[k] == firstPass[k];
      if exists k :: 0 <= k < |firstPass| && firstPass[k].node.name == x {
        var k :| 0 <= k < |firstPass| && firstPass[k].node.name == x;
        if k < |prefix| {
          assert prefix[k].node.name == x;
        }
      }
    }
  }

  /** Relinking keeps the keys and replaces exactly the linked nodes. */
  lemma {:induction false} RelinkedAt(arena: Arena, linked: seq<QueryNode>, x: string)
    requires forall k :: 0 <= k < |linked| ==> linked[k].name in arena
    ensures Relinked(arena, linked).Keys == arena.Keys
    ensures x in arena && (exists k :: 0 <= k < |linked| && linked[k].name == x) ==>
      Relinked(arena, linked)[x] == linked[LastIndexOfName(linked, x)]
    ensures x in arena && (forall k :: 0 <= k < |linked| ==> linked[k].name != x) ==>
      Relinked(arena, linked)[x] == arena[x]
  {
    if |linked| > 0 {
      var prefix := linked[..|linked| - 1];
      assert forall k :: 0 <= k < |prefix| ==> prefix[k] == linked[k];
      RelinkedAt(arena, prefix, x);
      if x in arena && linked[|linked| - 1].name != x {
        if exists k :: 0 <= k < |linked| && linked[k].name == x {
          var k :| 0 <= k < |linked| && linked[k].name == x;
          assert prefix[k].name == x;
        }
      }
    }
  }

  /** The last position of a node of that name. */
  function LastIndexOfName(linked: seq<QueryNode>, x: string): (r: int)
    requires exists k :: 0 <= k < |linked| && linked[k].name == x
    ensures 0 <= r < |linked| && linked[r].name == x
    ensures forall k :: r < k < |linked| ==> linked[k].name != x
  {
    if linked[|linked| - 1].name == x then |linked| - 1
    else
      var prefix := linked[..|linked| - 1];
      var k :| 0 <= k < |linked| && linked[k].name == x;
      assert prefix[k].name == x;
      LastIndexOfName(prefix, x)
  }

  /** Reading and linking keep each node's name. */
  lemma PassesKeepNames(data: InputDefinition, supported: Supported)
    requires Graph(data, supported).Success?
    ensures var firstPass := MapAll(data, NodeParser(supported)).value;
      var linked := MapAll(firstPass, LinkReader(DefinedNames(data))).value;
      |firstPass| == |data| && |linked| == |data| &&
      forall k :: 0 <= k < |data| ==> firstPass[k].node.name == data[k].0 && linked[k].name == data[k].0
  {
    MapAllMeaning(data, NodeParser(supported));
    var firstPass := MapAll(data, NodeParser(supported)).value;
    MapAllMeaning(firstPass, LinkReader(DefinedNames(data)));
  }

  /** On success, the arena's keys are the input definition's node
      names. */
  lemma GraphKeys(data: InputDefinition, supported: Supported, x: string)
    requires Graph(data, supported).Success?
    ensures x in Graph(data, supported).value.0 <==> x in DefinedNames(data)
  {
    var firstPass := MapAll(data, NodeParser(supported)).value;
    var linked := MapAll(firstPass, LinkReader(DefinedNames(data))).value;
    PassesKeepNames(data, supported);
    MapAllMeaning(firstPass, LinkReader(DefinedNames(data)));
    assert Graph(data, supported) == Success((Relinked(NodesMap(firstPass), linked), Roots(linked)));
    NodesMapKeys(firstPass, x);
    forall k | 0 <= k < |linked|
      ensures linked[k].name in NodesMap(firstPass)
    {
      NodesMapKeys(firstPass, linked[k].name);
    }
    RelinkedAt(NodesMap(firstPass), linked, x);
    if x in DefinedNames(data) {
      var k :| 0 <= k < |data| && DefinedNames(data)[k] == x;
      assert firstPass[k].node.name == x;
    }
  }

  /** Each node of the input definition is kept under its name with its
      links. */
  lemma GraphNodeAt(data: InputDefinition, supported: Supported, k: int)
    requires Graph(data, supported).Success? && 0 <= k < |data|
    requires forall i, j :: 0 <= i < j < |data| ==> data[i].0 != data[j].0
    ensures var arena := Graph(data, supported).value.0;
      var firstPass := MapAll(data, NodeParser(supported)).value;
      var linked := MapAll(firstPass, LinkReader(DefinedNames(data))).value;
      |firstPass| == |data| && |linked| == |data| &&
      data[k].0 in arena && arena[data[k].0] == linked[k] &&
      Linked(firstPass[k], DefinedNames(data)) == Success(linked[k])
  {
    var names := DefinedNames(data);
    var firstPass := MapAll(data, NodeParser(supported)).value;
    var linked := MapAll(firstPass, LinkReader(names)).value;
    PassesKeepNames(data, supported);
    MapAllMeaning(firstPass, LinkReader(names));
    assert Graph(data, supported) == Success((Relinked(NodesMap(firstPass), linked), Roots(linked)));
    var x := data[k].0;
    assert x in NodesMap(firstPass) && forall j :: 0 <= j < |linked| ==> linked[j].name in NodesMap(firstPass) by {
      NodesMapKeys(firstPass, x);
      forall j | 0 <= j < |linked|
        ensures linked[j].name in NodesMap(firstPass)
      {
        NodesMapKeys(firstPass, linked[j].name);
      }
    }
    RelinkedAt(NodesMap(firstPass), linked, x);
    assert linked[k].name == x;
    var last := LastIndexOfName(linked, x);
    assert data[last].0 == x;
    assert last == k;
    assert Relinked(NodesMap(firstPass), linked)[x] == linked[k];
  }

  /** A linked node's pointers all name nodes, and a node with a previous
      list has one previous pointer per input file, set exactly where no
      input file is given. */
  lemma LinkedMeaning(read: NodeRead, names: seq<string>)
    requires Linked(read, names).Success?
    ensures var node := Linked(read, names).value;
      node.inputFiles == read.node.inputFiles &&
      (forall i :: 0 <= i < |node.previousNodes| ==> node.previousNodes[i].Some? ==> node.previousNodes[i].value in names) &&
      (forall i :: 0 <= i < |node.nextNodes| ==> node.nextNodes[i].Some? ==> node.nextNodes[i].value in names) &&
      (|node.previousNodes| == 0 || |node.previousNodes| == |node.inputFiles|) &&
      forall i :: 0 <= i < |node.previousNodes| ==> (node.previousNodes[i].Some? <==> node.inputFiles[i] == "")
  {
    if read.previous.Some? {
      PreviousLinksMeaning(read.node.inputFiles, read.previous.value, names);
    }
    if read.next.Some? {
      NextLinksMeaning(read.next.value, names);
    }
  }

  /** Every link of a node of the graph names a node of the graph, and a
      node with a previous list has one previous pointer per input file,
      set exactly where no input file is given. */
  lemma GraphLinks(data: InputDefinition, supported: Supported, k: int)
    requires Graph(data, supported).Success? && 0 <= k < |data|
    requires forall i, j :: 0 <= i < j < |data| ==> data[i].0 != data[j].0
    ensures data[k].0 in Graph(data, supported).value.0
    ensures var arena := Graph(data, supported).value.0;
      var node := arena[data[k].0];
      (forall i :: 0 <= i < |node.previousNodes| ==> node.previousNodes[i].Some? ==> node.previousNodes[i].value in arena) &&
      (forall i :: 0 <= i < |node.nextNodes| ==> node.nextNodes[i].Some? ==> node.nextNodes[i].value in arena) &&
      (|node.previousNodes| == 0 || |node.previousNodes| == |node.inputFiles|) &&
      forall i :: 0 <= i < |node.previousNodes| ==> (node.previousNodes[i].Some? <==> node.inputFiles[i] == "")
  {
    GraphNodeAt(data, supported, k);
    var names := DefinedNames(data);
    var read := MapAll(data, NodeParser(supported)).value[k];
    LinkedMeaning(read, names);
    forall x | x in names
      ensures x in Graph(data, supported).value.0
    {
      GraphKeys(data, supported, x);
    }
  }

  /** The start nodes are exactly the nodes of the graph with no live
      previous pointer. */
  lemma GraphRoots(data: InputDefinition, supported: Supported, k: int)
    requires Graph(data, supported).Success? && 0 <= k < |data|
    requires forall i, j :: 0 <= i < j < |data| ==> data[i].0 != data[j].0
    ensures var (arena, roots) := Graph(data, supported).value;
      data[k].0 in arena && (data[k].0 in roots <==> NoLivePrevious(arena[data[k].0]))
  {
    GraphNodeAt(data, supported, k);
    var firstPass := MapAll(data, NodeParser(supported)).value;
    var linked := MapAll(firstPass, LinkReader(DefinedNames(data))).value;
    assert Graph(data, supported).value.1 == Roots(linked);
    PassesKeepNames(data, supported);
    var x := data[k].0;
    RootsMeaning(linked, x);
    if x in Roots(linked) {
      var j :| 0 <= j < |linked| && linked[j].name == x && NoLivePrevious(linked[j]);
      assert data[j].0 == x;
      assert j == k;
    } else {
      assert linked[k].name == x;
    }
  }

  /** Every start node is a node of the graph. */
  lemma GraphRootsAreNodes(data: InputDefinition, supported: Supported, x: string)
    requires Graph(data, supported).Success?
    requires forall i, j :: 0 <= i < j < |data| ==> data[i].0 != data[j].0
    ensures var (arena, roots) := Graph(data, supported).value;
      x in roots ==> x in arena
  {
    var firstPass := MapAll(data, NodeParser(supported)).value;
    var linked := MapAll(firstPass, LinkReader(DefinedNames(data))).value;
    assert Graph(data, supported) == Success((Relinked(NodesMap(firstPass), linked), Roots(linked)));
    if x in Roots(linked) {
      RootsMeaning(linked, x);
      var j :| 0 <= j < |linked| && linked[j].name == x && NoLivePrevious(linked[j]);
      PassesKeepNames(data, supported);
      GraphNodeAt(data, supported, j);
    }
  }

  /** The first pass: every node read and inserted under its name. */
  method ReadNodes(data: InputDefinition, supported: Supported) returns (r: Result<seq<NodeRead>>, graphNodes: Arena)
    ensures r == MapAll(data, NodeParser(supported))
    ensures r.Success? ==> graphNodes == NodesMap(r.value)
  {
    graphNodes := map[];
    var firstPass: seq<NodeRead> := [];
    for i := 0 to |data|
      invariant MapAll(data[..i], NodeParser(supported)) == Success(firstPass)
      invariant graphNodes == NodesMap(firstPass)
    {
      assert data[..i + 1][..i] == data[..i];
      var read := ReadNode(data[i], supported);
      if read.Failure? {
        MapAllPrefixFailure(data, NodeParser(supported), i + 1);
        return Failure(read.error), graphNodes;
      }
      graphNodes := graphNodes[read.value.node.name := read.value.node];
      assert (firstPass + [read.value])[..|firstPass|] == firstPass;
      firstPass := firstPass + [read.value];
    }
    assert data[..|data|] == data;
    r := Success(firstPass);
  }

  /** The second pass: every node linked and replaced under its name. */
  method LinkNodes(firstPass: seq<NodeRead>, names: seq<string>, graphNodes: Arena)
    returns (r: Result<seq<QueryNode>>, linkedNodes: Arena)
    requires forall k :: 0 <= k < |firstPass| ==> firstPass[k].node.previousNodes == [] && firstPass[k].node.nextNodes == []
    ensures r == MapAll(firstPass, LinkReader(names))
    ensures r.Success? ==> linkedNodes == Relinked(graphNodes, r.value)
  {
    linkedNodes := graphNodes;
    var linked: seq<QueryNode> := [];
    for i := 0 to |firstPass|
      invariant MapAll(firstPass[..i], LinkReader(names)) == Success(linked)
      invariant linkedNodes == Relinked(graphNodes, linked)
    {
      assert firstPass[..i + 1][..i] == firstPass[..i];
      var node := LinkNode(firstPass[i], names);
      if node.Failure? {
        MapAllPrefixFailure(firstPass, LinkReader(names), i + 1);
        return Failure(node.error), linkedNodes;
      }
      linkedNodes := linkedNodes[node.value.name := node.value];
      assert (linked + [node.value])[..|linked|] == linked;
      linked := linked + [node.value];
    }
    assert firstPass[..|firstPass|] == firstPass;
    r := Success(linked);
  }

  method HasLivePrevious(node: QueryNode) returns (live: bool)
    ensures live <==> !NoLivePrevious(node)
  {
    live := false;
    for j := 0 to |node.previousNodes|
      invariant live <==> exists m :: 0 <= m < j && node.previousNodes[m].Some?
    {
      if node.previousNodes[j].Some? {
        live := true;
      }
    }
  }

  /** The third pass: the names of the nodes with no live previous
      pointer. */
  method StartNodes(linked: seq<QueryNode>) returns (roots: seq<string>)
    ensures roots == Roots(linked)
  {
    roots := [];
    for i := 0 to |linked|
      invariant roots == Roots(linked[..i])
    {
      assert linked[..i + 1][..i] == linked[..i];
      var live := HasLivePrevious(linked[i]);
      if !live {
        roots := roots + [linked[i].name];
      }
    }
    assert linked[..|linked|] == linked;
  }

  method MakeGraph(data: InputDefinition, supported: Supported) returns (r: Result<(Arena, seq<string>)>)
    ensures r == Graph(data, supported)
  {
    var firstPass, graphNodes := ReadNodes(data, supported);
    if firstPass.Failure? {
      return Failure(firstPass.error);
    }
    MapAllMeaning(data, NodeParser(supported));
    var linked, linkedNodes := LinkNodes(firstPass.value, DefinedNames(data), graphNodes);
    if linked.Failure? {
      return Failure(linked.error);
    }
    var roots := StartNodes(linked.value);
    r := Success((linkedNodes, roots));
  }
}
