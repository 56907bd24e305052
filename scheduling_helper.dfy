/** The C++ scheduling helpers (query_scheduling_helper.cpp): stream-index
    lookup, the sortedness test, propagation of table names to successors,
    node availability and removal of a one-in, one-out node. */
module SchedulingHelper {
  import opened Wrappers
  import opened CoreTypes

  const MULTIPLE_INPUTS := "Currently can't support the same module taking multiple inputs from another module!"
  const NO_CURRENT_NODE := "No current node found!"
  const NO_DEPENDENCY := "No next nodes found with the expected dependency"
  const ONE_IN_ONE_OUT := "Only nodes with one input and one output are supported!"

  // ---------------------------------------------------------------------
  // FindNodePtrIndex

  /** The indexes at which `nexts` points to `current`, ascending. */
  function Matches(nexts: seq<Option<string>>, current: string): (r: seq<int>)
    ensures forall k :: 0 <= k < |r| ==> 0 <= r[k] < |nexts| && nexts[r[k]] == Some(current)
    ensures forall i :: 0 <= i < |nexts| && nexts[i] == Some(current) ==> i in r
    ensures forall k, l :: 0 <= k < l < |r| ==> r[k] < r[l]
  {
    if |nexts| == 0 then []
    else
      var m := Matches(nexts[..|nexts| - 1], current);
      if nexts[|nexts| - 1] == Some(current) then m + [|nexts| - 1] else m
  }

  /** The scan of FindNodePtrIndex over a prefix of the successor list:
      the index found so far (-1 for none), or the error on a second match. */
  function ScanForNode(nexts: seq<Option<string>>, current: string): Result<int>
  {
    if |nexts| == 0 then Success(-1)
    else
      var index :- ScanForNode(nexts[..|nexts| - 1], current);
      if nexts[|nexts| - 1] == Some(current) then
        (if index != -1 then Failure(MULTIPLE_INPUTS) else Success(|nexts| - 1))
      else Success(index)
  }

  lemma {:induction false} ScanForNodeMeaning(nexts: seq<Option<string>>, current: string)
    ensures ScanForNode(nexts, current) ==
      var m := Matches(nexts, current);
      if |m| >= 2 then Failure(MULTIPLE_INPUTS) else if |m| == 0 then Success(-1) else Success(m[0])
  {
    if |nexts| > 0 {
      ScanForNodeMeaning(nexts[..|nexts| - 1], current);
    }
  }

  /** FindNodePtrIndex: the unique position of `current` among the
      successors of the previous node; an error when there is none or more
      than one. */
  function FindNodePtrIndex(current: string, previousNexts: seq<Option<string>>): (r: Result<int>)
    ensures r.Success? <==> |Matches(previousNexts, current)| == 1
    ensures r.Success? ==> 0 <= r.value < |previousNexts| && previousNexts[r.value] == Some(current)
    ensures r.Success? ==> forall i :: 0 <= i < |previousNexts| && i != r.value ==> previousNexts[i] != Some(current)
    ensures r.Failure? ==>
      r.error == (if |Matches(previousNexts, current)| == 0 then NO_CURRENT_NODE else MULTIPLE_INPUTS)
  {
    ScanForNodeMeaning(previousNexts, current);
    var index :- ScanForNode(previousNexts, current);
    if index == -1 then Failure(NO_CURRENT_NODE) else Success(index)
  }

  // ---------------------------------------------------------------------
  // IsTableSorted

  /** IsTableSorted: an empty table, or a four-entry status whose sequence
      length covers every record. */
  predicate IsTableSorted(t: TableMetadata) {
    t.recordCount == 0 || (|t.sortedStatus| == 4 && t.sortedStatus[2] == t.recordCount)
  }

  /** The one-entry "fully sorted" status is not recognised as sorted by
      IsTableSorted unless the table is empty. */
  lemma OneEntryStatusIsNotSorted(t: TableMetadata)
    requires t.sortedStatus == [t.recordCount]
    ensures IsTableSorted(t) <==> t.recordCount == 0
  {
  }

  // ---------------------------------------------------------------------
  // GetCurrentNodeIndexesByName

  /** The (position, stream index) pairs of `before` that name `current`,
      in ascending position. */
  function IndexesNaming(before: seq<(string, int)>, current: string): (r: seq<(int, int)>)
    ensures forall k :: 0 <= k < |r| ==> 0 <= r[k].0 < |before| && before[r[k].0] == (current, r[k].1)
    ensures forall i :: 0 <= i < |before| && before[i].0 == current ==> (i, before[i].1) in r
    ensures forall k, l :: 0 <= k < l < |r| ==> r[k].0 < r[l].0
  {
    if |before| == 0 then []
    else
      var m := IndexesNaming(before[..|before| - 1], current);
      if before[|before| - 1].0 == current then m + [(|before| - 1, before[|before| - 1].1)] else m
  }

  /** GetCurrentNodeIndexesByName: every input slot of `next` fed by
      `current`, with its stream index; an error when there is none. */
  function GetCurrentNodeIndexesByName(g: SchedulingGraph, next: string, current: string): (r: Result<seq<(int, int)>>)
    ensures r.Success? <==> next in g && exists i :: 0 <= i < |g[next].beforeNodes| && g[next].beforeNodes[i].0 == current
    ensures r.Success? ==> r.value == IndexesNaming(g[next].beforeNodes, current) && |r.value| > 0
    ensures r.Failure? ==> r.error == (if next in g then NO_DEPENDENCY else "out_of_range")
  {
    if next !in g then Failure("out_of_range")
    else
      var found := IndexesNaming(g[next].beforeNodes, current);
      if |found| == 0 then Failure(NO_DEPENDENCY)
      else
        assert found[0] in found;
        Success(found)
  }

  // ---------------------------------------------------------------------
  // AddNewTableToNextNodes

  /** Bind input slot `slot` of node `next` to `name`. */
  function SetSlot(g: SchedulingGraph, next: string, slot: int, name: string): SchedulingGraph
    requires next in g && 0 <= slot < |g[next].dataTables|
  {
    g[next := g[next].(dataTables := g[next].dataTables[slot := name])]
  }

  /** The inner loop of AddNewTableToNextNodes over the slots of one
      successor: false at the first slot that already holds its name. */
  function WriteSlots(g: SchedulingGraph, next: string, pairs: seq<(int, int)>, names: seq<string>)
    : Result<(SchedulingGraph, bool)>
    requires next in g
    decreases |pairs|
  {
    if |pairs| == 0 then Success((g, true))
    else
      var slot :- At(g[next].dataTables, pairs[0].0);
      var name :- At(names, pairs[0].1);
      if slot == name then Success((g, false))
      else WriteSlots(SetSlot(g, next, pairs[0].0, name), next, pairs[1..], names)
  }

  /** The outer loop of AddNewTableToNextNodes over the remaining
      successors of `node`. */
  function WriteSuccessors(g: SchedulingGraph, node: string, afters: seq<string>, names: seq<string>)
    : Result<(SchedulingGraph, bool)>
    decreases |afters|
  {
    if |afters| == 0 then Success((g, true))
    else if afters[0] == "" then WriteSuccessors(g, node, afters[1..], names)
    else
      var pairs :- GetCurrentNodeIndexesByName(g, afters[0], node);
      var written :- WriteSlots(g, afters[0], pairs, names);
      if !written.1 then Success(written) else WriteSuccessors(written.0, node, afters[1..], names)
  }

  function AddNewTables(g: SchedulingGraph, node: string, names: seq<string>): Result<(SchedulingGraph, bool)> {
    if node !in g then Failure("out_of_range") else WriteSuccessors(g, node, g[node].afterNodes, names)
  }

  /** AddNewTableToNextNodes: binds each input slot that `node` feeds to
      the table name of its stream, stopping with false at the first slot
      already bound to that name. */
  method AddNewTableToNextNodes(g: SchedulingGraph, node: string, names: seq<string>)
    returns (r: Result<(SchedulingGraph, bool)>)
    ensures r == AddNewTables(g, node, names)
  {
    if node !in g {
      return Failure("out_of_range");
    }
    var graph := g;
    var afters := g[node].afterNodes;
    var i := 0;
    while i < |afters|
      invariant 0 <= i <= |afters|
      invariant WriteSuccessors(g, node, afters, names) == WriteSuccessors(graph, node, afters[i..], names)
    {
      assert afters[i..][1..] == afters[i + 1..];
      var next := afters[i];
      if next != "" {
        var pairs := GetCurrentNodeIndexesByName(graph, next, node);
        if pairs.Failure? {
          return Failure(pairs.error);
        }
        var j := 0;
        ghost var before := graph;
        while j < |pairs.value|
          invariant 0 <= j <= |pairs.value| && next in graph
          invariant WriteSlots(before, next, pairs.value, names) == WriteSlots(graph, next, pairs.value[j..], names)
        {
          assert pairs.value[j..][1..] == pairs.value[j + 1..];
          var slot := At(graph[next].dataTables, pairs.value[j].0);
          if slot.Failure? {
            return Failure(slot.error);
          }
          var name := At(names, pairs.value[j].1);
          if name.Failure? {
            return Failure(name.error);
          }
          if slot.value == name.value {
            return Success((graph, false));
          }
          graph := SetSlot(graph, next, pairs.value[j].0, name.value);
          j := j + 1;
        }
      }
      i := i + 1;
    }
    r := Success((graph, true));
  }

  /** Two graphs with the same nodes that differ at most in the tables
      bound to input slots. */
  predicate SameShape(g: SchedulingGraph, h: SchedulingGraph) {
    g.Keys == h.Keys &&
    forall n :: n in g ==> h[n].(dataTables := g[n].dataTables) == g[n] && |h[n].dataTables| == |g[n].dataTables|
  }

  /** The input slots of `next` that `node` feeds. */
  function LinkedSlots(g: SchedulingGraph, next: string, node: string): set<int>
    requires next in g
  {
    set i | 0 <= i < |g[next].beforeNodes| && g[next].beforeNodes[i].0 == node
  }

  lemma SameShapeTransitive(a: SchedulingGraph, b: SchedulingGraph, c: SchedulingGraph)
    requires SameShape(a, b) && SameShape(b, c)
    ensures SameShape(a, c)
  {
    forall n | n in a
      ensures c[n].(dataTables := a[n].dataTables) == a[n]
    {
      assert c[n].(dataTables := a[n].dataTables) == c[n].(dataTables := b[n].dataTables).(dataTables := a[n].dataTables);
    }
  }

  /** The slot loop writes the listed slots of one successor and nothing
      else; on true every listed slot holds its stream's name. */
  lemma {:induction false} WriteSlotsEffect(g: SchedulingGraph, next: string, pairs: seq<(int, int)>, names: seq<string>)
    requires next in g
    requires forall k, l :: 0 <= k < l < |pairs| ==> pairs[k].0 < pairs[l].0
    requires WriteSlots(g, next, pairs, names).Success?
    ensures var h := WriteSlots(g, next, pairs, names).value.0;
      SameShape(g, h) &&
      (forall n :: n in g && n != next ==> h[n] == g[n]) &&
      (forall i :: 0 <= i < |g[next].dataTables| && (forall k :: 0 <= k < |pairs| ==> pairs[k].0 != i) ==>
        h[next].dataTables[i] == g[next].dataTables[i]) &&
      (WriteSlots(g, next, pairs, names).value.1 ==>
        forall k :: 0 <= k < |pairs| ==>
          (0 <= pairs[k].0 < |h[next].dataTables| && 0 <= pairs[k].1 < |names| &&
           h[next].dataTables[pairs[k].0] == names[pairs[k].1]))
  {
    if |pairs| > 0 {
      var slot := At(g[next].dataTables, pairs[0].0);
      var name := At(names, pairs[0].1);
      if slot.value != name.value {
        var g1 := SetSlot(g, next, pairs[0].0, name.value);
        WriteSlotsEffect(g1, next, pairs[1..], names);
        var h := WriteSlots(g1, next, pairs[1..], names).value.0;
        SameShapeTransitive(g, g1, h);
        if WriteSlots(g, next, pairs, names).value.1 {
          forall k | 0 <= k < |pairs|
            ensures 0 <= pairs[k].0 < |h[next].dataTables| && 0 <= pairs[k].1 < |names| &&
              h[next].dataTables[pairs[k].0] == names[pairs[k].1]
          {
            if k > 0 {
              assert pairs[1..][k - 1] == pairs[k];
            } else {
              forall k' | 0 <= k' < |pairs[1..]|
                ensures pairs[1..][k'].0 != pairs[0].0
              {
                assert pairs[1..][k'] == pairs[k' + 1];
              }
            }
          }
        }
        forall i | 0 <= i < |g[next].dataTables| && (forall k :: 0 <= k < |pairs| ==> pairs[k].0 != i)
          ensures h[next].dataTables[i] == g[next].dataTables[i]
        {
          assert pairs[0].0 != i;
          forall k' | 0 <= k' < |pairs[1..]|
            ensures pairs[1..][k'].0 != i
          {
            assert pairs[1..][k'] == pairs[k' + 1];
          }
        }
      }
    }
  }

  /** Graphs of the same shape have the same edges. */
  lemma SameShapeKeepsLinks(g: SchedulingGraph, h: SchedulingGraph, node: string)
    requires SameShape(g, h)
    ensures forall n :: n in g ==> h[n].beforeNodes == g[n].beforeNodes && LinkedSlots(h, n, node) == LinkedSlots(g, n, node)
  {
    forall n | n in g
      ensures h[n].beforeNodes == g[n].beforeNodes
    {
      assert h[n].(dataTables := g[n].dataTables).beforeNodes == h[n].beforeNodes;
    }
  }

  /** The pairs GetCurrentNodeIndexesByName returns are exactly the linked
      slots. */
  lemma PairsCoverLinkedSlots(g: SchedulingGraph, next: string, node: string)
    requires GetCurrentNodeIndexesByName(g, next, node).Success?
    ensures var pairs := GetCurrentNodeIndexesByName(g, next, node).value;
      forall i :: i in LinkedSlots(g, next, node) <==> exists k :: 0 <= k < |pairs| && pairs[k].0 == i
  {
    var pairs := GetCurrentNodeIndexesByName(g, next, node).value;
    forall i | i in LinkedSlots(g, next, node)
      ensures exists k :: 0 <= k < |pairs| && pairs[k].0 == i
    {
      var k :| 0 <= k < |pairs| && pairs[k] == (i, g[next].beforeNodes[i].1);
    }
  }

  /** The successor loop changes only input-slot bindings: slots that
      `node` does not feed keep their tables, and nodes that are not
      listed keep theirs. */
  lemma {:induction false} WriteSuccessorsFrame(g: SchedulingGraph, node: string, afters: seq<string>, names: seq<string>)
    requires WriteSuccessors(g, node, afters, names).Success?
    ensures var h := WriteSuccessors(g, node, afters, names).value.0;
      SameShape(g, h) &&
      (forall n :: n in g && n !in afters ==> h[n] == g[n]) &&
      (forall n, i :: n in g && 0 <= i < |g[n].dataTables| && i !in LinkedSlots(g, n, node) ==>
        h[n].dataTables[i] == g[n].dataTables[i])
  {
    if |afters| > 0 {
      if afters[0] == "" {
        WriteSuccessorsFrame(g, node, afters[1..], names);
        assert forall n :: n !in afters ==> n !in afters[1..];
      } else {
        var next := afters[0];
        var pairs := GetCurrentNodeIndexesByName(g, next, node).value;
        var written := WriteSlots(g, next, pairs, names).value;
        WriteSlotsEffect(g, next, pairs, names);
        PairsCoverLinkedSlots(g, next, node);
        if written.1 {
          var g1 := written.0;
          WriteSuccessorsFrame(g1, node, afters[1..], names);
          var h := WriteSuccessors(g1, node, afters[1..], names).value.0;
          SameShapeTransitive(g, g1, h);
          SameShapeKeepsLinks(g, g1, node);
          assert forall n :: n !in afters ==> n !in afters[1..] && n != next;
        }
      }
    }
  }

  /** Once the slots of `next` hold their names, a later visit to `next`
      finds its first slot already bound and answers false, so a run that
      ends in true does not visit `next` again. */
  lemma {:induction false} LaterSuccessorsAreNew(g: SchedulingGraph, node: string, afters: seq<string>, names: seq<string>,
                                                 next: string)
    requires WriteSuccessors(g, node, afters, names).Success? && WriteSuccessors(g, node, afters, names).value.1
    requires next in g && next != ""
    requires forall i :: i in LinkedSlots(g, next, node) ==>
      0 <= g[next].beforeNodes[i].1 < |names| && i < |g[next].dataTables| &&
      g[next].dataTables[i] == names[g[next].beforeNodes[i].1]
    ensures next !in afters
  {
    if |afters| > 0 {
      if afters[0] == "" {
        LaterSuccessorsAreNew(g, node, afters[1..], names, next);
      } else {
        var n0 := afters[0];
        var pairs := GetCurrentNodeIndexesByName(g, n0, node).value;
        if n0 == next {
          assert false;
        }
        var written := WriteSlots(g, n0, pairs, names).value;
        WriteSlotsEffect(g, n0, pairs, names);
        assert written.0[next] == g[next];
        LaterSuccessorsAreNew(written.0, node, afters[1..], names, next);
      }
    }
  }

  /** On true every listed successor of `node` holds, on each input slot
      `node` feeds, the table name of that slot's stream. */
  lemma {:induction false} WriteSuccessorsBinds(g: SchedulingGraph, node: string, afters: seq<string>, names: seq<string>)
    requires WriteSuccessors(g, node, afters, names).Success? && WriteSuccessors(g, node, afters, names).value.1
    ensures var h := WriteSuccessors(g, node, afters, names).value.0;
      forall k, i :: 0 <= k < |afters| && afters[k] != "" && afters[k] in g && i in LinkedSlots(g, afters[k], node) ==>
        (afters[k] in h && 0 <= g[afters[k]].beforeNodes[i].1 < |names| && i < |h[afters[k]].dataTables| &&
         h[afters[k]].dataTables[i] == names[g[afters[k]].beforeNodes[i].1])
  {
    if |afters| > 0 {
      var h := WriteSuccessors(g, node, afters, names).value.0;
      if afters[0] == "" {
        WriteSuccessorsBinds(g, node, afters[1..], names);
        forall k | 0 < k < |afters|
          ensures afters[1..][k - 1] == afters[k]
        {
        }
      } else {
        var next := afters[0];
        var pairs := GetCurrentNodeIndexesByName(g, next, node).value;
        var g1 := WriteSlots(g, next, pairs, names).value.0;
        WriteSlotsEffect(g, next, pairs, names);
        SameShapeKeepsLinks(g, g1, node);
        WriteSuccessorsBinds(g1, node, afters[1..], names);
        FirstSuccessorBound(g, node, afters, names);
        forall k | 0 < k < |afters|
          ensures afters[1..][k - 1] == afters[k]
        {
        }
      }
    }
  }

  /** The first listed successor stays bound to the run's table names. */
  lemma FirstSuccessorBound(g: SchedulingGraph, node: string, afters: seq<string>, names: seq<string>)
    requires |afters| > 0 && afters[0] != ""
    requires WriteSuccessors(g, node, afters, names).Success? && WriteSuccessors(g, node, afters, names).value.1
    ensures var h := WriteSuccessors(g, node, afters, names).value.0;
      afters[0] in g && afters[0] in h &&
      forall i :: i in LinkedSlots(g, afters[0], node) ==>
        (0 <= g[afters[0]].beforeNodes[i].1 < |names| && i < |h[afters[0]].dataTables| &&
         h[afters[0]].dataTables[i] == names[g[afters[0]].beforeNodes[i].1])
  {
    var next := afters[0];
    var pairs := GetCurrentNodeIndexesByName(g, next, node).value;
    var g1 := WriteSlots(g, next, pairs, names).value.0;
    WriteSlotsEffect(g, next, pairs, names);
    PairsCoverLinkedSlots(g, next, node);
    forall i | i in LinkedSlots(g, next, node)
      ensures 0 <= g[next].beforeNodes[i].1 < |names| && i < |g1[next].dataTables| &&
        g1[next].dataTables[i] == names[g[next].beforeNodes[i].1]
    {
      var p :| 0 <= p < |pairs| && pairs[p].0 == i;
      assert pairs[p] == (i, g[next].beforeNodes[i].1);
    }
    SameShapeKeepsLinks(g, g1, node);
    LaterSuccessorsAreNew(g1, node, afters[1..], names, next);
    WriteSuccessorsFrame(g1, node, afters[1..], names);
  }

  /** The slot loop answers false only at a slot that already holds the
      name of its stream. */
  lemma {:induction false} WriteSlotsStops(g: SchedulingGraph, next: string, pairs: seq<(int, int)>, names: seq<string>)
    requires next in g
    requires WriteSlots(g, next, pairs, names).Success? && !WriteSlots(g, next, pairs, names).value.1
    ensures var h := WriteSlots(g, next, pairs, names).value.0;
      next in h &&
      exists k :: 0 <= k < |pairs| && 0 <= pairs[k].0 < |h[next].dataTables| && 0 <= pairs[k].1 < |names| &&
                  h[next].dataTables[pairs[k].0] == names[pairs[k].1]
  {
    var slot := At(g[next].dataTables, pairs[0].0);
    var name := At(names, pairs[0].1);
    if slot.value != name.value {
      var g1 := SetSlot(g, next, pairs[0].0, name.value);
      WriteSlotsStops(g1, next, pairs[1..], names);
      var h := WriteSlots(g1, next, pairs[1..], names).value.0;
      var k :| 0 <= k < |pairs[1..]| && 0 <= pairs[1..][k].0 < |h[next].dataTables| && 0 <= pairs[1..][k].1 < |names| &&
        h[next].dataTables[pairs[1..][k].0] == names[pairs[1..][k].1];
      assert pairs[1..][k] == pairs[k + 1];
    }
  }

  /** The successor loop answers false only at an input slot fed by
      `node` that already holds the name of its stream. */
  lemma {:induction false} WriteSuccessorsStops(g: SchedulingGraph, node: string, afters: seq<string>, names: seq<string>)
    requires WriteSuccessors(g, node, afters, names).Success? && !WriteSuccessors(g, node, afters, names).value.1
    ensures var h := WriteSuccessors(g, node, afters, names).value.0;
      exists n, i :: n in afters && n in g && n in h && i in LinkedSlots(g, n, node) &&
        0 <= g[n].beforeNodes[i].1 < |names| && i < |h[n].dataTables| &&
        h[n].dataTables[i] == names[g[n].beforeNodes[i].1]
  {
    if afters[0] == "" {
      WriteSuccessorsStops(g, node, afters[1..], names);
      var h := WriteSuccessors(g, node, afters, names).value.0;
      var n, i :| n in afters[1..] && n in g && n in h && i in LinkedSlots(g, n, node) &&
        0 <= g[n].beforeNodes[i].1 < |names| && i < |h[n].dataTables| &&
        h[n].dataTables[i] == names[g[n].beforeNodes[i].1];
      assert n in afters;
    } else {
      var next := afters[0];
      var pairs := GetCurrentNodeIndexesByName(g, next, node).value;
      var written := WriteSlots(g, next, pairs, names).value;
      if !written.1 {
        FirstSuccessorStops(g, node, next, names);
        var h := written.0;
        var i :| i in LinkedSlots(g, next, node) && 0 <= g[next].beforeNodes[i].1 < |names| &&
          i < |h[next].dataTables| && h[next].dataTables[i] == names[g[next].beforeNodes[i].1];
        assert next in afters;
      } else {
        WriteSlotsEffect(g, next, pairs, names);
        WriteSuccessorsStops(written.0, node, afters[1..], names);
        var h := WriteSuccessors(written.0, node, afters[1..], names).value.0;
        LaterSuccessorStops(g, written.0, h, node, afters[1..], names);
        var n, i :| n in afters[1..] && n in g && n in h && i in LinkedSlots(g, n, node) &&
          0 <= g[n].beforeNodes[i].1 < |names| && i < |h[n].dataTables| &&
          h[n].dataTables[i] == names[g[n].beforeNodes[i].1];
        assert n in afters;
      }
    }
  }

  /** The slot loop of one successor that answers false stops at a slot
      `node` feeds. */
  lemma FirstSuccessorStops(g: SchedulingGraph, node: string, next: string, names: seq<string>)
    requires next in g && GetCurrentNodeIndexesByName(g, next, node).Success?
    requires WriteSlots(g, next, GetCurrentNodeIndexesByName(g, next, node).value, names).Success?
    requires !WriteSlots(g, next, GetCurrentNodeIndexesByName(g, next, node).value, names).value.1
    ensures var h := WriteSlots(g, next, GetCurrentNodeIndexesByName(g, next, node).value, names).value.0;
      next in h &&
      exists i :: i in LinkedSlots(g, next, node) && 0 <= g[next].beforeNodes[i].1 < |names| &&
        i < |h[next].dataTables| && h[next].dataTables[i] == names[g[next].beforeNodes[i].1]
  {
    var pairs := GetCurrentNodeIndexesByName(g, next, node).value;
    var h := WriteSlots(g, next, pairs, names).value.0;
    WriteSlotsStops(g, next, pairs, names);
    var k :| 0 <= k < |pairs| && 0 <= pairs[k].0 < |h[next].dataTables| && 0 <= pairs[k].1 < |names| &&
      h[next].dataTables[pairs[k].0] == names[pairs[k].1];
    assert pairs[k] == (pairs[k].0, g[next].beforeNodes[pairs[k].0].1);
    assert pairs[k].0 in LinkedSlots(g, next, node);
  }

  /** A stop found after the first successor's slots were rewritten is a
      stop in the original graph's terms, since those writes keep every
      node's links. */
  lemma LaterSuccessorStops(g: SchedulingGraph, w: SchedulingGraph, h: SchedulingGraph, node: string,
                            rest: seq<string>, names: seq<string>)
    requires SameShape(g, w)
    requires exists n, i :: n in rest && n in w && n in h && i in LinkedSlots(w, n, node) &&
                            0 <= w[n].beforeNodes[i].1 < |names| && i < |h[n].dataTables| &&
                            h[n].dataTables[i] == names[w[n].beforeNodes[i].1]
    ensures exists n, i :: n in rest && n in g && n in h && i in LinkedSlots(g, n, node) &&
                           0 <= g[n].beforeNodes[i].1 < |names| && i < |h[n].dataTables| &&
                           h[n].dataTables[i] == names[g[n].beforeNodes[i].1]
  {
    SameShapeKeepsLinks(g, w, node);
    var n, i :| n in rest && n in w && n in h && i in LinkedSlots(w, n, node) &&
      0 <= w[n].beforeNodes[i].1 < |names| && i < |h[n].dataTables| &&
      h[n].dataTables[i] == names[w[n].beforeNodes[i].1];
    assert n in g;
  }

  /** AddNewTableToNextNodes (via AddNewTables) changes only the tables
      bound to input slots that `node` feeds in its listed successors.  On
      true every such slot holds its stream's table name; on false some
      such slot already held it. */
  lemma AddNewTablesEffect(g: SchedulingGraph, node: string, names: seq<string>)
    requires AddNewTables(g, node, names).Success?
    ensures node in g
    ensures var h := AddNewTables(g, node, names).value.0;
      SameShape(g, h) &&
      (forall n :: n in g && n !in g[node].afterNodes ==> h[n] == g[n]) &&
      (forall n, i :: n in g && 0 <= i < |g[n].dataTables| && i !in LinkedSlots(g, n, node) ==>
        h[n].dataTables[i] == g[n].dataTables[i])
    ensures var (h, ok) := AddNewTables(g, node, names).value;
      ok ==> forall n, i :: n in g[node].afterNodes && n != "" && n in g && i in LinkedSlots(g, n, node) ==>
        (0 <= g[n].beforeNodes[i].1 < |names| && i < |h[n].dataTables| &&
         h[n].dataTables[i] == names[g[n].beforeNodes[i].1])
    ensures var (h, ok) := AddNewTables(g, node, names).value;
      !ok ==>
        exists n, i :: n in g[node].afterNodes && n in g && i in LinkedSlots(g, n, node) &&
                       0 <= g[n].beforeNodes[i].1 < |names| && i < |h[n].dataTables| &&
                       h[n].dataTables[i] == names[g[n].beforeNodes[i].1]
  {
    var afters := g[node].afterNodes;
    WriteSuccessorsFrame(g, node, afters, names);
    if AddNewTables(g, node, names).value.1 {
      WriteSuccessorsBinds(g, node, afters, names);
      forall n, i | n in afters && n != "" && n in g && i in LinkedSlots(g, n, node)
        ensures exists k :: 0 <= k < |afters| && afters[k] == n
      {
      }
    } else {
      WriteSuccessorsStops(g, node, afters, names);
    }
  }

  // ---------------------------------------------------------------------
  // Availability

  /** The nodes that become available once `node` is processed: its
      non-empty successors all of whose named predecessors are past. */
  function NewlyAvailable(g: SchedulingGraph, node: string, past: set<string>): set<string>
    requires node in g
  {
    set n | n in g[node].afterNodes && n != "" && n in g &&
      forall k :: 0 <= k < |g[n].beforeNodes| ==> g[n].beforeNodes[k].0 == "" || g[n].beforeNodes[k].0 in past
  }

  /** GetNewAvailableNodesAfterSchedulingGivenNode. */
  method GetNewAvailableNodesAfterSchedulingGivenNode(node: string, past: set<string>, g: SchedulingGraph)
    returns (r: Result<set<string>>)
    ensures r.Success? <==> node in g && forall n :: n in g[node].afterNodes && n != "" ==> n in g
    ensures r.Failure? ==> r.error == "out_of_range"
    ensures r.Success? ==> r.value == NewlyAvailable(g, node, past)
  {
    if node !in g {
      return Failure("out_of_range");
    }
    var afters := g[node].afterNodes;
    var potential := set n | n in afters;
    var i := 0;
    while i < |afters|
      invariant 0 <= i <= |afters|
      invariant forall n :: n in afters[..i] && n != "" ==> n in g
      invariant forall n :: n in potential <==>
        (n in afters &&
         (n in afters[..i] && n != "" ==> forall k :: 0 <= k < |g[n].beforeNodes| ==>
           g[n].beforeNodes[k].0 == "" || g[n].beforeNodes[k].0 in past))
    {
      var name := afters[i];
      if name != "" {
        if name !in g {
          return Failure("out_of_range");
        }
        var before := g[name].beforeNodes;
        var j := 0;
        while j < |before|
          invariant 0 <= j <= |before|
          invariant forall n :: n in potential <==>
            (n in afters &&
             (n in afters[..i] && n != "" ==> forall k :: 0 <= k < |g[n].beforeNodes| ==>
               g[n].beforeNodes[k].0 == "" || g[n].beforeNodes[k].0 in past) &&
             (n == name ==> forall k :: 0 <= k < j ==> before[k].0 == "" || before[k].0 in past))
        {
          if before[j].0 != "" && before[j].0 !in past {
            potential := potential - {name};
          }
          j := j + 1;
        }
      }
      assert afters[..i + 1] == afters[..i] + [afters[i]];
      i := i + 1;
    }
    assert afters[..i] == afters;
    r := Success(potential - {""});
  }

  /** Every named predecessor that is a node of the graph lists the node
      among its successors. */
  predicate Consistent(g: SchedulingGraph) {
    forall n, k :: n in g && 0 <= k < |g[n].beforeNodes| && g[n].beforeNodes[k].0 in g ==>
      n in g[g[n].beforeNodes[k].0].afterNodes
  }

  /** Marking `c` as past makes available, among the successors of any
      node, only successors of `c`. */
  lemma NewlyAvailableStep(g: SchedulingGraph, a: string, past: set<string>, c: string)
    requires Consistent(g) && a in g && c in g
    ensures NewlyAvailable(g, a, past + {c}) <= NewlyAvailable(g, a, past) + NewlyAvailable(g, c, past + {c})
  {
    forall x | x in NewlyAvailable(g, a, past + {c}) && x !in NewlyAvailable(g, a, past)
      ensures x in NewlyAvailable(g, c, past + {c})
    {
      var k :| 0 <= k < |g[x].beforeNodes| && g[x].beforeNodes[k].0 != "" && g[x].beforeNodes[k].0 !in past;
      assert g[x].beforeNodes[k].0 == c;
    }
  }

  /** The nodes of a sequence as a set. */
  ghost function NodesOf(s: seq<string>): set<string> {
    set x | x in s
  }

  /** Node `x` was made available by `node` when `why` is -1, and
      otherwise by the `why`-th node of `order`, the past nodes being
      `past` and the nodes of `order` up to that one. */
  ghost predicate MadeAvailable(g: SchedulingGraph, node: string, past: set<string>, order: seq<string>,
                                x: string, why: int) {
    node in g && -1 <= why < |order| &&
    (why == -1 ==> x in NewlyAvailable(g, node, past)) &&
    (why >= 0 ==> order[why] in g && x in NewlyAvailable(g, order[why], past + NodesOf(order[..why + 1])))
  }

  /** `order` lists nodes each made available by `node` or, as `reason`
      says, by a node listed before it. */
  ghost predicate Discovered(g: SchedulingGraph, node: string, past: set<string>, order: seq<string>, reason: seq<int>) {
    |reason| == |order| &&
    forall i :: 0 <= i < |order| ==> MadeAvailable(g, node, past, order[..i], order[i], reason[i])
  }

  lemma MadeAvailableExtends(g: SchedulingGraph, node: string, past: set<string>, order: seq<string>,
                             c: string, x: string, why: int)
    requires MadeAvailable(g, node, past, order, x, why)
    ensures MadeAvailable(g, node, past, order + [c], x, why)
  {
    if why >= 0 {
      assert (order + [c])[..why + 1] == order[..why + 1];
    }
  }

  lemma DiscoveredExtends(g: SchedulingGraph, node: string, past: set<string>, order: seq<string>, reason: seq<int>,
                          c: string, why: int)
    requires Discovered(g, node, past, order, reason) && MadeAvailable(g, node, past, order, c, why)
    ensures Discovered(g, node, past, order + [c], reason + [why])
  {
    var order' := order + [c];
    forall i | 0 <= i < |order'|
      ensures MadeAvailable(g, node, past, order'[..i], order'[i], (reason + [why])[i])
    {
      if i < |order| {
        assert order'[..i] == order[..i];
      } else {
        assert order'[..i] == order;
      }
    }
  }

  /** The worklist's pending nodes are each made available by `node` or
      a processed node. */
  ghost predicate Pending(g: SchedulingGraph, node: string, past: set<string>, order: seq<string>,
                          ignored: set<string>, why: map<string, int>) {
    forall x :: x in ignored ==> x in why && MadeAvailable(g, node, past, order, x, why[x])
  }

  /** Processing `c`, the last node of `order`, keeps every pending node
      justified and justifies the nodes it makes available. */
  lemma PendingStep(g: SchedulingGraph, node: string, past: set<string>, order: seq<string>,
                    ignored: set<string>, why: map<string, int>, c: string, more: set<string>)
    requires Pending(g, node, past, order, ignored, why) && node in g && c in g
    requires more == NewlyAvailable(g, c, past + NodesOf(order + [c]))
    ensures Pending(g, node, past, order + [c], (ignored - {c}) + more, why + map x | x in more :: |order|)
  {
    var order' := order + [c];
    var why' := why + map x | x in more :: |order|;
    forall x | x in (ignored - {c}) + more
      ensures x in why' && MadeAvailable(g, node, past, order', x, why'[x])
    {
      if x in more {
        assert order'[..|order| + 1] == order';
      } else {
        MadeAvailableExtends(g, node, past, order, c, x, why[x]);
      }
    }
  }

  /** Processing `c` keeps every processed node's newly available
      successors processed or pending. */
  lemma ClosedStep(g: SchedulingGraph, node: string, past: set<string>, oldPast: set<string>,
                   ignored: set<string>, c: string, more: set<string>)
    requires node in g && c in g && c in ignored && oldPast - past <= g.Keys
    requires Consistent(g) ==>
      forall a :: a in (oldPast - past) + {node} ==> NewlyAvailable(g, a, oldPast) <= oldPast + ignored
    requires more == NewlyAvailable(g, c, oldPast + {c})
    ensures Consistent(g) ==>
      forall a :: a in (oldPast + {c} - past) + {node} ==>
        NewlyAvailable(g, a, oldPast + {c}) <= oldPast + {c} + (ignored - {c}) + more
  {
    if Consistent(g) {
      forall a | a in (oldPast + {c} - past) + {node}
        ensures NewlyAvailable(g, a, oldPast + {c}) <= oldPast + {c} + (ignored - {c}) + more
      {
        if a != c {
          NewlyAvailableStep(g, a, oldPast, c);
        }
      }
    }
  }

  /** The state of the worklist loop: the processed nodes `newPast` are
      `past` and the nodes of `order`, each discovered from `node`; the
      pending nodes `ignored` are each justified by `why`; the nodes that
      left the available set were processed; and, on a consistent graph,
      every processed node's newly available successors are processed or
      pending. */
  ghost predicate Worklist(g: SchedulingGraph, node: string, past: set<string>, available: set<string>,
                           first: set<string>, order: seq<string>, reason: seq<int>, why: map<string, int>,
                           ignored: set<string>, newPast: set<string>, newAvailable: set<string>) {
    node in g &&
    newPast == past + NodesOf(order) && Discovered(g, node, past, order, reason) &&
    Pending(g, node, past, order, ignored, why) &&
    past <= newPast && newAvailable <= available && available - newAvailable <= newPast &&
    newPast - past <= g.Keys && (newPast - past) !! newAvailable && ignored <= g.Keys &&
    first <= newPast + ignored &&
    (Consistent(g) ==>
      forall a :: a in (newPast - past) + {node} ==> NewlyAvailable(g, a, newPast) <= newPast + ignored)
  }

  /** One iteration of the worklist loop, processing pending node `c`. */
  lemma WorklistStep(g: SchedulingGraph, node: string, past: set<string>, available: set<string>,
                     first: set<string>, order: seq<string>, reason: seq<int>, why: map<string, int>,
                     ignored: set<string>, newPast: set<string>, newAvailable: set<string>,
                     c: string, more: set<string>)
    requires Worklist(g, node, past, available, first, order, reason, why, ignored, newPast, newAvailable)
    requires c in ignored && more == NewlyAvailable(g, c, newPast + {c})
    ensures Worklist(g, node, past, available, first, order + [c], reason + [why[c]],
                     why + map x | x in more :: |order|, (ignored - {c}) + more,
                     newPast + {c}, newAvailable - {c})
  {
    DiscoveredExtends(g, node, past, order, reason, c, why[c]);
    assert NodesOf(order + [c]) == NodesOf(order) + {c};
    PendingStep(g, node, past, order, ignored, why, c, more);
    ClosedStep(g, node, past, newPast, ignored, c, more);
  }

  /** SetAllNodesAsProcessedAfterGivenNode: the nodes that become
      available after `node` are processed one by one; each is moved from
      the available nodes to the past nodes, and the nodes it makes
      available in turn are processed too.  On a consistent graph no node
      processed here leaves an available successor behind.  The worklist is
      bounded by `fuel`. */
  method SetAllNodesAsProcessedAfterGivenNode(node: string, past: set<string>, g: SchedulingGraph,
                                              available: set<string>, fuel: nat)
    returns (r: Result<(set<string>, set<string>)>)
    ensures r.Success? ==> node in g && NewlyAvailable(g, node, past) <= r.value.0
    ensures r.Success? ==> past <= r.value.0 && r.value.1 <= available && available - r.value.1 <= r.value.0
    ensures r.Success? ==> r.value.0 - past <= g.Keys && (r.value.0 - past) !! r.value.1
    ensures r.Success? && Consistent(g) ==>
      forall a :: a in (r.value.0 - past) + {node} ==> NewlyAvailable(g, a, r.value.0) <= r.value.0
    ensures r.Success? ==>
      exists order: seq<string>, reason: seq<int> ::
        Discovered(g, node, past, order, reason) && r.value.0 == past + NodesOf(order)
  {
    var first := GetNewAvailableNodesAfterSchedulingGivenNode(node, past, g);
    if first.Failure? {
      return Failure(first.error);
    }
    var ignored := first.value;
    var newPast := past;
    var newAvailable := available;
    var steps := fuel;
    ghost var order: seq<string> := [];
    ghost var reason: seq<int> := [];
    ghost var why: map<string, int> := map x | x in ignored :: -1;
    assert NodesOf(order) == {};
    while ignored != {}
      invariant Worklist(g, node, past, available, first.value, order, reason, why, ignored, newPast, newAvailable)
      decreases steps
    {
      if steps == 0 {
        return Failure("Out of fuel");
      }
      steps := steps - 1;
      var current :| current in ignored;
      var more := GetNewAvailableNodesAfterSchedulingGivenNode(current, newPast + {current}, g);
      if more.Failure? {
        return Failure(more.error);
      }
      WorklistStep(g, node, past, available, first.value, order, reason, why, ignored, newPast, newAvailable,
                   current, more.value);
      reason, why := reason + [why[current]], why + map x | x in more.value :: |order|;
      order := order + [current];
      ignored := (ignored - {current}) + more.value;
      newAvailable := newAvailable - {current};
      newPast := newPast + {current};
    }
    r := Success((newPast, newAvailable));
  }

  // ---------------------------------------------------------------------
  // RemoveNodeFromGraph

  /** Point output slot `slot` of `pred` at `succ`; nothing is done when
      `pred` is not a node of the graph. */
  function RelinkPredecessor(g: SchedulingGraph, pred: string, slot: int, succ: string): (r: Result<SchedulingGraph>)
    ensures r.Success? <==> pred !in g || 0 <= slot < |g[pred].afterNodes|
    ensures r.Failure? ==> r.error == "out_of_range"
    ensures r.Success? ==> r.value.Keys == g.Keys && forall n :: n in g && n != pred ==> r.value[n] == g[n]
    ensures r.Success? && pred in g ==> r.value[pred] == g[pred].(afterNodes := g[pred].afterNodes[slot := succ])
  {
    if pred !in g then Success(g)
    else
      var _ :- At(g[pred].afterNodes, slot);
      Success(g[pred := g[pred].(afterNodes := g[pred].afterNodes[slot := succ])])
  }

  /** Give the first input slot of `succ` fed by `node` the edge `edge`. */
  function RelinkSuccessor(g: SchedulingGraph, succ: string, node: string, edge: (string, int)): (r: Result<SchedulingGraph>)
    ensures r.Success? <==> succ in g && |IndexesNaming(g[succ].beforeNodes, node)| > 0
    ensures r.Success? ==> r.value.Keys == g.Keys && forall n :: n in g && n != succ ==> r.value[n] == g[n]
    ensures r.Success? ==>
      var slot := IndexesNaming(g[succ].beforeNodes, node)[0].0;
      0 <= slot < |g[succ].beforeNodes| && g[succ].beforeNodes[slot].0 == node &&
      r.value[succ] == g[succ].(beforeNodes := g[succ].beforeNodes[slot := edge])
  {
    var pairs :- GetCurrentNodeIndexesByName(g, succ, node);
    var index := pairs[0].0;
    Success(g[succ := g[succ].(beforeNodes := g[succ].beforeNodes[index := edge])])
  }

  /** RemoveNodeFromGraph: bypasses a node with one input and one output
      and erases it; only its predecessor and its successor change. */
  function RemoveNodeFromGraph(g: SchedulingGraph, node: string): (r: Result<SchedulingGraph>)
    ensures r.Success? ==> node in g && |g[node].beforeNodes| == 1 && |g[node].afterNodes| == 1
    ensures node !in g ==> r == Failure("out_of_range")
    ensures node in g && (|g[node].beforeNodes| != 1 || |g[node].afterNodes| != 1) ==> r == Failure(ONE_IN_ONE_OUT)
    ensures r.Success? ==> r.value.Keys == g.Keys - {node}
    ensures r.Success? ==> forall n :: n in r.value && n != g[node].beforeNodes[0].0 && n != g[node].afterNodes[0] ==>
      r.value[n] == g[n]
  {
    if node !in g then Failure("out_of_range")
    else if |g[node].beforeNodes| != 1 || |g[node].afterNodes| != 1 then Failure(ONE_IN_ONE_OUT)
    else
      var before := g[node].beforeNodes[0];
      var after := g[node].afterNodes[0];
      var relinked :-
        if after == "" && before.1 == -1 then Success(g)
        else if after == "" then RelinkPredecessor(g, before.0, before.1, after)
        else if before.1 == -1 then RelinkSuccessor(g, after, node, before)
        else
          (var h :- RelinkPredecessor(g, before.0, before.1, after);
           RelinkSuccessor(h, after, node, before));
      Success(relinked - {node})
  }

  /** After the removal the predecessor's output slot names the removed
      node's successor. */
  lemma RemoveNodeRelinksPredecessor(g: SchedulingGraph, node: string)
    requires RemoveNodeFromGraph(g, node).Success?
    requires var before := g[node].beforeNodes[0];
      before.1 != -1 && before.0 in g && before.0 != node && before.0 != g[node].afterNodes[0]
    ensures var before := g[node].beforeNodes[0];
      0 <= before.1 < |g[before.0].afterNodes| &&
      RemoveNodeFromGraph(g, node).value[before.0] ==
        g[before.0].(afterNodes := g[before.0].afterNodes[before.1 := g[node].afterNodes[0]])
  {
  }

  /** After the removal the successor's input slot that the removed node
      fed carries the removed node's own input edge. */
  lemma RemoveNodeRelinksSuccessor(g: SchedulingGraph, node: string)
    requires RemoveNodeFromGraph(g, node).Success?
    requires var before := g[node].beforeNodes[0];
      var after := g[node].afterNodes[0];
      after != "" && after != node && (before.1 == -1 || before.0 != after)
    ensures var after := g[node].afterNodes[0];
      after in g && |IndexesNaming(g[after].beforeNodes, node)| > 0 &&
      var slot := IndexesNaming(g[after].beforeNodes, node)[0].0;
      0 <= slot < |g[after].beforeNodes| && g[after].beforeNodes[slot].0 == node &&
      RemoveNodeFromGraph(g, node).value[after] ==
        g[after].(beforeNodes := g[after].beforeNodes[slot := g[node].beforeNodes[0]])
  {
  }

  /** The removal fails, for a node of the right shape, only through an
      output slot of the predecessor that does not exist or a successor
      that the node does not feed. */
  lemma RemoveNodeFailures(g: SchedulingGraph, node: string)
    requires RemoveNodeFromGraph(g, node).Failure? && node in g
    requires |g[node].beforeNodes| == 1 && |g[node].afterNodes| == 1
    ensures var before := g[node].beforeNodes[0];
      var after := g[node].afterNodes[0];
      (before.1 != -1 && before.0 in g && !(0 <= before.1 < |g[before.0].afterNodes|)) ||
      (after != "" && (after !in g || |IndexesNaming(g[after].beforeNodes, node)| == 0))
  {
  }
}
