/** The per-node helpers of the recursive placement search of the Python
    scheduler (schedule.py): which available nodes may join the current
    run, the placements offered for a node, the data it streams in, the
    available-node bookkeeping after a placement, and the nodes a reducing
    module keeps out of the next run. */
module RunHelpers {
  import opened Wrappers
  import opened ScheduleTypes
  import opened Selection
  import opened ColumnFit
  import opened GraphUpdate

  /** Every bitstream of the library spans at least one column. */
  predicate PositiveLengths(hw: HwLibrary) {
    forall op, k :: op in hw && 0 <= k < |hw[op].bitstreams| ==> hw[op].bitstreams[k].1.length >= 1
  }

  // ----- current_run_has_first_module -----

  /** Whether a module of another node in the run has a "first_module"
      operation; the scan stops at the first such module and raises
      KeyError at an unknown operation met before it. */
  function RunHasFirstModule(hw: HwLibrary, run: seq<ScheduledModule>, node: string): (r: Result<bool>)
    ensures (forall i :: 0 <= i < |run| ==> run[i].operation in hw) ==> r.Success?
    ensures r.Failure? ==> r.error == "KeyError"
    ensures r.Success? ==> (r.value <==> exists i :: (0 <= i < |run| && run[i].nodeName != node &&
      run[i].operation in hw && "first_module" in hw[run[i].operation].decorators))
  {
    if |run| == 0 then Success(false)
    else
      var rest := RunHasFirstModule(hw, run[1..], node);
      assert forall i :: 1 <= i < |run| ==> run[i] == run[1..][i - 1];
      if run[0].nodeName == node then rest
      else if run[0].operation !in hw then Failure("KeyError")
      else if "first_module" in hw[run[0].operation].decorators then Success(true)
      else rest
  }

  method CurrentRunHasFirstModule(hw: HwLibrary, run: seq<ScheduledModule>, node: string) returns (r: Result<bool>)
    ensures r == RunHasFirstModule(hw, run, node)
  {
    var i := 0;
    while i < |run|
      invariant 0 <= i <= |run|
      invariant RunHasFirstModule(hw, run, node) == RunHasFirstModule(hw, run[i..], node)
    {
      assert run[i..][1..] == run[i + 1..];
      if run[i].nodeName != node {
        if run[i].operation !in hw {
          return Failure("KeyError");
        }
        if "first_module" in hw[run[i].operation].decorators {
          return Success(true);
        }
      }
      i := i + 1;
    }
    r := Success(false);
  }

  // ----- remove_unavailable_nodes_in_this_run -----

  /** A streamed input listed in `before` comes from a module already in the run. */
  predicate FedByRun(before: seq<(string, int)>, run: seq<ScheduledModule>) {
    exists i, k :: 0 <= i < |run| && 0 <= k < |before| && before[k].1 != -1 && run[i].nodeName == before[k].0
  }

  method FeedsFromRun(before: seq<(string, int)>, run: seq<ScheduledModule>) returns (fed: bool)
    ensures fed == FedByRun(before, run)
  {
    fed := false;
    var i := 0;
    while i < |run|
      invariant 0 <= i <= |run|
      invariant fed <==> exists i', k :: 0 <= i' < i && 0 <= k < |before| && before[k].1 != -1 && run[i'].nodeName == before[k].0
    {
      var k := 0;
      while k < |before|
        invariant 0 <= k <= |before|
        invariant fed <==>
          (exists i', k' :: 0 <= i' < i && 0 <= k' < |before| && before[k'].1 != -1 && run[i'].nodeName == before[k'].0) ||
          (exists k' :: 0 <= k' < k && before[k'].1 != -1 && run[i].nodeName == before[k'].0)
      {
        if before[k].1 != -1 && run[i].nodeName == before[k].0 {
          fed := true;
        }
        k := k + 1;
      }
      i := i + 1;
    }
  }

  /** Whether the availability filter discards `n`: a first node fed by the
      run, a first-module node while another node's first module is in the
      run, or a blocked node.  Unknown nodes and operations raise KeyError. */
  function DropsNode(n: string, run: seq<ScheduledModule>, hw: HwLibrary, g: Graph, first: set<string>,
                     blocked: set<string>): (r: Result<bool>)
    ensures r.Failure? ==> r.error == "KeyError"
  {
    if n !in g || g[n].operation !in hw then Failure("KeyError")
    else
      var conflict :- if "first_module" in hw[g[n].operation].decorators then RunHasFirstModule(hw, run, n)
                      else Success(false);
      Success((n in first && FedByRun(g[n].before, run)) || conflict || n in blocked)
  }

  /** remove_unavailable_nodes_in_this_run as a set: the available nodes
      the filter keeps. */
  function AvailableInRun(available: set<string>, run: seq<ScheduledModule>, hw: HwLibrary, g: Graph,
                          first: set<string>, blocked: set<string>): (r: Result<set<string>>)
    ensures r.Failure? <==> exists n :: (n in available && (n !in g || g[n].operation !in hw ||
      ("first_module" in hw[g[n].operation].decorators && RunHasFirstModule(hw, run, n).Failure?)))
    ensures r.Failure? ==> r.error == "KeyError"
    ensures r.Success? ==> forall n :: n in r.value <==>
      n in available && n !in blocked && n in g &&
      (n in first ==> !FedByRun(g[n].before, run)) &&
      ("first_module" in hw[g[n].operation].decorators ==> RunHasFirstModule(hw, run, n) == Success(false))
  {
    if exists n :: n in available && DropsNode(n, run, hw, g, first, blocked).Failure? then Failure("KeyError")
    else Success(set n | n in available && DropsNode(n, run, hw, g, first, blocked) == Success(false))
  }

  method NodeDropped(n: string, run: seq<ScheduledModule>, hw: HwLibrary, g: Graph, first: set<string>,
                     blocked: set<string>) returns (r: Result<bool>)
    ensures r == DropsNode(n, run, hw, g, first, blocked)
  {
    if n !in g {
      return Failure("KeyError");
    }
    var dropped := false;
    if n in first {
      dropped := FeedsFromRun(g[n].before, run);
    }
    var op := g[n].operation;
    if op !in hw {
      return Failure("KeyError");
    }
    if "first_module" in hw[op].decorators {
      var has := CurrentRunHasFirstModule(hw, run, n);
      if has.Failure? {
        return Failure(has.error);
      }
      dropped := dropped || has.value;
    }
    if n in blocked {
      dropped := true;
    }
    r := Success(dropped);
  }

  /** remove_unavailable_nodes_in_this_run; the unspecified iteration order
      of the set is a free choice here. */
  method RemoveUnavailableNodesInThisRun(available: set<string>, run: seq<ScheduledModule>, hw: HwLibrary,
                                         g: Graph, first: set<string>, blocked: set<string>)
    returns (r: Result<set<string>>)
    ensures r == AvailableInRun(available, run, hw, g, first, blocked)
  {
    var result := available;
    var rest := available;
    while rest != {}
      invariant rest <= available
      invariant forall n :: n in available && n !in rest ==> DropsNode(n, run, hw, g, first, blocked).Success?
      invariant forall n :: n in result <==>
        n in available && (n in rest || DropsNode(n, run, hw, g, first, blocked) == Success(false))
      decreases |rest|
    {
      var n :| n in rest;
      var d := NodeDropped(n, run, hw, g, first, blocked);
      if d.Failure? {
        return Failure("KeyError");
      }
      if d.value {
        result := result - {n};
      }
      rest := rest - {n};
    }
    assert !exists n :: n in available && DropsNode(n, run, hw, g, first, blocked).Failure?;
    assert result == (set n | n in available && DropsNode(n, run, hw, g, first, blocked) == Success(false));
    r := Success(result);
  }

  // ----- get_taken_columns -----

  method GetTakenColumns(run: seq<ScheduledModule>) returns (taken: seq<(int, int)>)
    ensures taken == Positions(run)
  {
    taken := [];
    var i := 0;
    while i < |run|
      invariant 0 <= i <= |run|
      invariant taken == Positions(run[..i])
    {
      assert run[..i + 1][..i] == run[..i];
      taken := taken + [run[i].position];
      i := i + 1;
    }
    assert run[..i] == run;
  }

  // ----- get_chosen_module_placements -----

  /** The scheduled module of `node` behind each candidate, in order. */
  function PlacementsOf(hw: HwLibrary, op: string, node: string, cands: seq<Candidate>): (r: Result<seq<Placement>>)
    ensures r.Success? ==> |r.value| == |cands| && forall i :: 0 <= i < |cands| ==>
      r.value[i].0 == cands[i].0 && r.value[i].1.nodeName == node && r.value[i].1.operation == op &&
      r.value[i].1.position.0 == cands[i].1 &&
      BitstreamEnd(hw, op, cands[i].2, cands[i].1) == Success((r.value[i].1.bitstream, r.value[i].1.position.1))
  {
    if |cands| == 0 then Success([])
    else
      var prefix :- PlacementsOf(hw, op, node, cands[..|cands| - 1]);
      var c := cands[|cands| - 1];
      var found :- BitstreamEnd(hw, op, c.2, c.1);
      Success(prefix + [(c.0, ScheduledModule(node, op, found.0, (c.1, found.1)))])
  }

  /** get_chosen_module_placements: the candidates after the minimum
      position, turned into modules and filtered by the selection clauses. */
  function ChosenPlacements(hw: HwLibrary, op: string, node: string, clauses: seq<Clause>, minPosition: nat,
                            taken: seq<(int, int)>, locs: seq<seq<string>>): Result<seq<Placement>>
  {
    if minPosition > |locs| then Success([])
    else
      var cands :- Candidates(hw, op, minPosition, |locs|, locs, taken);
      if |cands| == 0 then Success([])
      else
        var all :- PlacementsOf(hw, op, node, cands);
        Success(Preferences(all, clauses))
  }

  /** What the search relies on for a placement offered to `node`: it is
      the node's module for `op`, it starts at or after `minPosition`, and
      for a library of positive lengths its range overlaps no taken range
      and fits between the ranges around its index, so that inserting it
      there keeps the columns sorted and disjoint (InsertSorted). */
  predicate GoodPlacement(hw: HwLibrary, op: string, node: string, minPosition: int, taken: seq<(int, int)>, p: Placement) {
    p.1.nodeName == node && p.1.operation == op && minPosition <= p.1.position.0 &&
    (PositiveLengths(hw) ==>
      DisjointFromAll(p.1.position, taken) && FitsAt(taken, p.0, p.1.position))
  }

  lemma PlacementOfGoodCandidate(hw: HwLibrary, op: string, node: string, minPosition: nat, taken: seq<(int, int)>,
                                 c: Candidate, p: Placement)
    requires GoodCandidate(hw, op, minPosition, taken, c)
    requires p.0 == c.0 && p.1.nodeName == node && p.1.operation == op && p.1.position.0 == c.1
    requires BitstreamEnd(hw, op, c.2, c.1) == Success((p.1.bitstream, p.1.position.1))
    ensures GoodPlacement(hw, op, node, minPosition, taken, p)
  {
    var found := FindBitstream(hw[op].bitstreams, hw[op].startLocations[c.1][c.2]);
    if PositiveLengths(hw) {
      var k :| 0 <= k < |hw[op].bitstreams| && hw[op].bitstreams[k] == (hw[op].startLocations[c.1][c.2], found.value);
      assert found.value.length >= 1;
      assert p.1.position == (c.1, c.1 + found.value.length - 1);
    }
  }

  /** Every placement get_chosen_module_placements offers is good, given
      sorted disjoint taken columns. */
  lemma ChosenPlacementsAreGood(hw: HwLibrary, op: string, node: string, clauses: seq<Clause>, minPosition: nat,
                                taken: seq<(int, int)>, locs: seq<seq<string>>)
    requires SortedDisjoint(taken)
    requires ChosenPlacements(hw, op, node, clauses, minPosition, taken, locs).Success?
    ensures forall p :: p in ChosenPlacements(hw, op, node, clauses, minPosition, taken, locs).value ==>
      GoodPlacement(hw, op, node, minPosition, taken, p)
  {
    if minPosition <= |locs| {
      var cands := Candidates(hw, op, minPosition, |locs|, locs, taken).value;
      if |cands| > 0 {
        CandidatesAreGood(hw, op, minPosition, |locs|, locs, taken);
        var all := PlacementsOf(hw, op, node, cands).value;
        forall i | 0 <= i < |all|
          ensures GoodPlacement(hw, op, node, minPosition, taken, all[i])
        {
          assert cands[i] in cands;
          PlacementOfGoodCandidate(hw, op, node, minPosition, taken, cands[i], all[i]);
        }
        PreferencesCharacterisation(all, clauses);
      }
    }
  }

  method GetChosenModulePlacements(node: string, hw: HwLibrary, op: string, clauses: seq<Clause>, minPosition: nat,
                                   taken: seq<(int, int)>, locs: seq<seq<string>>) returns (r: Result<seq<Placement>>)
    ensures r == ChosenPlacements(hw, op, node, clauses, minPosition, taken, locs)
  {
    var found := FindAllAvailableBitstreamsAfterMinPos(op, minPosition, taken, hw, locs);
    if found.Failure? {
      return Failure(found.error);
    }
    var cands := found.value;
    if |cands| == 0 {
      return Success([]);
    }
    var all: seq<Placement> := [];
    var i := 0;
    while i < |cands|
      invariant 0 <= i <= |cands|
      invariant PlacementsOf(hw, op, node, cands[..i]) == Success(all)
    {
      assert cands[..i + 1][..i] == cands[..i];
      var c := cands[i];
      var end := BitstreamEnd(hw, op, c.2, c.1);
      if end.Failure? {
        PlacementsFailureExtends(hw, op, node, cands, i + 1);
        return Failure(end.error);
      }
      all := all + [(c.0, ScheduledModule(node, op, end.value.0, (c.1, end.value.1)))];
      i := i + 1;
    }
    assert cands[..i] == cands;
    var chosen := SelectAccordingToPreferences(all, clauses);
    r := Success(chosen);
  }

  lemma {:induction false} PlacementsFailureExtends(hw: HwLibrary, op: string, node: string, cands: seq<Candidate>, k: nat)
    requires k <= |cands| && PlacementsOf(hw, op, node, cands[..k]).Failure?
    ensures PlacementsOf(hw, op, node, cands) == PlacementsOf(hw, op, node, cands[..k])
    decreases |cands| - k
  {
    if k < |cands| {
      assert cands[..k + 1][..k] == cands[..k];
      PlacementsFailureExtends(hw, op, node, cands, k + 1);
    } else {
      assert cands[..k] == cands;
    }
  }

  // ----- get_scheduled_modules_for_node_after_pos -----

  /** The placements offered to `node`: from its satisfying-bitstream
      locations with the second clause list, when it has them and more than
      one clause list is given, and otherwise (or when that offers nothing)
      from all start locations with the first clause list. */
  function ScheduledModulesForNode(g: Graph, minPosition: nat, node: string, taken: seq<(int, int)>, hw: HwLibrary,
                                   selections: seq<seq<Clause>>): Result<seq<Placement>>
  {
    if node !in g then Failure("KeyError")
    else
      var op := g[node].operation;
      var sb := g[node].satisfyingBitstreams;
      var preferred :- if |sb| > 0 && |selections| != 1 then
                         (if |selections| < 2 then Failure("IndexError")
                          else ChosenPlacements(hw, op, node, selections[1], minPosition, taken, sb))
                       else Success([]);
      if |preferred| > 0 then Success(preferred)
      else if |selections| == 0 then Failure("IndexError")
      else if op !in hw then Failure("KeyError")
      else ChosenPlacements(hw, op, node, selections[0], minPosition, taken, hw[op].startLocations)
  }

  /** Every placement offered to a node is good for it. */
  lemma ScheduledModulesAreGood(g: Graph, minPosition: nat, node: string, taken: seq<(int, int)>, hw: HwLibrary,
                                selections: seq<seq<Clause>>)
    requires SortedDisjoint(taken)
    requires ScheduledModulesForNode(g, minPosition, node, taken, hw, selections).Success?
    ensures node in g
    ensures forall p :: p in ScheduledModulesForNode(g, minPosition, node, taken, hw, selections).value ==>
      GoodPlacement(hw, g[node].operation, node, minPosition, taken, p)
  {
    var op := g[node].operation;
    var sb := g[node].satisfyingBitstreams;
    var preferred := if |sb| > 0 && |selections| != 1 then
                       (if |selections| < 2 then Failure("IndexError")
                        else ChosenPlacements(hw, op, node, selections[1], minPosition, taken, sb))
                     else Success([]);
    if preferred.Success? && |preferred.value| > 0 {
      ChosenPlacementsAreGood(hw, op, node, selections[1], minPosition, taken, sb);
    } else if |selections| > 0 && op in hw {
      ChosenPlacementsAreGood(hw, op, node, selections[0], minPosition, taken, hw[op].startLocations);
    }
  }

  method GetScheduledModulesForNodeAfterPos(g: Graph, minPosition: nat, node: string, taken: seq<(int, int)>,
                                            hw: HwLibrary, selections: seq<seq<Clause>>) returns (r: Result<seq<Placement>>)
    ensures r == ScheduledModulesForNode(g, minPosition, node, taken, hw, selections)
  {
    if node !in g {
      return Failure("KeyError");
    }
    var op := g[node].operation;
    var placements: seq<Placement> := [];
    if |g[node].satisfyingBitstreams| > 0 && |selections| != 1 {
      if |selections| < 2 {
        return Failure("IndexError");
      }
      var preferred := GetChosenModulePlacements(node, hw, op, selections[1], minPosition, taken,
                                                 g[node].satisfyingBitstreams);
      if preferred.Failure? {
        return preferred;
      }
      placements := preferred.value;
    }
    if |placements| == 0 {
      if |selections| == 0 {
        return Failure("IndexError");
      }
      if op !in hw {
        return Failure("KeyError");
      }
      r := GetChosenModulePlacements(node, hw, op, selections[0], minPosition, taken, hw[op].startLocations);
    } else {
      r := Success(placements);
    }
  }

  // ----- get_new_streamed_data_size -----

  /** The node's table list with the slot of each predecessor that already
      has a module in the run blanked (Python's list.index: the first slot
      naming it); a slot beyond the table list raises IndexError. */
  function ClearFedSlots(required: seq<string>, names: seq<string>, run: seq<ScheduledModule>): Result<seq<string>>
  {
    if |run| == 0 then Success(required)
    else
      var prefix :- ClearFedSlots(required, names, run[..|run| - 1]);
      var m := run[|run| - 1];
      if m.nodeName in names then PySet(prefix, NameIndex(names, m.nodeName), "") else Success(prefix)
  }

  /** Slot k of the predecessor names is fed by the run. */
  predicate SlotFed(names: seq<string>, run: seq<ScheduledModule>, k: int) {
    exists i :: 0 <= i < |run| && run[i].nodeName in names && NameIndex(names, run[i].nodeName) == k
  }

  /** Blanking succeeds iff every fed slot exists, and then exactly the fed
      slots are blank and the others keep their table. */
  lemma {:induction false} ClearFedSlotsMeaning(required: seq<string>, names: seq<string>, run: seq<ScheduledModule>)
    ensures ClearFedSlots(required, names, run).Success? <==>
      forall i :: 0 <= i < |run| && run[i].nodeName in names ==> NameIndex(names, run[i].nodeName) < |required|
    ensures ClearFedSlots(required, names, run).Success? ==>
      var cleared := ClearFedSlots(required, names, run).value;
      |cleared| == |required| &&
      forall k :: 0 <= k < |required| ==> cleared[k] == if SlotFed(names, run, k) then "" else required[k]
  {
    if |run| > 0 {
      var run' := run[..|run| - 1];
      ClearFedSlotsMeaning(required, names, run');
      assert forall i :: 0 <= i < |run'| ==> run'[i] == run[i];
      var m := run[|run| - 1];
      if ClearFedSlots(required, names, run').Success? {
        forall k | 0 <= k < |required|
          ensures SlotFed(names, run, k) <==>
            SlotFed(names, run', k) || (m.nodeName in names && NameIndex(names, m.nodeName) == k)
        {
          if SlotFed(names, run, k) {
            var i :| 0 <= i < |run| && run[i].nodeName in names && NameIndex(names, run[i].nodeName) == k;
            if i < |run'| {
              assert run'[i] == run[i];
            }
          }
          if SlotFed(names, run', k) {
            var i :| 0 <= i < |run'| && run'[i].nodeName in names && NameIndex(names, run'[i].nodeName) == k;
            assert run[i] == run'[i];
          }
        }
      }
    }
  }

  /** The record size a table streams, 14 when it is not given. */
  function RecordSize(t: TableData): int {
    if t.recordSize.Some? then t.recordSize.value else 14
  }

  /** The data (record size times record count) of the named tables, blank
      names skipped; an unknown table raises KeyError. */
  function TablesSize(names: seq<string>, tables: DataTables): (r: Result<int>)
    ensures r.Success? <==> forall k :: 0 <= k < |names| && names[k] != "" ==> names[k] in tables
    ensures r.Failure? ==> r.error == "KeyError"
  {
    if |names| == 0 then Success(0)
    else
      var prefix :- TablesSize(names[..|names| - 1], tables);
      var name := names[|names| - 1];
      if name == "" then Success(prefix)
      else if name !in tables then Failure("KeyError")
      else Success(prefix + RecordSize(tables[name]) * tables[name].recordCount)
  }

  /** With non-negative sizes and counts no data size is negative. */
  lemma {:induction false} TablesSizeNonnegative(names: seq<string>, tables: DataTables)
    requires forall t :: t in tables ==> RecordSize(tables[t]) >= 0 && tables[t].recordCount >= 0
    ensures TablesSize(names, tables).Success? ==> TablesSize(names, tables).value >= 0
  {
    if |names| > 0 {
      TablesSizeNonnegative(names[..|names| - 1], tables);
      var name := names[|names| - 1];
      if name != "" && name in tables {
        assert RecordSize(tables[name]) * tables[name].recordCount >= 0;
      }
    }
  }

  /** get_new_streamed_data_size: the data of the node's input tables that
      are not fed by a module already in the run. */
  function StreamedDataSize(run: seq<ScheduledModule>, node: string, tables: DataTables, g: Graph): Result<int> {
    if node !in g then Failure("KeyError")
    else
      var cleared :- ClearFedSlots(g[node].tables, BeforeNames(g[node].before), run);
      TablesSize(cleared, tables)
  }

  method GetNewStreamedDataSize(run: seq<ScheduledModule>, node: string, tables: DataTables, g: Graph)
    returns (r: Result<int>)
    ensures r == StreamedDataSize(run, node, tables, g)
  {
    if node !in g {
      return Failure("KeyError");
    }
    var names := BeforeNames(g[node].before);
    var required := g[node].tables;
    var i := 0;
    while i < |run|
      invariant 0 <= i <= |run|
      invariant ClearFedSlots(g[node].tables, names, run[..i]) == Success(required)
    {
      assert run[..i + 1][..i] == run[..i];
      if run[i].nodeName in names {
        var next := PySet(required, NameIndex(names, run[i].nodeName), "");
        if next.Failure? {
          ClearFailureExtends(g[node].tables, names, run, i + 1);
          return Failure(next.error);
        }
        required := next.value;
      }
      i := i + 1;
    }
    assert run[..i] == run;
    var size := 0;
    var k := 0;
    while k < |required|
      invariant 0 <= k <= |required|
      invariant TablesSize(required[..k], tables) == Success(size)
    {
      assert required[..k + 1][..k] == required[..k];
      if required[k] != "" {
        if required[k] !in tables {
          SizeFailureExtends(required, tables, k + 1);
          return Failure("KeyError");
        }
        size := size + RecordSize(tables[required[k]]) * tables[required[k]].recordCount;
      }
      k := k + 1;
    }
    assert required[..k] == required;
    r := Success(size);
  }

  lemma {:induction false} ClearFailureExtends(required: seq<string>, names: seq<string>, run: seq<ScheduledModule>, k: nat)
    requires k <= |run| && ClearFedSlots(required, names, run[..k]).Failure?
    ensures ClearFedSlots(required, names, run) == ClearFedSlots(required, names, run[..k])
    decreases |run| - k
  {
    if k < |run| {
      assert run[..k + 1][..k] == run[..k];
      ClearFailureExtends(required, names, run, k + 1);
    } else {
      assert run[..k] == run;
    }
  }

  lemma {:induction false} SizeFailureExtends(names: seq<string>, tables: DataTables, k: nat)
    requires k <= |names| && TablesSize(names[..k], tables).Failure?
    ensures TablesSize(names, tables) == TablesSize(names[..k], tables)
    decreases |names| - k
  {
    if k < |names| {
      assert names[..k + 1][..k] == names[..k];
      SizeFailureExtends(names, tables, k + 1);
    } else {
      assert names[..k] == names;
    }
  }

  // ----- create_new_available_nodes_lists -----

  /** The available and past nodes after `node` is placed: unchanged when
      its requirements are not met, otherwise `node` moves to the past nodes
      and its newly available successors join.  Removing a node that is not
      available, or looking up an unknown node, raises KeyError. */
  function AvailableAfter(g: Graph, available: set<string>, past: set<string>, node: string, satisfies: bool)
    : (r: Result<(set<string>, set<string>)>)
    ensures !satisfies ==> r == Success((available, past))
    ensures satisfies ==> (r.Success? <==> (node in available && node in g &&
      forall n :: n in g[node].after && n != "" ==> n in g))
    ensures r.Failure? ==> r.error == "KeyError"
    ensures satisfies && r.Success? ==> (r.value.1 == past + {node} && node in g &&
      available - {node} <= r.value.0 &&
      forall n :: n in r.value.0 - available ==>
        n in g[node].after && n in g && InputsDone(g, n, past + {node}))
  {
    if !satisfies then Success((available, past))
    else if node !in available || node !in g then Failure("KeyError")
    else if exists n :: n in g[node].after && n != "" && n !in g then Failure("KeyError")
    else Success(((available - {node}) + NewlyAvailable(node, past + {node}, g), past + {node}))
  }

  method CreateNewAvailableNodesLists(g: Graph, available: set<string>, past: set<string>, node: string, satisfies: bool)
    returns (r: Result<(set<string>, set<string>)>)
    ensures r == AvailableAfter(g, available, past, node, satisfies)
  {
    if !satisfies {
      return Success((available, past));
    }
    if node !in available {
      return Failure("KeyError");
    }
    var newAvailable := available - {node};
    var newPast := past + {node};
    var added := GetNewAvailableNodes(node, newPast, g);
    if added.Failure? {
      return Failure("KeyError");
    }
    r := Success((newAvailable + added.value, newPast));
  }

  /** The skipped sort nodes of find_next_module_placement, each of which
      must be available when its turn comes. */
  function AfterSkipped(g: Graph, available: set<string>, past: set<string>, skipped: seq<string>, satisfies: bool)
    : Result<(set<string>, set<string>)>
  {
    if |skipped| == 0 then Success((available, past))
    else
      var prefix :- AfterSkipped(g, available, past, skipped[..|skipped| - 1], satisfies);
      var s := skipped[|skipped| - 1];
      if s !in prefix.0 then Failure("Skipped nodes processes in the wrong order!")
      else AvailableAfter(g, prefix.0, prefix.1, s, satisfies)
  }

  /** Skipping only adds past nodes; when the placed node met its
      requirements every skipped node ends up past. */
  lemma {:induction false} AfterSkippedMeaning(g: Graph, available: set<string>, past: set<string>,
                                               skipped: seq<string>, satisfies: bool)
    requires AfterSkipped(g, available, past, skipped, satisfies).Success?
    ensures past <= AfterSkipped(g, available, past, skipped, satisfies).value.1
    ensures satisfies ==> forall k :: 0 <= k < |skipped| ==>
      skipped[k] in AfterSkipped(g, available, past, skipped, satisfies).value.1
  {
    if |skipped| > 0 {
      var skipped' := skipped[..|skipped| - 1];
      AfterSkippedMeaning(g, available, past, skipped', satisfies);
      assert forall k :: 0 <= k < |skipped'| ==> skipped'[k] == skipped[k];
    }
  }

  method ProcessSkippedNodes(g: Graph, available: set<string>, past: set<string>, skipped: seq<string>, satisfies: bool)
    returns (r: Result<(set<string>, set<string>)>)
    ensures r == AfterSkipped(g, available, past, skipped, satisfies)
  {
    var newAvailable := available;
    var newPast := past;
    var i := 0;
    while i < |skipped|
      invariant 0 <= i <= |skipped|
      invariant AfterSkipped(g, available, past, skipped[..i], satisfies) == Success((newAvailable, newPast))
    {
      assert skipped[..i + 1][..i] == skipped[..i];
      if skipped[i] !in newAvailable {
        SkippedFailureExtends(g, available, past, skipped, satisfies, i + 1);
        return Failure("Skipped nodes processes in the wrong order!");
      }
      var next := CreateNewAvailableNodesLists(g, newAvailable, newPast, skipped[i], satisfies);
      if next.Failure? {
        SkippedFailureExtends(g, available, past, skipped, satisfies, i + 1);
        return Failure(next.error);
      }
      newAvailable, newPast := next.value.0, next.value.1;
      i := i + 1;
    }
    assert skipped[..i] == skipped;
    r := Success((newAvailable, newPast));
  }

  lemma {:induction false} SkippedFailureExtends(g: Graph, available: set<string>, past: set<string>,
                                                 skipped: seq<string>, satisfies: bool, k: nat)
    requires k <= |skipped| && AfterSkipped(g, available, past, skipped[..k], satisfies).Failure?
    ensures AfterSkipped(g, available, past, skipped, satisfies) == AfterSkipped(g, available, past, skipped[..k], satisfies)
    decreases |skipped| - k
  {
    if k < |skipped| {
      assert skipped[..k + 1][..k] == skipped[..k];
      SkippedFailureExtends(g, available, past, skipped, satisfies, k + 1);
    } else {
      assert skipped[..k] == skipped;
    }
  }

  // ----- find_data_sensitive_node_names / get_new_blocked_nodes -----

  /** find_data_sensitive_node_names from `name`: every "Merge Sort" node
      met on a depth-first walk along the successors joins the set.  The
      walk keeps no visited set, so `fuel` bounds its depth; running out
      stands for Python's RecursionError. */
  function DataSensitive(name: string, g: Graph, blocked: set<string>, fuel: nat): (r: Result<set<string>>)
    ensures r.Success? ==> blocked <= r.value && forall n :: n in r.value - blocked ==>
      n in g && g[n].operation == "Merge Sort"
    ensures r.Success? ==> name in g
    ensures r.Success? ==> forall n :: (n in g[name].after && n != "" && n in g &&
      g[n].operation == "Merge Sort") ==> n in r.value
    decreases fuel, 0
  {
    if name !in g then Failure("KeyError")
    else if fuel == 0 then Failure("RecursionError")
    else
      var r := DataSensitiveAfter(g[name].after, g, blocked, fuel - 1);
      assert r.Success? ==> forall n :: (n in g[name].after && n != "" && n in g &&
        g[n].operation == "Merge Sort") ==> n in r.value by {
        if r.Success? {
          forall n | n in g[name].after && n != "" && n in g && g[n].operation == "Merge Sort"
            ensures n in r.value
          {
            var k :| 0 <= k < |g[name].after| && g[name].after[k] == n;
          }
        }
      }
      r
  }

  function DataSensitiveAfter(after: seq<string>, g: Graph, blocked: set<string>, fuel: nat): (r: Result<set<string>>)
    ensures r.Success? ==> blocked <= r.value && forall n :: n in r.value - blocked ==>
      n in g && g[n].operation == "Merge Sort"
    ensures r.Success? ==> forall k :: (0 <= k < |after| && after[k] != "" && after[k] in g &&
      g[after[k]].operation == "Merge Sort") ==> after[k] in r.value
    decreases fuel, 1, |after|
  {
    if |after| == 0 then Success(blocked)
    else
      var acc :- DataSensitiveAfter(after[..|after| - 1], g, blocked, fuel);
      var next := after[|after| - 1];
      if next == "" then Success(acc)
      else if next !in g then Failure("KeyError")
      else
        var acc' := if g[next].operation == "Merge Sort" then acc + {next} else acc;
        DataSensitive(next, g, acc', fuel)
  }

  /** `p` is a path of graph nodes along successor edges. */
  ghost predicate Chain(g: Graph, p: seq<string>) {
    (forall i :: 0 <= i < |p| ==> p[i] in g) &&
    (forall i :: 0 < i < |p| ==> p[i] != "" && p[i] in g[p[i - 1]].after)
  }

  /** `p` is a path that starts at one of the named nodes of `after`. */
  ghost predicate Below(g: Graph, after: seq<string>, p: seq<string>) {
    |p| >= 1 && p[0] != "" && p[0] in after && Chain(g, p)
  }

  /** Every "Merge Sort" node reachable from `after` is in `r`. */
  ghost predicate Covers(g: Graph, after: seq<string>, r: set<string>) {
    forall p :: Below(g, after, p) && g[p[|p| - 1]].operation == "Merge Sort" ==> p[|p| - 1] in r
  }

  /** Every node of `r` that was not blocked before is reachable from
      `after`. */
  ghost predicate Explained(g: Graph, after: seq<string>, blocked: set<string>, r: set<string>) {
    forall n :: n in r && n !in blocked ==> exists p :: Below(g, after, p) && p[|p| - 1] == n
  }

  /** A completed walk from `name` blocks exactly the "Merge Sort" nodes
      reachable from it, besides those already blocked. */
  lemma {:induction false} DataSensitiveCloses(name: string, g: Graph, blocked: set<string>, fuel: nat)
    ensures DataSensitive(name, g, blocked, fuel).Success? ==>
      Covers(g, g[name].after, DataSensitive(name, g, blocked, fuel).value) &&
      Explained(g, g[name].after, blocked, DataSensitive(name, g, blocked, fuel).value)
    decreases fuel, 0
  {
    if name in g && fuel > 0 {
      DataSensitiveAfterCloses(g[name].after, g, blocked, fuel - 1);
    }
  }

  lemma {:induction false} DataSensitiveAfterCloses(after: seq<string>, g: Graph, blocked: set<string>, fuel: nat)
    ensures DataSensitiveAfter(after, g, blocked, fuel).Success? ==>
      Covers(g, after, DataSensitiveAfter(after, g, blocked, fuel).value) &&
      Explained(g, after, blocked, DataSensitiveAfter(after, g, blocked, fuel).value)
    decreases fuel, 1, |after|
  {
    if |after| > 0 && DataSensitiveAfter(after, g, blocked, fuel).Success? {
      var prefix := after[..|after| - 1];
      var next := after[|after| - 1];
      DataSensitiveAfterCloses(prefix, g, blocked, fuel);
      var acc := DataSensitiveAfter(prefix, g, blocked, fuel).value;
      var r := DataSensitiveAfter(after, g, blocked, fuel).value;
      if next == "" {
        assert r == acc;
        EmptySlotCloses(g, after, blocked, acc);
      } else {
        var acc' := if g[next].operation == "Merge Sort" then acc + {next} else acc;
        DataSensitiveCloses(next, g, acc', fuel);
        assert r == DataSensitive(next, g, acc', fuel).value;
        SuccessorCloses(g, after, blocked, acc, acc', r);
      }
    }
  }

  /** An empty last slot adds no path. */
  lemma EmptySlotCloses(g: Graph, after: seq<string>, blocked: set<string>, acc: set<string>)
    requires |after| > 0 && after[|after| - 1] == ""
    requires Covers(g, after[..|after| - 1], acc) && Explained(g, after[..|after| - 1], blocked, acc)
    ensures Covers(g, after, acc) && Explained(g, after, blocked, acc)
  {
    var prefix := after[..|after| - 1];
    assert forall x :: x in after <==> x in prefix || x == "";
    forall p | Below(g, after, p)
      ensures Below(g, prefix, p)
    {
    }
  }

  /** Walking the last successor `next` of `after` extends what the
      earlier successors covered and explained to all of `after`. */
  lemma SuccessorCloses(g: Graph, after: seq<string>, blocked: set<string>, acc: set<string>, acc': set<string>,
                        r: set<string>)
    requires |after| > 0 && after[|after| - 1] != "" && after[|after| - 1] in g
    requires blocked <= acc && acc' <= r
    requires Covers(g, after[..|after| - 1], acc) && Explained(g, after[..|after| - 1], blocked, acc)
    requires var next := after[|after| - 1];
      acc' == if g[next].operation == "Merge Sort" then acc + {next} else acc
    requires Covers(g, g[after[|after| - 1]].after, r) && Explained(g, g[after[|after| - 1]].after, acc', r)
    ensures Covers(g, after, r) && Explained(g, after, blocked, r)
  {
    SuccessorCovers(g, after, acc, acc', r);
    SuccessorExplains(g, after, blocked, acc, acc', r);
  }

  lemma SuccessorCovers(g: Graph, after: seq<string>, acc: set<string>, acc': set<string>, r: set<string>)
    requires |after| > 0 && after[|after| - 1] != "" && after[|after| - 1] in g
    requires acc' <= r && Covers(g, after[..|after| - 1], acc)
    requires var next := after[|after| - 1];
      acc' == if g[next].operation == "Merge Sort" then acc + {next} else acc
    requires Covers(g, g[after[|after| - 1]].after, r)
    ensures Covers(g, after, r)
  {
    var prefix := after[..|after| - 1];
    var next := after[|after| - 1];
    forall p | Below(g, after, p) && g[p[|p| - 1]].operation == "Merge Sort"
      ensures p[|p| - 1] in r
    {
      if p[0] != next {
        assert p[0] in prefix by {
          var k :| 0 <= k < |after| && after[k] == p[0];
          assert prefix[k] == p[0];
        }
        assert Below(g, prefix, p);
      } else if |p| > 1 {
        assert Below(g, g[next].after, p[1..]);
      }
    }
  }

  lemma SuccessorExplains(g: Graph, after: seq<string>, blocked: set<string>, acc: set<string>, acc': set<string>,
                          r: set<string>)
    requires |after| > 0 && after[|after| - 1] != "" && after[|after| - 1] in g
    requires Explained(g, after[..|after| - 1], blocked, acc)
    requires var next := after[|after| - 1];
      acc' == if g[next].operation == "Merge Sort" then acc + {next} else acc
    requires Explained(g, g[after[|after| - 1]].after, acc', r)
    ensures Explained(g, after, blocked, r)
  {
    var prefix := after[..|after| - 1];
    var next := after[|after| - 1];
    forall n | n in r && n !in blocked
      ensures exists p :: Below(g, after, p) && p[|p| - 1] == n
    {
      if n in acc {
        var p :| Below(g, prefix, p) && p[|p| - 1] == n;
        assert p[0] in after by {
          var k :| 0 <= k < |prefix| && prefix[k] == p[0];
          assert after[k] == p[0];
        }
        assert Below(g, after, p);
      } else if n == next {
        assert Below(g, after, [next]);
      } else {
        assert n !in acc';
        var p :| Below(g, g[next].after, p) && p[|p| - 1] == n;
        assert Below(g, after, [next] + p);
      }
    }
  }

  /** get_new_blocked_nodes: a reducing module adds the data-sensitive
      nodes below it to the nodes blocked from the next run. */
  function NewBlockedNodes(nextRunBlocked: set<string>, hw: HwLibrary, m: ScheduledModule, g: Graph, fuel: nat)
    : (r: Result<set<string>>)
    ensures m.operation !in hw ==> r == Failure("KeyError")
    ensures m.operation in hw && "reducing" !in hw[m.operation].decorators ==> r == Success(nextRunBlocked)
    ensures r.Success? ==> (nextRunBlocked <= r.value &&
      forall n :: n in r.value - nextRunBlocked ==> n in g && g[n].operation == "Merge Sort")
  {
    if m.operation !in hw then Failure("KeyError")
    else if "reducing" in hw[m.operation].decorators then DataSensitive(m.nodeName, g, nextRunBlocked, fuel)
    else Success(nextRunBlocked)
  }
}
