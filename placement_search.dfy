/** The recursive placement search of the Python scheduler (schedule.py,
    place_nodes_recursively and find_next_module_placement).  The search
    object holds what the source shares between recursive calls: the
    dictionary of complete plans, the smallest run count found so far, the
    timeout flag, and the answers its clock gives when the time limit is
    checked.  The search depth is bounded by `fuel`. */
module PlacementSearch {
  import opened Wrappers
  import opened ScheduleTypes
  import opened Selection
  import opened ColumnFit
  import opened GraphUpdate
  import opened TableFlow
  import opened Preprocessing
  import opened RunHelpers

  /** A plan: its runs in execution order, each listing its modules. */
  type Plan = seq<seq<ScheduledModule>>

  /** What is saved with each complete plan. */
  datatype PlanRecord = PlanRecord(
    nextNodes: set<string>,
    graph: Graph,
    tables: DataTables,
    past: set<string>,
    streamed: int)

  /** Every run of the plan occupies sorted, disjoint column ranges. */
  predicate RunsSorted(plan: Plan) {
    forall k :: 0 <= k < |plan| ==> SortedDisjoint(Positions(plan[k]))
  }

  /** The plans after a step keep every earlier plan with its record, and
      every plan added extends `prefix` by at least one run. */
  predicate Extends(before: map<Plan, PlanRecord>, after: map<Plan, PlanRecord>, prefix: Plan) {
    (forall p :: p in before ==> p in after && after[p] == before[p]) &&
    (forall p :: p in after && p !in before ==> |prefix| < |p| && p[..|prefix|] == prefix)
  }

  lemma ExtendsTransitive(a: map<Plan, PlanRecord>, b: map<Plan, PlanRecord>, c: map<Plan, PlanRecord>, prefix: Plan)
    requires Extends(a, b, prefix) && Extends(b, c, prefix)
    ensures Extends(a, c, prefix)
  {
  }

  /** Plans that extend a longer prefix extend every prefix of it. */
  lemma ExtendsShorter(a: map<Plan, PlanRecord>, b: map<Plan, PlanRecord>, prefix: Plan, longer: Plan)
    requires Extends(a, b, longer) && |prefix| <= |longer| && longer[..|prefix|] == prefix
    ensures Extends(a, b, prefix)
  {
    forall p | p in b && p !in a
      ensures |prefix| < |p| && p[..|prefix|] == prefix
    {
      assert p[..|prefix|] == p[..|longer|][..|prefix|];
    }
  }

  /** Python's slice insertion `run[i:i] = [m]`, which clamps the index. */
  function InsertModule(run: seq<ScheduledModule>, i: int, m: ScheduledModule): (r: seq<ScheduledModule>)
    ensures |r| == |run| + 1
    ensures 0 <= i <= |run| ==> r[i] == m
    ensures 0 <= i <= |run| ==> forall k :: 0 <= k < i ==> r[k] == run[k]
    ensures 0 <= i <= |run| ==> forall k :: i < k < |r| ==> r[k] == run[k - 1]
  {
    var j := if i < 0 then (if |run| + i < 0 then 0 else |run| + i) else (if i > |run| then |run| else i);
    var r := run[..j] + [m] + run[j..];
    assert forall k :: j < k < |r| ==> r[k] == run[k - 1];
    r
  }

  /** The columns of a run after an insertion are its columns with the new
      module's range inserted at the same index. */
  lemma InsertModulePositions(run: seq<ScheduledModule>, i: int, m: ScheduledModule)
    requires 0 <= i <= |run|
    ensures Positions(InsertModule(run, i, m)) == Insert(Positions(run), i, m.position)
  {
    InsertedPositions(run, InsertModule(run, i, m), i, m);
  }

  /** The same for any list holding `run` with `m` inserted at `i`. */
  lemma InsertedPositions(run: seq<ScheduledModule>, r: seq<ScheduledModule>, i: int, m: ScheduledModule)
    requires 0 <= i <= |run| && |r| == |run| + 1 && r[i] == m
    requires forall k :: 0 <= k < i ==> r[k] == run[k]
    requires forall k :: i < k < |r| ==> r[k] == run[k - 1]
    ensures Positions(r) == Insert(Positions(run), i, m.position)
  {
    var ps := Positions(run);
    var t := Insert(ps, i, m.position);
    InsertElements(ps, i, m.position);
    forall k | 0 <= k < |t|
      ensures Positions(r)[k] == t[k]
    {
      if k < i {
        assert r[k] == run[k];
      } else if k > i {
        assert r[k] == run[k - 1];
      }
    }
    SameElements(Positions(r), t);
  }

  lemma SameElements(a: seq<(int, int)>, b: seq<(int, int)>)
    requires |a| == |b| && forall k :: 0 <= k < |a| ==> a[k] == b[k]
    ensures a == b
  {
  }

  lemma MinPositionNonnegative(before: seq<(string, int)>, run: seq<ScheduledModule>)
    ensures MinPosition(before, run) >= 0
  {
    GreatestIsMaximum(0, Ends(PrerequisiteModules(before, run)));
  }

  /** The placements offered in the current run to the available nodes
      the filter kept (Python's loop over the available set; its order is a
      free choice here).  Each belongs to such a node and is good for it. */
  method CollectPlacements(available: set<string>, inRun: set<string>, run: seq<ScheduledModule>, g: Graph,
                           hw: HwLibrary, selections: seq<seq<Clause>>) returns (r: Result<seq<Placement>>)
    ensures r.Success? ==> forall p :: p in r.value ==>
      p.1.nodeName in available && p.1.nodeName in inRun && p.1.nodeName in g &&
      (SortedDisjoint(Positions(run)) ==>
        GoodPlacement(hw, g[p.1.nodeName].operation, p.1.nodeName, MinPosition(g[p.1.nodeName].before, run),
                      Positions(run), p))
  {
    var all: seq<Placement> := [];
    var rest := available;
    while rest != {}
      invariant rest <= available
      invariant forall p :: p in all ==>
        p.1.nodeName in available && p.1.nodeName in inRun && p.1.nodeName in g &&
        (SortedDisjoint(Positions(run)) ==>
          GoodPlacement(hw, g[p.1.nodeName].operation, p.1.nodeName, MinPosition(g[p.1.nodeName].before, run),
                        Positions(run), p))
      decreases |rest|
    {
      var n :| n in rest;
      rest := rest - {n};
      if n in inRun {
        var minPosition := GetMinPositionInCurrentRun(run, n, g);
        if minPosition.Failure? {
          return Failure(minPosition.error);
        }
        MinPositionNonnegative(g[n].before, run);
        var taken := GetTakenColumns(run);
        var found := GetScheduledModulesForNodeAfterPos(g, minPosition.value, n, taken, hw, selections);
        if found.Failure? {
          return Failure(found.error);
        }
        if SortedDisjoint(taken) {
          ScheduledModulesAreGood(g, minPosition.value, n, taken, hw, selections);
        }
        assert forall p :: p in found.value ==> p.1.nodeName == n by {
          ScheduledModuleNames(g, minPosition.value, n, taken, hw, selections);
        }
        all := all + found.value;
      }
    }
    r := Success(all);
  }

  /** Every placement offered to a node is that node's. */
  lemma ScheduledModuleNames(g: Graph, minPosition: nat, node: string, taken: seq<(int, int)>, hw: HwLibrary,
                             selections: seq<seq<Clause>>)
    requires ScheduledModulesForNode(g, minPosition, node, taken, hw, selections).Success?
    ensures forall p :: p in ScheduledModulesForNode(g, minPosition, node, taken, hw, selections).value ==>
      p.1.nodeName == node
  {
    var op := g[node].operation;
    var sb := g[node].satisfyingBitstreams;
    var preferred := if |sb| > 0 && |selections| != 1 then
                       (if |selections| < 2 then Failure("IndexError")
                        else ChosenPlacements(hw, op, node, selections[1], minPosition, taken, sb))
                     else Success([]);
    if preferred.Success? && |preferred.value| > 0 {
      ChosenPlacementNames(hw, op, node, selections[1], minPosition, taken, sb);
    } else if |selections| > 0 && op in hw {
      ChosenPlacementNames(hw, op, node, selections[0], minPosition, taken, hw[op].startLocations);
    }
  }

  lemma ChosenPlacementNames(hw: HwLibrary, op: string, node: string, clauses: seq<Clause>, minPosition: nat,
                             taken: seq<(int, int)>, locs: seq<seq<string>>)
    requires ChosenPlacements(hw, op, node, clauses, minPosition, taken, locs).Success?
    ensures forall p :: p in ChosenPlacements(hw, op, node, clauses, minPosition, taken, locs).value ==>
      p.1.nodeName == node
  {
    if minPosition <= |locs| {
      var cands := Candidates(hw, op, minPosition, |locs|, locs, taken).value;
      if |cands| > 0 {
        var all := PlacementsOf(hw, op, node, cands).value;
        PreferencesCharacterisation(all, clauses);
      }
    }
  }

  /** A good placement in an empty run is the whole run, sorted. */
  lemma FirstPlacementSorted(hw: HwLibrary, op: string, node: string, p: Placement)
    requires PositiveLengths(hw) && GoodPlacement(hw, op, node, 0, [], p)
    ensures p.0 == 0 && SortedDisjoint(Positions([p.1]))
  {
    InsertSorted([], 0, p.1.position);
    assert Positions([p.1]) == Insert([], 0, p.1.position);
  }

  class Search {
    const hw: HwLibrary
    const reduceSingleRuns: bool
    const selections: seq<seq<Clause>>
    const firstNodes: set<string>
    const useMaxRunsCap: bool
    /** The complete plans found, keyed by plan. */
    var plans: map<Plan, PlanRecord>
    /** The fewest runs of a plan found so far (sys.maxsize before any). */
    var minRuns: int
    var timedOut: bool
    /** The answers to the coming time-limit checks: true once the limit
        has passed. */
    var clock: seq<bool>

    /** The shared state: minRuns is sys.maxsize or the run count of a
        saved plan, no saved plan has fewer runs, and for a library of
        positive lengths every run of every plan is sorted and disjoint. */
    predicate Valid()
      reads this
    {
      minRuns <= MAXSIZE &&
      (forall p :: p in plans ==> minRuns <= |p| && (PositiveLengths(hw) ==> RunsSorted(p))) &&
      (minRuns == MAXSIZE || exists p :: p in plans && |p| == minRuns)
    }

    constructor (hw: HwLibrary, reduceSingleRuns: bool, selections: seq<seq<Clause>>, firstNodes: set<string>,
                 useMaxRunsCap: bool, clock: seq<bool>)
      ensures Valid()
      ensures this.hw == hw && this.reduceSingleRuns == reduceSingleRuns && this.selections == selections &&
        this.firstNodes == firstNodes && this.useMaxRunsCap == useMaxRunsCap && this.clock == clock
      ensures plans == map[] && minRuns == MAXSIZE && !timedOut
    {
      this.hw := hw;
      this.reduceSingleRuns := reduceSingleRuns;
      this.selections := selections;
      this.firstNodes := firstNodes;
      this.useMaxRunsCap := useMaxRunsCap;
      this.clock := clock;
      plans := map[];
      minRuns := MAXSIZE;
      timedOut := false;
    }

    /** One check of perf_counter() - start > time_limit: the next clock
        answer, and passed once the answers run out. */
    method CheckTimeLimit()
      modifies this`clock, this`timedOut
      ensures clock == if |old(clock)| == 0 then [] else old(clock)[1..]
      ensures timedOut == (old(timedOut) || |old(clock)| == 0 || old(clock)[0])
    {
      var passed := |clock| == 0 || clock[0];
      clock := if |clock| == 0 then [] else clock[1..];
      if passed {
        timedOut := true;
      }
    }

    /** Saves a complete plan unless it is already there, and lowers the
        smallest run count when it has fewer runs. */
    method SavePlan(complete: Plan, record: PlanRecord)
      requires Valid() && (PositiveLengths(hw) ==> RunsSorted(complete))
      modifies this`plans, this`minRuns
      ensures Valid()
      ensures plans == if complete in old(plans) then old(plans) else old(plans)[complete := record]
      ensures minRuns == if complete !in old(plans) && |complete| < old(minRuns) then |complete| else old(minRuns)
    {
      if complete !in plans {
        plans := plans[complete := record];
        if |complete| < minRuns {
          minRuns := |complete|;
        }
      }
    }

    /** place_nodes_recursively.  A search that had already timed out
        raises at once and changes nothing; otherwise it only adds plans
        that extend `plan`, keeps the saved ones, never raises the smallest
        run count and never clears the timeout. */
    method PlaceNodesRecursively(available: set<string>, past: set<string>, g: Graph, run: seq<ScheduledModule>,
                                 plan: Plan, tables: DataTables, blocked: set<string>, nextRunBlocked: set<string>,
                                 streamed: int, fuel: nat) returns (r: Result<()>)
      requires Valid()
      requires PositiveLengths(hw) ==> RunsSorted(plan) && SortedDisjoint(Positions(run))
      modifies this
      ensures Valid() && Extends(old(plans), plans, plan)
      ensures minRuns <= old(minRuns) && (old(timedOut) ==> timedOut)
      ensures old(timedOut) ==> r == Failure("Timeout") && unchanged(this)
      decreases fuel, 5
    {
      if timedOut {
        return Failure("Timeout");
      }
      if fuel == 0 {
        return Failure("Out of fuel");
      }
      if !(|plan| > minRuns && useMaxRunsCap) {
        if available != {} && !(available <= blocked) {
          r := PlaceAvailableNodes(available, past, g, run, plan, tables, blocked, nextRunBlocked, streamed, fuel);
        } else {
          SavePlan(plan + [run], PlanRecord(available, g, tables, past, streamed));
          assert (plan + [run])[..|plan|] == plan;
          CheckTimeLimit();
          r := Success(());
        }
      } else {
        CheckTimeLimit();
        r := Success(());
      }
    }

    /** The branch of place_nodes_recursively that still has nodes to
        place: every placement offered in the current run is explored,
        then, unless single runs are reduced and some placement was found,
        the next run is opened. */
    method PlaceAvailableNodes(available: set<string>, past: set<string>, g: Graph, run: seq<ScheduledModule>,
                               plan: Plan, tables: DataTables, blocked: set<string>, nextRunBlocked: set<string>,
                               streamed: int, fuel: nat) returns (r: Result<()>)
      requires Valid() && fuel > 0
      requires PositiveLengths(hw) ==> RunsSorted(plan) && SortedDisjoint(Positions(run))
      modifies this
      ensures Valid() && Extends(old(plans), plans, plan)
      ensures minRuns <= old(minRuns) && (old(timedOut) ==> timedOut)
      decreases fuel, 4
    {
      var inRun := RemoveUnavailableNodesInThisRun(available, run, hw, g, firstNodes, blocked);
      if inRun.Failure? {
        return Failure(inRun.error);
      }
      var placements := CollectPlacements(available, inRun.value, run, g, hw, selections);
      if placements.Failure? {
        return Failure(placements.error);
      }
      var size := streamed;
      if |placements.value| > 0 {
        var placed := PlaceInCurrentRun(placements.value, available, past, g, run, plan, tables, blocked,
                                        nextRunBlocked, streamed, fuel);
        if placed.Failure? {
          return Failure(placed.error);
        }
        size := placed.value;
      }
      if (|placements.value| == 0 || !reduceSingleRuns) && |run| > 0 {
        ghost var before := plans;
        r := PlaceInNextRun(available, past, g, run, plan, tables, blocked, nextRunBlocked, size, fuel);
        ExtendsTransitive(old(plans), before, plans, plan);
        return;
      }
      r := Success(());
    }

    /** The loop of place_nodes_recursively over the placements offered in
        the current run; it answers the streamed data size it reached. */
    method PlaceInCurrentRun(placements: seq<Placement>, available: set<string>, past: set<string>, g: Graph,
                             run: seq<ScheduledModule>, plan: Plan, tables: DataTables, blocked: set<string>,
                             nextRunBlocked: set<string>, streamed: int, fuel: nat) returns (r: Result<int>)
      requires Valid()
      requires PositiveLengths(hw) ==>
        RunsSorted(plan) && SortedDisjoint(Positions(run)) &&
        forall p :: p in placements ==> FitsAt(Positions(run), p.0, p.1.position)
      modifies this
      ensures Valid() && Extends(old(plans), plans, plan)
      ensures minRuns <= old(minRuns) && (old(timedOut) ==> timedOut)
      decreases fuel, 2
    {
      var size := streamed;
      var i := 0;
      while i < |placements|
        invariant 0 <= i <= |placements|
        invariant Valid() && Extends(old(plans), plans, plan)
        invariant minRuns <= old(minRuns) && (old(timedOut) ==> timedOut)
      {
        var at := placements[i].0;
        var m := placements[i].1;
        var newRun := InsertModule(run, at, m);
        if PositiveLengths(hw) {
          assert placements[i] in placements;
          InsertSorted(Positions(run), at, m.position);
          InsertModulePositions(run, at, m);
        }
        var extra := GetNewStreamedDataSize(run, m.nodeName, tables, g);
        if extra.Failure? {
          return Failure(extra.error);
        }
        size := size + extra.value;
        ghost var before := plans;
        var next := FindNextModulePlacement(m, newRun, available, past, g, plan, tables, blocked, nextRunBlocked,
                                            size, fuel);
        ExtendsTransitive(old(plans), before, plans, plan);
        if next.Failure? {
          return Failure(next.error);
        }
        i := i + 1;
      }
      r := Success(size);
    }

    /** The loop of place_nodes_recursively that closes the current run and
        starts a new one with an available node (Python's loop over the
        available set; its order is a free choice here). */
    method PlaceInNextRun(available: set<string>, past: set<string>, g: Graph, run: seq<ScheduledModule>,
                          plan: Plan, tables: DataTables, blocked: set<string>, nextRunBlocked: set<string>,
                          streamed: int, fuel: nat) returns (r: Result<()>)
      requires Valid()
      requires PositiveLengths(hw) ==> RunsSorted(plan) && SortedDisjoint(Positions(run))
      modifies this
      ensures Valid() && Extends(old(plans), plans, plan)
      ensures minRuns <= old(minRuns) && (old(timedOut) ==> timedOut)
      decreases fuel, 3
    {
      if fuel == 0 {
        return Failure("Out of fuel");
      }
      var size := streamed;
      var rest := available;
      while rest != {}
        invariant Valid() && Extends(old(plans), plans, plan)
        invariant minRuns <= old(minRuns) && (old(timedOut) ==> timedOut)
        decreases |rest|
      {
        var node :| node in rest;
        rest := rest - {node};
        if node !in blocked {
          var newBlocked := blocked + nextRunBlocked;
          if node in newBlocked {
            ghost var before := plans;
            r := PlaceNodesRecursively(available, past, g, run, plan, tables, newBlocked, {}, size, fuel - 1);
            ExtendsTransitive(old(plans), before, plans, plan);
            return;
          }
          ghost var before := plans;
          var started := StartNextRun(node, available, past, g, run, plan, tables, newBlocked, size, fuel);
          ExtendsTransitive(old(plans), before, plans, plan);
          if started.Failure? {
            return Failure(started.error);
          }
          size := started.value;
        }
      }
      r := Success(());
    }

    /** Closes the current run and tries every placement of `node` at the
        start of an empty next run; it answers the streamed data size it
        reached. */
    method StartNextRun(node: string, available: set<string>, past: set<string>, g: Graph,
                        run: seq<ScheduledModule>, plan: Plan, tables: DataTables, newBlocked: set<string>,
                        streamed: int, fuel: nat) returns (r: Result<int>)
      requires Valid()
      requires PositiveLengths(hw) ==> RunsSorted(plan) && SortedDisjoint(Positions(run))
      modifies this
      ensures Valid() && Extends(old(plans), plans, plan)
      ensures minRuns <= old(minRuns) && (old(timedOut) ==> timedOut)
      decreases fuel, 2
    {
      var newPlan := plan + [run];
      assert newPlan[..|plan|] == plan;
      assert PositiveLengths(hw) ==> RunsSorted(newPlan);
      var placements := GetScheduledModulesForNodeAfterPos(g, 0, node, [], hw, selections);
      if placements.Failure? {
        return Failure(placements.error);
      }
      if |placements.value| == 0 {
        return Failure("Something went wrong - Should be able to place nodes in an empty run!");
      }
      ScheduledModulesAreGood(g, 0, node, [], hw, selections);
      var size := streamed;
      var j := 0;
      while j < |placements.value|
        invariant 0 <= j <= |placements.value|
        invariant Valid() && Extends(old(plans), plans, plan)
        invariant minRuns <= old(minRuns) && (old(timedOut) ==> timedOut)
      {
        var m := placements.value[j].1;
        if PositiveLengths(hw) {
          assert placements.value[j] in placements.value;
          FirstPlacementSorted(hw, g[node].operation, node, placements.value[j]);
        }
        var extra := GetNewStreamedDataSize(run, node, tables, g);
        if extra.Failure? {
          return Failure(extra.error);
        }
        size := size + extra.value;
        ghost var before := plans;
        var next := FindNextModulePlacement(m, [m], available, past, g, newPlan, tables, newBlocked, {}, size, fuel);
        ExtendsShorter(before, plans, plan, newPlan);
        ExtendsTransitive(old(plans), before, plans, plan);
        if next.Failure? {
          return Failure(next.error);
        }
        j := j + 1;
      }
      r := Success(size);
    }

    /** find_next_module_placement: updates the graph and tables for the
        placed module, moves it and any skipped sort nodes to the past
        nodes when its requirements are met, refreshes the satisfying
        bitstreams, extends the next-run blocked nodes and recurses. */
    method FindNextModulePlacement(m: ScheduledModule, newRun: seq<ScheduledModule>, available: set<string>,
                                   past: set<string>, g: Graph, plan: Plan, tables: DataTables, blocked: set<string>,
                                   nextRunBlocked: set<string>, streamed: int, fuel: nat) returns (r: Result<()>)
      requires Valid()
      requires PositiveLengths(hw) ==> RunsSorted(plan) && SortedDisjoint(Positions(newRun))
      modifies this
      ensures Valid() && Extends(old(plans), plans, plan)
      ensures minRuns <= old(minRuns) && (old(timedOut) ==> timedOut)
      decreases fuel, 1
    {
      if fuel == 0 {
        return Failure("Out of fuel");
      }
      var node := m.nodeName;
      if node !in g {
        return Failure("KeyError");
      }
      var update := UpdateAllNodes(g, m.bitstream, tables, hw, node, g[node].capacity, g[node].operation);
      if update.Failure? {
        return Failure(update.error);
      }
      var newGraph, newTables, satisfies, skipped := update.value.0, update.value.1, update.value.2, update.value.3;
      var lists := CreateNewAvailableNodesLists(g, available, past, node, satisfies);
      if lists.Failure? {
        return Failure(lists.error);
      }
      var afterSkipped := ProcessSkippedNodes(g, lists.value.0, lists.value.1, skipped, satisfies);
      if afterSkipped.Failure? {
        return Failure(afterSkipped.error);
      }
      var newPast := afterSkipped.value.1;
      var refreshed := UpdateSatisfyingBitstreams(node, g, newGraph, afterSkipped.value.0, hw, tables, newTables,
                                                  newPast, fuel);
      if refreshed.Failure? {
        return Failure(refreshed.error);
      }
      var blockedNext := NewBlockedNodes(nextRunBlocked, hw, m, g, fuel);
      if blockedNext.Failure? {
        return Failure(blockedNext.error);
      }
      r := PlaceNodesRecursively(refreshed.value.0, newPast, refreshed.value.1, newRun, plan, refreshed.value.2,
                                 blocked, blockedNext.value, streamed, fuel - 1);
    }
  }
}
