/** The elastic resource scheduler's bookkeeping around a finished plan:
    finding a query node by name in the graph below the available nodes,
    turning the plan's runs into the queue of (modules, nodes) pairs with
    module-location markers and merge-sort parameter blocks, and the
    default heuristic pairs.  Node pointers are names in an arena; the
    recursion of the name search is bounded by `fuel`. */
module ResourceScheduler {
  import opened Wrappers
  import opened CoreTypes
  import Selection
  import ScheduleTypes

  const NO_NODE := "No corresponding node found!"
  /** The name search ran deeper than its fuel; the C++ recursion has no
      bound and would exhaust the stack on a cyclic graph. */
  const SEARCH_TOO_DEEP := "Search depth exceeded"
  /** The hard-coded merge-sort module capacity. */
  const MERGE_SORT_CAPACITY := 64
  const MERGE_SORT_RUN_PARAM_COUNT := 2

  // ---------------------------------------------------------------------
  // FindSharedPointerFromRootNodes and GetNodePointerWithName

  /** FindSharedPointerFromRootNodes: the first node named `name` in
      pre-order, following the non-null next pointers. */
  function FindFrom(name: string, current: string, arena: Arena, fuel: nat): (r: Result<Option<string>>)
    ensures r.Success? && r.value.Some? ==> r.value.value in arena && arena[r.value.value].name == name
    ensures r.Failure? ==> r.error == "Undefined" || r.error == SEARCH_TOO_DEEP
    decreases fuel, 1, 0
  {
    if current !in arena then Failure("Undefined")
    else if arena[current].name == name then Success(Some(current))
    else FindAmong(name, arena[current].nextNodes, arena, fuel)
  }

  /** The search through one node's next pointers, in order. */
  function FindAmong(name: string, nexts: seq<Option<string>>, arena: Arena, fuel: nat): (r: Result<Option<string>>)
    ensures r.Success? && r.value.Some? ==> r.value.value in arena && arena[r.value.value].name == name
    ensures r.Failure? ==> r.error == "Undefined" || r.error == SEARCH_TOO_DEEP
    decreases fuel, 0, |nexts|
  {
    if |nexts| == 0 then Success(None)
    else if nexts[0].None? then FindAmong(name, nexts[1..], arena, fuel)
    else if fuel == 0 then Failure(SEARCH_TOO_DEEP)
    else
      match FindFrom(name, nexts[0].value, arena, fuel - 1)
      case Failure(e) => Failure(e)
      case Success(Some(k)) => Success(Some(k))
      case Success(None) => FindAmong(name, nexts[1..], arena, fuel)
  }

  /** The nodes the search from `current` can visit within `fuel` levels. */
  function Within(current: string, arena: Arena, fuel: nat): set<string>
    decreases fuel, 1, 0
  {
    {current} + (if current in arena then WithinAmong(arena[current].nextNodes, arena, fuel) else {})
  }

  function WithinAmong(nexts: seq<Option<string>>, arena: Arena, fuel: nat): set<string>
    decreases fuel, 0, |nexts|
  {
    if |nexts| == 0 then {}
    else
      (if nexts[0].Some? && fuel > 0 then Within(nexts[0].value, arena, fuel - 1) else {}) +
      WithinAmong(nexts[1..], arena, fuel)
  }

  /** A found node is one the search can visit, and a search that finds
      nothing has visited no node with the name. */
  lemma {:induction false} FindFromMeaning(name: string, current: string, arena: Arena, fuel: nat)
    ensures var r := FindFrom(name, current, arena, fuel);
      r.Success? ==>
        (r.value.Some? ==> r.value.value in Within(current, arena, fuel)) &&
        (r.value.None? ==> forall k :: k in Within(current, arena, fuel) && k in arena ==> arena[k].name != name)
    decreases fuel, 1, 0
  {
    if current in arena && arena[current].name != name {
      FindAmongMeaning(name, arena[current].nextNodes, arena, fuel);
    }
  }

  lemma {:induction false} FindAmongMeaning(name: string, nexts: seq<Option<string>>, arena: Arena, fuel: nat)
    ensures var r := FindAmong(name, nexts, arena, fuel);
      r.Success? ==>
        (r.value.Some? ==> r.value.value in WithinAmong(nexts, arena, fuel)) &&
        (r.value.None? ==> forall k :: k in WithinAmong(nexts, arena, fuel) && k in arena ==> arena[k].name != name)
    decreases fuel, 0, |nexts|
  {
    if |nexts| > 0 {
      FindAmongMeaning(name, nexts[1..], arena, fuel);
      if nexts[0].Some? && fuel > 0 {
        FindFromMeaning(name, nexts[0].value, arena, fuel - 1);
      }
    }
  }

  /** The arenas agree on every node's name and next pointers. */
  predicate SameLinks(a: Arena, b: Arena) {
    a.Keys == b.Keys && forall k :: k in a ==> b[k].name == a[k].name && b[k].nextNodes == a[k].nextNodes
  }

  lemma SameLinksTransitive(a: Arena, b: Arena, c: Arena)
    requires SameLinks(a, b) && SameLinks(b, c)
    ensures SameLinks(a, c)
  {
  }

  /** The search reads only names and next pointers. */
  lemma {:induction false} FindFromLinks(name: string, current: string, a: Arena, b: Arena, fuel: nat)
    requires SameLinks(a, b)
    ensures FindFrom(name, current, a, fuel) == FindFrom(name, current, b, fuel)
    decreases fuel, 1, 0
  {
    if current in a && a[current].name != name {
      FindAmongLinks(name, a[current].nextNodes, a, b, fuel);
    }
  }

  lemma {:induction false} FindAmongLinks(name: string, nexts: seq<Option<string>>, a: Arena, b: Arena, fuel: nat)
    requires SameLinks(a, b)
    ensures FindAmong(name, nexts, a, fuel) == FindAmong(name, nexts, b, fuel)
    decreases fuel, 0, |nexts|
  {
    if |nexts| > 0 {
      FindAmongLinks(name, nexts[1..], a, b, fuel);
      if nexts[0].Some? && fuel > 0 {
        FindFromLinks(name, nexts[0].value, a, b, fuel - 1);
      }
    }
  }

  /** The first root whose search finds the name, trying the roots in
      order. */
  function FirstRootMatch(roots: seq<string>, name: string, arena: Arena, fuel: nat): (r: Result<Option<string>>)
    ensures r.Failure? ==> r.error == "Undefined" || r.error == SEARCH_TOO_DEEP
  {
    if |roots| == 0 then Success(None)
    else
      match FindFrom(name, roots[0], arena, fuel)
      case Failure(e) => Failure(e)
      case Success(Some(k)) => Success(Some(k))
      case Success(None) => FirstRootMatch(roots[1..], name, arena, fuel)
  }

  /** What GetNodePointerWithName returns: with no roots the chosen
      pointer is never initialised. */
  function NodeWithName(available: seq<string>, name: string, arena: Arena, fuel: nat): (r: Result<string>)
    ensures r.Success? ==> r.value in arena && arena[r.value].name == name
  {
    if |available| == 0 then Failure("Undefined")
    else
      FirstRootMatchFound(available, name, arena, fuel);
      match FirstRootMatch(available, name, arena, fuel)
      case Failure(e) => Failure(e)
      case Success(None) => Failure(NO_NODE)
      case Success(Some(k)) => Success(k)
  }

  lemma {:induction false} FirstRootMatchFound(roots: seq<string>, name: string, arena: Arena, fuel: nat)
    ensures var r := FirstRootMatch(roots, name, arena, fuel);
      r.Success? && r.value.Some? ==> r.value.value in arena && arena[r.value.value].name == name
  {
    if |roots| > 0 {
      FirstRootMatchFound(roots[1..], name, arena, fuel);
    }
  }

  lemma {:induction false} FirstRootMatchMeaning(roots: seq<string>, name: string, arena: Arena, fuel: nat)
    ensures var r := FirstRootMatch(roots, name, arena, fuel);
      r.Success? ==>
        (r.value.Some? ==>
           exists i :: (0 <= i < |roots| && r.value.value in Within(roots[i], arena, fuel) &&
                        forall j :: 0 <= j < i ==> FindFrom(name, roots[j], arena, fuel) == Success(None))) &&
        (r.value.None? ==> forall i, k :: 0 <= i < |roots| && k in Within(roots[i], arena, fuel) && k in arena ==>
           arena[k].name != name)
  {
    if |roots| > 0 {
      FindFromMeaning(name, roots[0], arena, fuel);
      FirstRootMatchMeaning(roots[1..], name, arena, fuel);
      var r := FirstRootMatch(roots, name, arena, fuel);
      if FindFrom(name, roots[0], arena, fuel) == Success(None) && r.Success? {
        if r.value.Some? {
          var i :| 0 <= i < |roots[1..]| && r.value.value in Within(roots[1..][i], arena, fuel) &&
            forall j :: 0 <= j < i ==> FindFrom(name, roots[1..][j], arena, fuel) == Success(None);
          assert roots[1..][i] == roots[i + 1];
          forall j | 0 <= j < i + 1
            ensures FindFrom(name, roots[j], arena, fuel) == Success(None)
          {
            if j > 0 { assert roots[j] == roots[1..][j - 1]; }
          }
        } else {
          forall i, k | 0 <= i < |roots| && k in Within(roots[i], arena, fuel) && k in arena
            ensures arena[k].name != name
          {
            if i > 0 { assert roots[i] == roots[1..][i - 1]; }
          }
        }
      }
    }
  }

  /** The node GetNodePointerWithName returns has the name, lies below
      the first root whose search finds the name, and every earlier root's
      search found nothing; "No corresponding node found!" means that no
      node the searches visit has the name. */
  lemma NodeWithNameMeaning(available: seq<string>, name: string, arena: Arena, fuel: nat)
    ensures var r := NodeWithName(available, name, arena, fuel);
      (|available| == 0 ==> r == Failure("Undefined")) &&
      (r.Success? ==>
         r.value in arena && arena[r.value].name == name &&
         exists i :: (0 <= i < |available| && r.value in Within(available[i], arena, fuel) &&
                      forall j :: 0 <= j < i ==> FindFrom(name, available[j], arena, fuel) == Success(None))) &&
      (r == Failure(NO_NODE) ==>
         forall i, k :: 0 <= i < |available| && k in Within(available[i], arena, fuel) && k in arena ==>
           arena[k].name != name)
  {
    FirstRootMatchMeaning(available, name, arena, fuel);
  }

  lemma {:induction false} FirstRootMatchLinks(roots: seq<string>, name: string, a: Arena, b: Arena, fuel: nat)
    requires SameLinks(a, b)
    ensures FirstRootMatch(roots, name, a, fuel) == FirstRootMatch(roots, name, b, fuel)
  {
    if |roots| > 0 {
      FindFromLinks(name, roots[0], a, b, fuel);
      FirstRootMatchLinks(roots[1..], name, a, b, fuel);
    }
  }

  lemma NodeWithNameLinks(available: seq<string>, name: string, a: Arena, b: Arena, fuel: nat)
    requires SameLinks(a, b)
    ensures NodeWithName(available, name, a, fuel) == NodeWithName(available, name, b, fuel)
  {
    FirstRootMatchLinks(available, name, a, b, fuel);
  }

  /** GetNodePointerWithName: searches below each available node in turn
      and stops at the first that yields the name. */
  method GetNodePointerWithName(available: seq<string>, name: string, arena: Arena, fuel: nat)
    returns (r: Result<string>)
    ensures r == NodeWithName(available, name, arena, fuel)
  {
    if |available| == 0 {
      return Failure("Undefined");
    }
    var i := 0;
    while i < |available|
      invariant 0 <= i <= |available|
      invariant FirstRootMatch(available, name, arena, fuel) == FirstRootMatch(available[i..], name, arena, fuel)
    {
      assert available[i..][1..] == available[i + 1..];
      var found := FindFrom(name, available[i], arena, fuel);
      if found.Failure? {
        return Failure(found.error);
      }
      if found.value.Some? {
        return Success(found.value.value);
      }
      i := i + 1;
    }
    r := Failure(NO_NODE);
  }

  // ---------------------------------------------------------------------
  // Merge-sort parameter blocks of GetQueueOfResultingRuns

  /** What the channel of the run after the last full one receives: the
      records not covered by the sorted runs. */
  function Remainder(status: seq<int>, tableSize: int): int
    requires |status| >= 3
  {
    tableSize - (status[0] + (status[1] - 1) * status[2])
  }

  /** Entry `k` of block `i`: block 0 opens with `status[0]`, each later
      column up to the run count receives the run length, the next one the
      remainder, and the rest stay 0. */
  function ChannelEntry(status: seq<int>, tableSize: int, start: int, last: int, k: int): int
    requires |status| >= 2 && (start <= last ==> |status| >= 3)
  {
    if start == 1 && k == 0 then status[0]
    else if start <= k <= last then status[2]
    else if start <= last && k == last + 1 then Remainder(status, tableSize)
    else 0
  }

  /** The 64 channel sizes of block `i` of a merge sort whose first
      module's sorted status is `status`.  The write after the run at
      column 63 falls outside the vector. */
  function ChannelSizes(status: seq<int>, tableSize: int, i: nat): (r: Result<seq<int>>)
    ensures r.Success? ==> |r.value| == MERGE_SORT_CAPACITY
    ensures r.Failure? ==> r.error == "out_of_range" || r.error == "Undefined"
  {
    var start := if i == 0 then 1 else 0;
    if |status| < 2 then Failure("out_of_range")
    else
      var last := status[1] - i * MERGE_SORT_CAPACITY;
      if start <= last && |status| < 3 then Failure("out_of_range")
      else if start <= last && last == MERGE_SORT_CAPACITY - 1 then Failure("Undefined")
      else Success(seq(MERGE_SORT_CAPACITY, k => ChannelEntry(status, tableSize, start, last, k)))
  }

  /** The channel-size loop of GetQueueOfResultingRuns, on a fixed-size
      vector of 64 zeros. */
  method ChannelSizesFor(status: seq<int>, tableSize: int, i: nat) returns (r: Result<seq<int>>)
    ensures r == ChannelSizes(status, tableSize, i)
  {
    var channels := new int[MERGE_SORT_CAPACITY](_ => 0);
    var offset := i * MERGE_SORT_CAPACITY;
    var start := 0;
    if i == 0 {
      start := 1;
      if |status| < 1 {
        return Failure("out_of_range");
      }
      channels[0] := status[0];
    }
    // The loop condition reads status.at(1) before its first test.
    if |status| < 2 {
      return Failure("out_of_range");
    }
    ghost var last := status[1] - offset;
    var j := start;
    while j < (status[1] + 1) - offset && j < MERGE_SORT_CAPACITY
      invariant start <= j <= MERGE_SORT_CAPACITY
      invariant j == start || j <= last + 1
      invariant j > start ==> |status| >= 3
      invariant start <= last && last == MERGE_SORT_CAPACITY - 1 ==> j <= last
      invariant forall k :: 0 <= k < MERGE_SORT_CAPACITY ==>
        channels[k] == (if start == 1 && k == 0 then status[0]
                        else if start <= k < j then status[2]
                        else if j == last + 1 && start <= last && k == last + 1 then Remainder(status, tableSize)
                        else 0)
    {
      if |status| < 3 {
        assert start <= last;
        return Failure("out_of_range");
      }
      channels[j] := status[2];
      if status[1] == j + offset {
        var sortedSoFar := status[0] + (status[1] - 1) * status[2];
        if j + 1 >= MERGE_SORT_CAPACITY {
          assert start <= last && last == MERGE_SORT_CAPACITY - 1;
          return Failure("Undefined");
        }
        channels[j + 1] := tableSize - sortedSoFar;
      }
      j := j + 1;
    }
    assert channels[..] == seq(MERGE_SORT_CAPACITY, k => ChannelEntry(status, tableSize, start, last, k));
    r := Success(channels[..]);
  }

  /** The `n` (channel sizes, `{offset}`) pairs of a merge-sort node. */
  function MergeSortBlocks(status: seq<int>, tableSize: int, n: nat): (r: Result<seq<seq<int>>>)
    ensures r.Success? <==> forall i :: 0 <= i < n ==> ChannelSizes(status, tableSize, i).Success?
    ensures r.Failure? ==> r.error == "out_of_range" || r.error == "Undefined"
    ensures r.Success? ==> |r.value| == 2 * n
    ensures r.Success? ==> forall i :: 0 <= i < n ==> |r.value[2 * i]| == MERGE_SORT_CAPACITY
    ensures r.Success? ==> forall i :: 0 <= i < n ==>
        Success(r.value[2 * i]) == ChannelSizes(status, tableSize, i) && r.value[2 * i + 1] == [i * MERGE_SORT_CAPACITY]
  {
    if n == 0 then Success([])
    else
      match MergeSortBlocks(status, tableSize, n - 1)
      case Failure(e) => Failure(e)
      case Success(blocks) =>
        match ChannelSizes(status, tableSize, n - 1)
        case Failure(e) => Failure(e)
        case Success(c) => Success(blocks + [c, [(n - 1) * MERGE_SORT_CAPACITY]])
  }

  /** The index of the run's first merge-sort module (std::find_if). */
  function FirstMergeSort(run: seq<PlacedModule>): (r: Option<nat>)
    ensures r.Some? ==> r.value < |run| && run[r.value].operation == MergeSort
    ensures r.Some? ==> forall j :: 0 <= j < r.value ==> run[j].operation != MergeSort
    ensures r.None? ==> forall j :: 0 <= j < |run| ==> run[j].operation != MergeSort
  {
    if |run| == 0 then None
    else if run[0].operation == MergeSort then Some(0)
    else
      match FirstMergeSort(run[1..])
      case None => None
      case Some(j) => Some(j + 1)
  }

  /** The new parameters of a merge-sort node with `count` modules in the
      run: an empty leading vector is dropped, then `{count, 2}` and the
      blocks follow, all taken from the run's first merge-sort module
      whichever node it belongs to.  Without one the dereference of the
      end iterator is undefined. */
  function MergeSortParams(params: seq<seq<int>>, count: int, run: seq<PlacedModule>): (r: Result<seq<seq<int>>>)
    ensures r.Success? ==>
      var base := if |params| > 0 && |params[0]| == 0 then params[1..] else params;
      var n := if count > 0 then count else 0;
      FirstMergeSort(run).Some? &&
      |r.value| == |base| + 1 + 2 * n && r.value[..|base|] == base &&
      r.value[|base|] == [count, MERGE_SORT_RUN_PARAM_COUNT] &&
      forall i :: 0 <= i < n ==>
        |r.value[|base| + 1 + 2 * i]| == MERGE_SORT_CAPACITY && r.value[|base| + 2 + 2 * i] == [i * MERGE_SORT_CAPACITY]
    ensures FirstMergeSort(run).None? ==> r == Failure("Undefined")
  {
    var base := if |params| > 0 && |params[0]| == 0 then params[1..] else params;
    match FirstMergeSort(run)
    case None => Failure("Undefined")
    case Some(f) =>
      var m := run[f];
      match MergeSortBlocks(m.processedTableData, m.tableDataSize, if count > 0 then count else 0)
      case Failure(e) => Failure(e)
      case Success(blocks) =>
        var r := base + [[count, MERGE_SORT_RUN_PARAM_COUNT]] + blocks;
        var n := if count > 0 then count else 0;
        forall i | 0 <= i < n
          ensures |r[|base| + 1 + 2 * i]| == MERGE_SORT_CAPACITY && r[|base| + 2 + 2 * i] == [i * MERGE_SORT_CAPACITY]
        {
          assert r[|base| + 1 + 2 * i] == blocks[2 * i];
          assert r[|base| + 2 + 2 * i] == blocks[2 * i + 1];
        }
        Success(r)
  }

  /** The parameter rewrite of one merge-sort node, block by block. */
  method MergeSortParameters(params: seq<seq<int>>, count: int, run: seq<PlacedModule>) returns (r: Result<seq<seq<int>>>)
    ensures r == MergeSortParams(params, count, run)
  {
    var out := params;
    if |out| > 0 && |out[0]| == 0 {
      out := out[1..];
    }
    out := out + [[count, MERGE_SORT_RUN_PARAM_COUNT]];
    var first := FirstMergeSort(run);
    if first.None? {
      return Failure("Undefined");
    }
    var status := run[first.value].processedTableData;
    var size := run[first.value].tableDataSize;
    var blocks: seq<seq<int>> := [];
    var i := 0;
    while i < count
      invariant 0 <= i <= (if count > 0 then count else 0)
      invariant MergeSortBlocks(status, size, i) == Success(blocks)
    {
      var channels := ChannelSizesFor(status, size, i);
      if channels.Failure? {
        MergeSortBlocksFailure(status, size, i, count);
        return Failure(channels.error);
      }
      blocks := blocks + [channels.value, [i * MERGE_SORT_CAPACITY]];
      i := i + 1;
    }
    assert i == if count > 0 then count else 0;
    r := Success(out + blocks);
  }

  /** The early exit of the block loop is the first failing block. */
  lemma {:induction false} MergeSortBlocksFailure(status: seq<int>, tableSize: int, i: nat, n: nat)
    requires i < n && MergeSortBlocks(status, tableSize, i).Success? && ChannelSizes(status, tableSize, i).Failure?
    ensures MergeSortBlocks(status, tableSize, n) == Failure(ChannelSizes(status, tableSize, i).error)
    decreases n
  {
    if n > i + 1 {
      MergeSortBlocksFailure(status, tableSize, i, n - 1);
    }
  }

  // ---------------------------------------------------------------------
  // The runs of GetQueueOfResultingRuns

  /** The node each module of the run is found at, or the first failing
      search. */
  function FoundKeys(run: seq<PlacedModule>, available: seq<string>, arena: Arena, fuel: nat): (r: Result<seq<string>>)
    ensures r.Success? ==> |r.value| == |run|
  {
    if |run| == 0 then Success([])
    else
      var prefix := run[..|run| - 1];
      match FoundKeys(prefix, available, arena, fuel)
      case Failure(e) => Failure(e)
      case Success(keys) =>
        match NodeWithName(available, run[|run| - 1].nodeName, arena, fuel)
        case Failure(e) => Failure(e)
        case Success(k) => Success(keys + [k])
  }

  /** The keys are exactly the searches' results, and the run fails
      exactly when one search does. */
  lemma {:induction false} FoundKeysMeaning(run: seq<PlacedModule>, available: seq<string>, arena: Arena, fuel: nat)
    ensures var r := FoundKeys(run, available, arena, fuel);
      r.Success? <==> forall m :: 0 <= m < |run| ==> NodeWithName(available, run[m].nodeName, arena, fuel).Success?
    ensures var r := FoundKeys(run, available, arena, fuel);
      r.Success? ==>
        forall m :: 0 <= m < |run| ==> NodeWithName(available, run[m].nodeName, arena, fuel) == Success(r.value[m])
  {
    if |run| > 0 {
      var prefix := run[..|run| - 1];
      assert forall m :: 0 <= m < |prefix| ==> prefix[m] == run[m];
      FoundKeysMeaning(prefix, available, arena, fuel);
    }
  }

  /** A failure on a prefix of the run is the failure of the whole run. */
  lemma {:induction false} FoundKeysPrefixFailure(run: seq<PlacedModule>, m: nat, available: seq<string>, arena: Arena,
                                                  fuel: nat)
    requires m <= |run| && FoundKeys(run[..m], available, arena, fuel).Failure?
    ensures FoundKeys(run, available, arena, fuel) == FoundKeys(run[..m], available, arena, fuel)
    decreases |run| - m
  {
    if m < |run| {
      assert run[..m + 1][..m] == run[..m];
      FoundKeysPrefixFailure(run, m + 1, available, arena, fuel);
    } else {
      assert run[..m] == run;
    }
  }

  lemma {:induction false} FoundKeysLinks(run: seq<PlacedModule>, available: seq<string>, a: Arena, b: Arena, fuel: nat)
    requires SameLinks(a, b)
    ensures FoundKeys(run, available, a, fuel) == FoundKeys(run, available, b, fuel)
  {
    if |run| > 0 {
      FoundKeysLinks(run[..|run| - 1], available, a, b, fuel);
      NodeWithNameLinks(available, run[|run| - 1].nodeName, a, b, fuel);
    }
  }

  /** The 1-based run positions at which `k` was found. */
  function Occurrences(keys: seq<string>, k: string): seq<int> {
    if |keys| == 0 then []
    else Occurrences(keys[..|keys| - 1], k) + (if keys[|keys| - 1] == k then [|keys|] else [])
  }

  /** The positions listed are exactly those of `k`, ascending. */
  lemma {:induction false} OccurrencesMeaning(keys: seq<string>, k: string)
    ensures forall x :: x in Occurrences(keys, k) <==> 1 <= x <= |keys| && keys[x - 1] == k
    ensures forall a, b :: 0 <= a < b < |Occurrences(keys, k)| ==> Occurrences(keys, k)[a] < Occurrences(keys, k)[b]
    ensures forall a :: 0 <= a < |Occurrences(keys, k)| ==> 1 <= Occurrences(keys, k)[a] <= |keys|
  {
    if |keys| > 0 {
      var prefix := keys[..|keys| - 1];
      var p := Occurrences(prefix, k);
      var tail := if keys[|keys| - 1] == k then [|keys|] else [];
      var r := p + tail;
      assert r == Occurrences(keys, k);
      OccurrencesMeaning(prefix, k);
      forall x
        ensures x in r <==> 1 <= x <= |keys| && keys[x - 1] == k
      {
        if 1 <= x < |keys| {
          assert prefix[x - 1] == keys[x - 1];
        }
      }
      forall a, b | 0 <= a < b < |r|
        ensures r[a] < r[b]
      {
        if b >= |p| {
          assert r[b] == |keys| && r[a] == p[a];
        } else {
          assert r[a] == p[a] && r[b] == p[b];
        }
      }
      forall a | 0 <= a < |r|
        ensures 1 <= r[a] <= |keys|
      {
        if a < |p| {
          assert r[a] == p[a];
        }
      }
    }
  }

  /** How many modules of the run belong to the node named `n`. */
  function CountName(run: seq<PlacedModule>, n: string): (r: nat)
    ensures r > 0 ==> exists m :: 0 <= m < |run| && run[m].nodeName == n
  {
    if |run| == 0 then 0
    else
      var prefix := run[..|run| - 1];
      assert forall m :: 0 <= m < |prefix| ==> prefix[m] == run[m];
      CountName(prefix, n) + (if run[|run| - 1].nodeName == n then 1 else 0)
  }

  /** A module count, 0 for a name not yet counted (`operator[]`). */
  function Get(counts: map<string, int>, n: string): int {
    if n in counts then counts[n] else 0
  }

  /** The names of the given nodes. */
  function NamesOf(arena: Arena, keys: seq<string>): (r: seq<string>)
    requires forall i :: 0 <= i < |keys| ==> keys[i] in arena
    ensures |r| == |keys| && forall i :: 0 <= i < |keys| ==> r[i] == arena[keys[i]].name
  {
    if |keys| == 0 then [] else NamesOf(arena, keys[..|keys| - 1]) + [arena[keys[|keys| - 1]].name]
  }

  /** The module loop's effect on the nodes: position `m + 1` is appended
      to the locations of the node module `m` was found at. */
  function AddPositions(arena: Arena, keys: seq<string>): (r: Arena)
    ensures r.Keys == arena.Keys
  {
    if |keys| == 0 then arena
    else
      var a := AddPositions(arena, keys[..|keys| - 1]);
      var k := keys[|keys| - 1];
      if k in a then a[k := a[k].(moduleLocations := a[k].moduleLocations + [|keys|])] else a
  }

  /** The module loop's effect on the counts. */
  function AddCounts(counts: map<string, int>, run: seq<PlacedModule>): map<string, int> {
    if |run| == 0 then counts
    else
      var c := AddCounts(counts, run[..|run| - 1]);
      var n := run[|run| - 1].nodeName;
      c[n := Get(c, n) + 1]
  }

  /** What the module loop of one run yields: the updated nodes and
      counts and the chosen nodes, each once in the order of its first
      module, or the first failing search. */
  function ChooseSpec(arena: Arena, counts: map<string, int>, available: seq<string>, run: seq<PlacedModule>,
                      fuel: nat): Result<(Arena, map<string, int>, seq<string>)>
  {
    match FoundKeys(run, available, arena, fuel)
    case Failure(e) => Failure(e)
    case Success(keys) =>
      Success((AddPositions(arena, keys), AddCounts(counts, run), Dedup(keys)))
  }

  /** The module loop of one run. */
  method ChooseRunNodes(arena: Arena, counts: map<string, int>, available: seq<string>, run: seq<PlacedModule>,
                        fuel: nat)
    returns (r: Result<(Arena, map<string, int>, seq<string>)>)
    ensures r == ChooseSpec(arena, counts, available, run, fuel)
  {
    var current := arena;
    var c := counts;
    var chosen: seq<string> := [];
    ghost var keys: seq<string> := [];
    var m := 0;
    while m < |run|
      invariant ChooseInvariant(arena, counts, available, run, fuel, m, keys, current, c, chosen)
    {
      ChooseSearch(arena, counts, available, run, fuel, m, keys, current, c, chosen);
      var found := GetNodePointerWithName(available, run[m].nodeName, current, fuel);
      if found.Failure? {
        return Failure(found.error);
      }
      var k := found.value;
      ChooseStep(arena, counts, available, run, fuel, m, keys, current, c, chosen, k);
      c := c[run[m].nodeName := Get(c, run[m].nodeName) + 1];
      current := current[k := current[k].(moduleLocations := current[k].moduleLocations + [m + 1])];
      if k !in chosen {
        chosen := chosen + [k];
      }
      keys := keys + [k];
      m := m + 1;
    }
    ChooseDone(arena, counts, available, run, fuel, keys, current, c, chosen);
    r := Success((current, c, chosen));
  }

  /** The loop's state after `m` modules, in terms of the folds. */
  ghost predicate ChooseInvariant(arena: Arena, counts: map<string, int>, available: seq<string>, run: seq<PlacedModule>,
                                  fuel: nat, m: int, keys: seq<string>, current: Arena, c: map<string, int>,
                                  chosen: seq<string>)
  {
    0 <= m <= |run| && |keys| == m &&
    FoundKeys(run[..m], available, arena, fuel) == Success(keys) &&
    chosen == Dedup(keys) &&
    current == AddPositions(arena, keys) &&
    c == AddCounts(counts, run[..m])
  }

  /** The search in the updated nodes is the search in the original ones;
      a failing search fails the whole loop. */
  lemma ChooseSearch(arena: Arena, counts: map<string, int>, available: seq<string>, run: seq<PlacedModule>,
                     fuel: nat, m: int, keys: seq<string>, current: Arena, c: map<string, int>, chosen: seq<string>)
    requires ChooseInvariant(arena, counts, available, run, fuel, m, keys, current, c, chosen) && m < |run|
    ensures var found := NodeWithName(available, run[m].nodeName, arena, fuel);
      NodeWithName(available, run[m].nodeName, current, fuel) == found &&
      (found.Failure? ==> ChooseSpec(arena, counts, available, run, fuel) == Failure(found.error))
  {
    assert run[..m + 1][..m] == run[..m];
    AddPositionsLinks(arena, keys);
    NodeWithNameLinks(available, run[m].nodeName, arena, current, fuel);
    if NodeWithName(available, run[m].nodeName, arena, fuel).Failure? {
      FoundKeysPrefixFailure(run, m + 1, available, arena, fuel);
    }
  }

  /** One module of the loop takes each fold one step. */
  lemma ChooseStep(arena: Arena, counts: map<string, int>, available: seq<string>, run: seq<PlacedModule>,
                   fuel: nat, m: int, keys: seq<string>, current: Arena, c: map<string, int>, chosen: seq<string>,
                   k: string)
    requires ChooseInvariant(arena, counts, available, run, fuel, m, keys, current, c, chosen) && m < |run|
    requires NodeWithName(available, run[m].nodeName, current, fuel) == Success(k)
    ensures k in current
    ensures ChooseInvariant(arena, counts, available, run, fuel, m + 1, keys + [k],
      current[k := current[k].(moduleLocations := current[k].moduleLocations + [m + 1])],
      c[run[m].nodeName := Get(c, run[m].nodeName) + 1],
      if k !in chosen then chosen + [k] else chosen)
  {
    ChooseSearch(arena, counts, available, run, fuel, m, keys, current, c, chosen);
    assert run[..m + 1][..m] == run[..m];
    assert (keys + [k])[..m] == keys;
    AddCountsStep(counts, run, m);
  }

  lemma ChooseDone(arena: Arena, counts: map<string, int>, available: seq<string>, run: seq<PlacedModule>,
                   fuel: nat, keys: seq<string>, current: Arena, c: map<string, int>, chosen: seq<string>)
    requires ChooseInvariant(arena, counts, available, run, fuel, |run|, keys, current, c, chosen)
    ensures ChooseSpec(arena, counts, available, run, fuel) == Success((current, c, chosen))
  {
    assert run[..|run|] == run;
  }

  lemma AddCountsStep(counts: map<string, int>, run: seq<PlacedModule>, m: nat)
    requires m < |run|
    ensures var c := AddCounts(counts, run[..m]);
      AddCounts(counts, run[..m + 1]) == c[run[m].nodeName := Get(c, run[m].nodeName) + 1]
  {
    assert run[..m + 1][..m] == run[..m];
  }

  /** Appending positions leaves names and next pointers alone. */
  lemma {:induction false} AddPositionsFrame(arena: Arena, keys: seq<string>, x: string)
    requires x in arena
    ensures AddPositions(arena, keys)[x].(moduleLocations := arena[x].moduleLocations) == arena[x]
  {
    if |keys| > 0 {
      AddPositionsFrame(arena, keys[..|keys| - 1], x);
    }
  }

  lemma AddPositionsLinks(arena: Arena, keys: seq<string>)
    ensures SameLinks(arena, AddPositions(arena, keys))
  {
    forall x | x in arena
      ensures AddPositions(arena, keys)[x].name == arena[x].name
      ensures AddPositions(arena, keys)[x].nextNodes == arena[x].nextNodes
    {
      AddPositionsFrame(arena, keys, x);
    }
  }

  /** Each node's locations gain the positions of its modules, in run
      order. */
  lemma {:induction false} AddPositionsLocations(arena: Arena, keys: seq<string>, x: string)
    requires x in arena
    ensures AddPositions(arena, keys)[x].moduleLocations == arena[x].moduleLocations + Occurrences(keys, x)
  {
    if |keys| > 0 {
      var prefix := keys[..|keys| - 1];
      AddPositionsLocations(arena, prefix, x);
      if keys[|keys| - 1] == x {
        assert arena[x].moduleLocations + Occurrences(prefix, x) + [|keys|] ==
          arena[x].moduleLocations + (Occurrences(prefix, x) + [|keys|]);
      } else {
        assert Occurrences(prefix, x) + [] == Occurrences(prefix, x);
      }
    }
  }

  /** The counts grow by the run's modules of each name. */
  lemma {:induction false} AddCountsMeaning(counts: map<string, int>, run: seq<PlacedModule>, n: string)
    ensures Get(AddCounts(counts, run), n) == Get(counts, n) + CountName(run, n)
  {
    if |run| > 0 {
      AddCountsMeaning(counts, run[..|run| - 1], n);
    }
  }

  /** What closing a run does to one chosen node: a merge-sort node gets
      its new parameters and every node the end-of-run marker -1. */
  function ClosedNode(node: QueryNode, count: int, run: seq<PlacedModule>): (r: Result<QueryNode>)
    ensures r.Success? ==> r.value.moduleLocations == node.moduleLocations + [-1]
    ensures r.Success? && node.operation == MergeSort ==>
      MergeSortParams(node.operationParameters, count, run) == Success(r.value.operationParameters)
    ensures node.operation != MergeSort ==> r.Success? && r.value.operationParameters == node.operationParameters
    ensures r.Success? ==>
      r.value.(moduleLocations := node.moduleLocations, operationParameters := node.operationParameters) == node
  {
    if node.operation == MergeSort then
      match MergeSortParams(node.operationParameters, count, run)
      case Failure(e) => Failure(e)
      case Success(params) =>
        Success(node.(operationParameters := params, moduleLocations := node.moduleLocations + [-1]))
    else Success(node.(moduleLocations := node.moduleLocations + [-1]))
  }

  /** The end-of-run loop's effect on the nodes, node by node; each node
      is closed with the count of its own name. */
  function ClosedArena(arena: Arena, counts: map<string, int>, chosen: seq<string>, run: seq<PlacedModule>): (r: Result<Arena>)
    requires forall i :: 0 <= i < |chosen| ==> chosen[i] in arena
    ensures r.Success? ==> r.value.Keys == arena.Keys
  {
    if |chosen| == 0 then Success(arena)
    else
      match ClosedArena(arena, counts, chosen[..|chosen| - 1], run)
      case Failure(e) => Failure(e)
      case Success(a) =>
        var k := chosen[|chosen| - 1];
        match ClosedNode(arena[k], Get(counts, arena[k].name), run)
        case Failure(e) => Failure(e)
        case Success(node) => Success(a[k := node])
  }

  /** The end-of-run loop's effect on the counts: each chosen node's name
      is reset to 0. */
  function ResetCounts(counts: map<string, int>, names: seq<string>): map<string, int> {
    if |names| == 0 then counts else ResetCounts(counts, names[..|names| - 1])[names[|names| - 1] := 0]
  }

  /** What the end-of-run loop yields. */
  function CloseSpec(arena: Arena, counts: map<string, int>, chosen: seq<string>, run: seq<PlacedModule>)
    : Result<(Arena, map<string, int>)>
    requires forall i :: 0 <= i < |chosen| ==> chosen[i] in arena
  {
    match ClosedArena(arena, counts, chosen, run)
    case Failure(e) => Failure(e)
    case Success(a) => Success((a, ResetCounts(counts, NamesOf(arena, chosen))))
  }

  /** The end-of-run loop over the chosen nodes; their names are distinct,
      so each reads its own count before it is reset. */
  method CloseRun(arena: Arena, counts: map<string, int>, chosen: seq<string>, run: seq<PlacedModule>)
    returns (r: Result<(Arena, map<string, int>)>)
    requires NoDuplicates(chosen) && forall i :: 0 <= i < |chosen| ==> chosen[i] in arena
    requires forall i, j :: 0 <= i < j < |chosen| ==> arena[chosen[i]].name != arena[chosen[j]].name
    ensures r == CloseSpec(arena, counts, chosen, run)
  {
    var current := arena;
    var c := counts;
    var i := 0;
    while i < |chosen|
      invariant CloseInvariant(arena, counts, chosen, run, i, current, c)
    {
      var key := chosen[i];
      CloseRead(arena, counts, chosen, run, i, current, c);
      var closed := CloseNode(current[key], Get(c, current[key].name), run);
      if closed.Failure? {
        CloseFailure(arena, counts, chosen, run, i, current, c);
        return Failure(closed.error);
      }
      CloseStep(arena, counts, chosen, run, i, current, c, closed.value);
      current := current[key := closed.value];
      c := c[closed.value.name := 0];
      i := i + 1;
    }
    CloseDone(arena, counts, chosen, run, current, c);
    r := Success((current, c));
  }

  /** The end of a run for one chosen node: a merge-sort node gets the
      parameters of its next pass, and every node the marker -1. */
  method CloseNode(node: QueryNode, count: int, run: seq<PlacedModule>) returns (r: Result<QueryNode>)
    ensures r == ClosedNode(node, count, run)
  {
    var closed := node;
    if node.operation == MergeSort {
      var params := MergeSortParameters(node.operationParameters, count, run);
      if params.Failure? {
        return Failure(params.error);
      }
      closed := closed.(operationParameters := params.value);
    }
    closed := closed.(moduleLocations := closed.moduleLocations + [-1]);
    r := Success(closed);
  }

  /** The loop's state after `i` chosen nodes, in terms of the folds. */
  ghost predicate CloseInvariant(arena: Arena, counts: map<string, int>, chosen: seq<string>, run: seq<PlacedModule>,
                                 i: int, current: Arena, c: map<string, int>)
  {
    NoDuplicates(chosen) && (forall j :: 0 <= j < |chosen| ==> chosen[j] in arena) &&
    (forall j, l :: 0 <= j < l < |chosen| ==> arena[chosen[j]].name != arena[chosen[l]].name) &&
    0 <= i <= |chosen| &&
    ClosedArena(arena, counts, chosen[..i], run) == Success(current) &&
    c == ResetCounts(counts, NamesOf(arena, chosen[..i]))
  }

  /** The next node is still as it was, with its name's count untouched,
      and the closing of it the loop performs is ClosedNode. */
  lemma CloseRead(arena: Arena, counts: map<string, int>, chosen: seq<string>, run: seq<PlacedModule>,
                  i: int, current: Arena, c: map<string, int>)
    requires CloseInvariant(arena, counts, chosen, run, i, current, c) && i < |chosen|
    ensures chosen[i] in current && current[chosen[i]] == arena[chosen[i]]
    ensures Get(c, arena[chosen[i]].name) == Get(counts, arena[chosen[i]].name)
    ensures chosen[..i + 1][..i] == chosen[..i]
  {
    assert chosen[..i + 1][..i] == chosen[..i];
    assert chosen[i] !in chosen[..i];
    ClosedArenaUntouched(arena, counts, chosen[..i], run, chosen[i]);
    var names := NamesOf(arena, chosen[..i]);
    assert arena[chosen[i]].name !in names by {
      forall j | 0 <= j < |names|
        ensures names[j] != arena[chosen[i]].name
      {
        assert names[j] == arena[chosen[j]].name;
      }
    }
    ResetCountsUntouched(counts, names, arena[chosen[i]].name);
  }

  lemma CloseStep(arena: Arena, counts: map<string, int>, chosen: seq<string>, run: seq<PlacedModule>,
                  i: int, current: Arena, c: map<string, int>, node: QueryNode)
    requires CloseInvariant(arena, counts, chosen, run, i, current, c) && i < |chosen|
    requires ClosedNode(arena[chosen[i]], Get(counts, arena[chosen[i]].name), run) == Success(node)
    ensures CloseInvariant(arena, counts, chosen, run, i + 1, current[chosen[i] := node], c[node.name := 0])
  {
    CloseRead(arena, counts, chosen, run, i, current, c);
  }

  /** A node that fails to close fails the whole loop with its error. */
  lemma CloseFailure(arena: Arena, counts: map<string, int>, chosen: seq<string>, run: seq<PlacedModule>,
                     i: int, current: Arena, c: map<string, int>)
    requires CloseInvariant(arena, counts, chosen, run, i, current, c) && i < |chosen|
    requires ClosedNode(arena[chosen[i]], Get(counts, arena[chosen[i]].name), run).Failure?
    ensures CloseSpec(arena, counts, chosen, run) ==
      Failure(ClosedNode(arena[chosen[i]], Get(counts, arena[chosen[i]].name), run).error)
  {
    CloseRead(arena, counts, chosen, run, i, current, c);
    ClosedArenaPrefixFailure(arena, counts, chosen, run, i + 1);
  }

  lemma CloseDone(arena: Arena, counts: map<string, int>, chosen: seq<string>, run: seq<PlacedModule>,
                  current: Arena, c: map<string, int>)
    requires CloseInvariant(arena, counts, chosen, run, |chosen|, current, c)
    ensures CloseSpec(arena, counts, chosen, run) == Success((current, c))
  {
    assert chosen[..|chosen|] == chosen;
  }

  /** A node not yet closed is as it was. */
  lemma {:induction false} ClosedArenaUntouched(arena: Arena, counts: map<string, int>, chosen: seq<string>,
                                                run: seq<PlacedModule>, x: string)
    requires forall i :: 0 <= i < |chosen| ==> chosen[i] in arena
    requires x in arena && x !in chosen && ClosedArena(arena, counts, chosen, run).Success?
    ensures ClosedArena(arena, counts, chosen, run).value[x] == arena[x]
  {
    if |chosen| > 0 {
      ClosedArenaUntouched(arena, counts, chosen[..|chosen| - 1], run, x);
    }
  }

  lemma {:induction false} ResetCountsUntouched(counts: map<string, int>, names: seq<string>, n: string)
    requires n !in names
    ensures Get(ResetCounts(counts, names), n) == Get(counts, n)
  {
    if |names| > 0 {
      ResetCountsUntouched(counts, names[..|names| - 1], n);
    }
  }

  /** The first node that fails to close fails the whole loop. */
  lemma {:induction false} ClosedArenaPrefixFailure(arena: Arena, counts: map<string, int>, chosen: seq<string>,
                                                    run: seq<PlacedModule>, m: nat)
    requires forall i :: 0 <= i < |chosen| ==> chosen[i] in arena
    requires m <= |chosen| && ClosedArena(arena, counts, chosen[..m], run).Failure?
    ensures ClosedArena(arena, counts, chosen, run) == ClosedArena(arena, counts, chosen[..m], run)
    decreases |chosen| - m
  {
    if m < |chosen| {
      assert chosen[..m + 1][..m] == chosen[..m];
      ClosedArenaPrefixFailure(arena, counts, chosen, run, m + 1);
    } else {
      assert chosen[..m] == chosen;
    }
  }

  /** After the loop every chosen node is closed and every other node is
      as it was. */
  lemma {:induction false} ClosedArenaMeaning(arena: Arena, counts: map<string, int>, chosen: seq<string>,
                                              run: seq<PlacedModule>, x: string)
    requires forall i :: 0 <= i < |chosen| ==> chosen[i] in arena
    requires x in arena && ClosedArena(arena, counts, chosen, run).Success?
    ensures Success(ClosedArena(arena, counts, chosen, run).value[x]) ==
      if x in chosen then ClosedNode(arena[x], Get(counts, arena[x].name), run) else Success(arena[x])
  {
    if |chosen| > 0 {
      var prefix := chosen[..|chosen| - 1];
      ClosedArenaMeaning(arena, counts, prefix, run, x);
      assert chosen == prefix + [chosen[|chosen| - 1]];
    }
  }

  /** The reset counts are 0 for the chosen names and unchanged else. */
  lemma {:induction false} ResetCountsMeaning(counts: map<string, int>, names: seq<string>, n: string)
    ensures Get(ResetCounts(counts, names), n) == if n in names then 0 else Get(counts, n)
  {
    if |names| > 0 {
      var prefix := names[..|names| - 1];
      ResetCountsMeaning(counts, prefix, n);
      assert names == prefix + [names[|names| - 1]];
    }
  }

  /** Distinct chosen nodes carry distinct names: the search for a name is
      deterministic. */
  lemma ChosenNamesDistinct(run: seq<PlacedModule>, available: seq<string>, arena: Arena, fuel: nat)
    requires FoundKeys(run, available, arena, fuel).Success?
    ensures var chosen := Dedup(FoundKeys(run, available, arena, fuel).value);
      (forall i :: 0 <= i < |chosen| ==> chosen[i] in arena) &&
      forall i, j :: 0 <= i < j < |chosen| ==> arena[chosen[i]].name != arena[chosen[j]].name
  {
    ChosenInArena(run, available, arena, fuel);
    FoundKeysMeaning(run, available, arena, fuel);
    var keys := FoundKeys(run, available, arena, fuel).value;
    var chosen := Dedup(keys);
    forall i, j | 0 <= i < j < |chosen|
      ensures arena[chosen[i]].name != arena[chosen[j]].name
    {
      var m1 :| 0 <= m1 < |keys| && keys[m1] == chosen[i];
      var m2 :| 0 <= m2 < |keys| && keys[m2] == chosen[j];
      assert NodeWithName(available, run[m1].nodeName, arena, fuel) == Success(keys[m1]);
      assert NodeWithName(available, run[m2].nodeName, arena, fuel) == Success(keys[m2]);
    }
  }

  /** The chosen nodes are nodes of the arena. */
  lemma ChosenInArena(run: seq<PlacedModule>, available: seq<string>, arena: Arena, fuel: nat)
    requires FoundKeys(run, available, arena, fuel).Success?
    ensures var chosen := Dedup(FoundKeys(run, available, arena, fuel).value);
      forall i :: 0 <= i < |chosen| ==> chosen[i] in arena
  {
    FoundKeysMeaning(run, available, arena, fuel);
    var keys := FoundKeys(run, available, arena, fuel).value;
    var chosen := Dedup(keys);
    forall i | 0 <= i < |chosen|
      ensures chosen[i] in arena
    {
      var m :| 0 <= m < |keys| && keys[m] == chosen[i];
      assert NodeWithName(available, run[m].nodeName, arena, fuel) == Success(keys[m]);
    }
  }

  /** Every name the run counts is the name of a chosen node. */
  lemma CountedNamesAreChosen(run: seq<PlacedModule>, available: seq<string>, arena: Arena, fuel: nat, n: string)
    requires FoundKeys(run, available, arena, fuel).Success? && CountName(run, n) > 0
    ensures var chosen := Dedup(FoundKeys(run, available, arena, fuel).value);
      (forall i :: 0 <= i < |chosen| ==> chosen[i] in arena) && n in NamesOf(arena, chosen)
  {
    ChosenInArena(run, available, arena, fuel);
    var keys := FoundKeys(run, available, arena, fuel).value;
    var chosen := Dedup(keys);
    var m :| 0 <= m < |run| && run[m].nodeName == n;
    FoundKeysMeaning(run, available, arena, fuel);
    assert NodeWithName(available, run[m].nodeName, arena, fuel) == Success(keys[m]);
    assert keys[m] in chosen;
    var i :| 0 <= i < |chosen| && chosen[i] == keys[m];
    assert NamesOf(arena, chosen)[i] == n;
  }

  /** What choosing yields when it succeeds: nodes with the links of the
      original ones and the chosen nodes among them, distinct and with
      distinct names, found by the searches of the original nodes. */
  lemma ChooseSpecChosen(arena: Arena, counts: map<string, int>, available: seq<string>, run: seq<PlacedModule>,
                         fuel: nat)
    requires ChooseSpec(arena, counts, available, run, fuel).Success?
    ensures FoundKeys(run, available, arena, fuel).Success?
    ensures var r := ChooseSpec(arena, counts, available, run, fuel).value;
      SameLinks(arena, r.0) && r.2 == Dedup(FoundKeys(run, available, arena, fuel).value) &&
      NoDuplicates(r.2) && (forall i :: 0 <= i < |r.2| ==> r.2[i] in r.0)
    ensures var r := ChooseSpec(arena, counts, available, run, fuel).value;
      forall i, j :: 0 <= i < j < |r.2| ==> r.0[r.2[i]].name != r.0[r.2[j]].name
  {
    var keys := FoundKeys(run, available, arena, fuel).value;
    ChosenNamesDistinct(run, available, arena, fuel);
    AddPositionsLinks(arena, keys);
  }

  /** Closing keeps names and next pointers. */
  lemma ClosedArenaLinks(arena: Arena, counts: map<string, int>, chosen: seq<string>, run: seq<PlacedModule>)
    requires forall i :: 0 <= i < |chosen| ==> chosen[i] in arena
    requires ClosedArena(arena, counts, chosen, run).Success?
    ensures SameLinks(arena, ClosedArena(arena, counts, chosen, run).value)
  {
    var a := ClosedArena(arena, counts, chosen, run).value;
    forall x | x in arena
      ensures a[x].name == arena[x].name && a[x].nextNodes == arena[x].nextNodes
    {
      ClosedArenaMeaning(arena, counts, chosen, run, x);
    }
  }

  // ---------------------------------------------------------------------
  // GetQueueOfResultingRuns: clear the available nodes, then choose and
  // close each run of the plan in turn.

  /** A node with its module locations cleared, and its parameters too when
      it is a merge sort. */
  function ClearedNode(node: QueryNode): (r: QueryNode)
    ensures r.moduleLocations == []
    ensures r.operationParameters == if node.operation == MergeSort then [] else node.operationParameters
    ensures r.(moduleLocations := node.moduleLocations, operationParameters := node.operationParameters) == node
  {
    node.(moduleLocations := [], operationParameters := if node.operation == MergeSort then [] else node.operationParameters)
  }

  /** The clearing loop over the available nodes; a name without a node is
      a dangling pointer, undefined behaviour. */
  function ClearedArena(arena: Arena, available: seq<string>): (r: Result<Arena>)
    ensures r.Success? ==> r.value.Keys == arena.Keys
  {
    if |available| == 0 then Success(arena)
    else
      match ClearedArena(arena, available[..|available| - 1])
      case Failure(e) => Failure(e)
      case Success(a) =>
        var k := available[|available| - 1];
        if k !in a then Failure("Undefined") else Success(a[k := ClearedNode(a[k])])
  }

  method ClearAvailable(arena: Arena, available: seq<string>) returns (r: Result<Arena>)
    ensures r == ClearedArena(arena, available)
  {
    var current := arena;
    var i := 0;
    while i < |available|
      invariant 0 <= i <= |available|
      invariant ClearedArena(arena, available[..i]) == Success(current)
    {
      var k := available[i];
      assert available[..i + 1][..i] == available[..i];
      if k !in current {
        ClearedArenaPrefixFailure(arena, available, i + 1);
        return Failure("Undefined");
      }
      var node := current[k].(moduleLocations := []);
      if node.operation == MergeSort {
        node := node.(operationParameters := []);
      }
      assert node == ClearedNode(current[k]);
      current := current[k := node];
      i := i + 1;
    }
    assert available[..i] == available;
    r := Success(current);
  }

  lemma {:induction false} ClearedArenaPrefixFailure(arena: Arena, available: seq<string>, m: nat)
    requires m <= |available| && ClearedArena(arena, available[..m]).Failure?
    ensures ClearedArena(arena, available) == ClearedArena(arena, available[..m])
    decreases |available| - m
  {
    if m < |available| {
      assert available[..m + 1][..m] == available[..m];
      ClearedArenaPrefixFailure(arena, available, m + 1);
    } else {
      assert available[..m] == available;
    }
  }

  /** Clearing fails exactly when an available name has no node, and then
      every available node is cleared and every other node is as it was. */
  lemma {:induction false} ClearedArenaDefined(arena: Arena, available: seq<string>)
    ensures ClearedArena(arena, available).Success? <==> forall i :: 0 <= i < |available| ==> available[i] in arena
  {
    if |available| > 0 {
      var prefix := available[..|available| - 1];
      ClearedArenaDefined(arena, prefix);
      assert forall i :: 0 <= i < |prefix| ==> prefix[i] == available[i];
    }
  }

  lemma {:induction false} ClearedArenaMeaning(arena: Arena, available: seq<string>, x: string)
    requires x in arena
    ensures ClearedArena(arena, available).Success? ==>
      ClearedArena(arena, available).value[x] == if x in available then ClearedNode(arena[x]) else arena[x]
  {
    if |available| > 0 {
      var prefix := available[..|available| - 1];
      ClearedArenaMeaning(arena, prefix, x);
      assert available == prefix + [available[|available| - 1]];
    }
  }

  lemma ClearedArenaLinks(arena: Arena, available: seq<string>)
    requires ClearedArena(arena, available).Success?
    ensures SameLinks(arena, ClearedArena(arena, available).value)
  {
    var a := ClearedArena(arena, available).value;
    forall x | x in arena
      ensures a[x].name == arena[x].name && a[x].nextNodes == arena[x].nextNodes
    {
      ClearedArenaMeaning(arena, available, x);
    }
  }

  /** A run of the queue: its modules and its chosen nodes. */
  type Run = (seq<PlacedModule>, seq<string>)

  /** Every count is 0. */
  ghost predicate AllZero(counts: map<string, int>) {
    forall n :: Get(counts, n) == 0
  }

  /** One run: its nodes chosen and then closed; the new nodes and counts
      and the chosen nodes. */
  function RunStep(arena: Arena, counts: map<string, int>, available: seq<string>, run: seq<PlacedModule>, fuel: nat)
    : Result<(Arena, map<string, int>, seq<string>)>
  {
    match ChooseSpec(arena, counts, available, run, fuel)
    case Failure(e) => Failure(e)
    case Success(chosenState) =>
      ChooseSpecChosen(arena, counts, available, run, fuel);
      match CloseSpec(chosenState.0, chosenState.1, chosenState.2, run)
      case Failure(e) => Failure(e)
      case Success(closedState) => Success((closedState.0, closedState.1, chosenState.2))
  }

  /** The runs of the rest of the plan, from the given nodes and counts:
      the final nodes, the final counts and the queue. */
  function RunsFrom(arena: Arena, counts: map<string, int>, available: seq<string>, plan: seq<seq<PlacedModule>>,
                    fuel: nat): Result<(Arena, map<string, int>, seq<Run>)>
    decreases |plan|
  {
    if |plan| == 0 then Success((arena, counts, []))
    else
      match RunStep(arena, counts, available, plan[0], fuel)
      case Failure(e) => Failure(e)
      case Success(step) =>
        match RunsFrom(step.0, step.1, available, plan[1..], fuel)
        case Failure(e) => Failure(e)
        case Success(rest) => Success((rest.0, rest.1, [(plan[0], step.2)] + rest.2))
  }

  /** What GetQueueOfResultingRuns yields: the final nodes and the queue. */
  function QueueOfRuns(arena: Arena, available: seq<string>, plan: seq<seq<PlacedModule>>, fuel: nat)
    : Result<(Arena, seq<Run>)>
  {
    match ClearedArena(arena, available)
    case Failure(e) => Failure(e)
    case Success(cleared) =>
      match RunsFrom(cleared, map[], available, plan, fuel)
      case Failure(e) => Failure(e)
      case Success(r) => Success((r.0, r.2))
  }

  /** `runs` followed by the runs of the rest. */
  function AfterRuns(runs: seq<Run>, rest: Result<(Arena, map<string, int>, seq<Run>)>)
    : Result<(Arena, map<string, int>, seq<Run>)>
  {
    match rest
    case Failure(e) => Failure(e)
    case Success(r) => Success((r.0, r.1, runs + r.2))
  }

  method GetQueueOfResultingRuns(arena: Arena, available: seq<string>, plan: seq<seq<PlacedModule>>, fuel: nat)
    returns (r: Result<(Arena, seq<Run>)>)
    ensures r == QueueOfRuns(arena, available, plan, fuel)
  {
    var cleared := ClearAvailable(arena, available);
    if cleared.Failure? {
      return Failure(cleared.error);
    }
    var current := cleared.value;
    var counts: map<string, int> := map[];
    var runs: seq<Run> := [];
    var q := 0;
    assert plan[q..] == plan;
    AfterNoRuns(RunsFrom(current, counts, available, plan, fuel));
    while q < |plan|
      invariant 0 <= q <= |plan|
      invariant RunsFrom(cleared.value, map[], available, plan, fuel) ==
        AfterRuns(runs, RunsFrom(current, counts, available, plan[q..], fuel))
    {
      assert plan[q..][0] == plan[q] && plan[q..][1..] == plan[q + 1..];
      var chosenState := ChooseRunNodes(current, counts, available, plan[q], fuel);
      if chosenState.Failure? {
        return Failure(chosenState.error);
      }
      ChooseSpecChosen(current, counts, available, plan[q], fuel);
      var (afterChoice, chosenCounts, chosen) := chosenState.value;
      var closedState := CloseRun(afterChoice, chosenCounts, chosen, plan[q]);
      if closedState.Failure? {
        return Failure(closedState.error);
      }
      AfterRunsAppend(runs, (plan[q], chosen),
        RunsFrom(closedState.value.0, closedState.value.1, available, plan[q + 1..], fuel));
      current, counts := closedState.value.0, closedState.value.1;
      runs := runs + [(plan[q], chosen)];
      q := q + 1;
    }
    assert plan[q..] == [];
    match RunsFrom(cleared.value, map[], available, plan, fuel)
    case Success(final) => r := Success((final.0, final.2));
  }

  lemma AfterNoRuns(rest: Result<(Arena, map<string, int>, seq<Run>)>)
    ensures AfterRuns([], rest) == rest
  {
    if rest.Success? {
      assert [] + rest.value.2 == rest.value.2;
    }
  }

  lemma AfterRunsAppend(runs: seq<Run>, run: Run, rest: Result<(Arena, map<string, int>, seq<Run>)>)
    ensures AfterRuns(runs, AfterRuns([run], rest)) == AfterRuns(runs + [run], rest)
  {
    if rest.Success? {
      assert runs + ([run] + rest.value.2) == runs + [run] + rest.value.2;
    }
  }

  lemma NamesOfLinks(a: Arena, b: Arena, keys: seq<string>)
    requires SameLinks(a, b) && forall i :: 0 <= i < |keys| ==> keys[i] in a
    ensures NamesOf(a, keys) == NamesOf(b, keys)
  {
  }

  /** A run keeps names and next pointers, and chooses the nodes the
      searches of the original nodes find, each once. */
  lemma RunStepLinks(arena: Arena, counts: map<string, int>, available: seq<string>, run: seq<PlacedModule>, fuel: nat)
    requires RunStep(arena, counts, available, run, fuel).Success?
    ensures FoundKeys(run, available, arena, fuel).Success?
    ensures var after := RunStep(arena, counts, available, run, fuel).value;
      SameLinks(arena, after.0) && after.2 == Dedup(FoundKeys(run, available, arena, fuel).value)
  {
    var cs := ChooseSpec(arena, counts, available, run, fuel).value;
    ChooseSpecChosen(arena, counts, available, run, fuel);
    ClosedArenaLinks(cs.0, cs.1, cs.2, run);
    SameLinksTransitive(arena, cs.0, ClosedArena(cs.0, cs.1, cs.2, run).value);
  }

  /** A run appends to each node's locations the positions of its modules
      and then the end marker -1 when the node was chosen; the node's name,
      links and other fields are kept. */
  lemma RunLocations(arena: Arena, counts: map<string, int>, available: seq<string>, run: seq<PlacedModule>,
                     fuel: nat, x: string)
    requires RunStep(arena, counts, available, run, fuel).Success? && x in arena
    ensures FoundKeys(run, available, arena, fuel).Success?
    ensures x in RunStep(arena, counts, available, run, fuel).value.0
    ensures RunStep(arena, counts, available, run, fuel).value.0[x].moduleLocations ==
      arena[x].moduleLocations + RunMarkers(FoundKeys(run, available, arena, fuel).value, x)
    ensures var after := RunStep(arena, counts, available, run, fuel).value;
      x in after.0 &&
      after.0[x].(moduleLocations := arena[x].moduleLocations, operationParameters := arena[x].operationParameters) ==
        arena[x]
  {
    var keys := FoundKeys(run, available, arena, fuel).value;
    var cs := ChooseSpec(arena, counts, available, run, fuel).value;
    ChooseSpecChosen(arena, counts, available, run, fuel);
    AddPositionsLocations(arena, keys, x);
    AddPositionsFrame(arena, keys, x);
    ClosedArenaMeaning(cs.0, cs.1, cs.2, run, x);
    assert x in cs.2 <==> x in keys;
    ConcatAssoc(arena[x].moduleLocations, Occurrences(keys, x), if x in keys then [-1] else []);
  }

  /** A run gives a chosen merge-sort node the parameters of the next
      merge pass, computed with the number of the run's modules that
      belong to it; every other node keeps its parameters. */
  lemma RunParameters(arena: Arena, counts: map<string, int>, available: seq<string>, run: seq<PlacedModule>,
                      fuel: nat, x: string)
    requires AllZero(counts)
    requires RunStep(arena, counts, available, run, fuel).Success? && x in arena
    ensures var after := RunStep(arena, counts, available, run, fuel).value;
      x in after.0 &&
      if x in after.2 && arena[x].operation == MergeSort then
        MergeSortParams(arena[x].operationParameters, CountName(run, arena[x].name), run) ==
          Success(after.0[x].operationParameters)
      else after.0[x].operationParameters == arena[x].operationParameters
  {
    var keys := FoundKeys(run, available, arena, fuel).value;
    var cs := ChooseSpec(arena, counts, available, run, fuel).value;
    ChooseSpecChosen(arena, counts, available, run, fuel);
    var node := arena[x];
    assert x in cs.0 && cs.0[x].name == node.name && cs.0[x].operation == node.operation &&
      cs.0[x].operationParameters == node.operationParameters by {
      AddPositionsFrame(arena, keys, x);
    }
    assert Get(cs.1, node.name) == CountName(run, node.name) by {
      AddCountsMeaning(counts, run, node.name);
    }
    ClosedArenaMeaning(cs.0, cs.1, cs.2, run, x);
  }

  /** Every count is 0 again after a run: each counted name belongs to a
      chosen node, whose count the run resets. */
  lemma RunResetsCounts(arena: Arena, counts: map<string, int>, available: seq<string>, run: seq<PlacedModule>,
                        fuel: nat)
    requires AllZero(counts)
    requires RunStep(arena, counts, available, run, fuel).Success?
    ensures AllZero(RunStep(arena, counts, available, run, fuel).value.1)
  {
    var cs := ChooseSpec(arena, counts, available, run, fuel).value;
    ChooseSpecChosen(arena, counts, available, run, fuel);
    var after := RunStep(arena, counts, available, run, fuel).value;
    var names := NamesOf(cs.0, cs.2);
    assert after.1 == ResetCounts(cs.1, names);
    forall n
      ensures Get(after.1, n) == 0
    {
      ResetCountsMeaning(cs.1, names, n);
      AddCountsMeaning(counts, run, n);
      if CountName(run, n) > 0 {
        CountedNamesAreChosen(run, available, arena, fuel, n);
        NamesOfLinks(arena, cs.0, cs.2);
      }
    }
  }

  /** The end-of-run markers of node `x` over a plan, from the searches of
      the given nodes: for each run the positions of its modules that belong
      to `x`, then -1 when `x` was chosen. */
  function Markers(plan: seq<seq<PlacedModule>>, available: seq<string>, arena: Arena, fuel: nat, x: string)
    : seq<int>
  {
    if |plan| == 0 then []
    else
      var found := FoundKeys(plan[0], available, arena, fuel);
      (if found.Success? then RunMarkers(found.value, x) else []) + Markers(plan[1..], available, arena, fuel, x)
  }

  /** The markers of node `x` in one run whose modules were found at
      `keys`. */
  function RunMarkers(keys: seq<string>, x: string): seq<int> {
    Occurrences(keys, x) + (if x in keys then [-1] else [])
  }

  /** The queue has one entry per run of the plan, in order: the run and
      its chosen nodes, which are the nodes the searches of the original
      nodes find for its modules, each once. */
  lemma {:induction false} RunsFromShape(arena0: Arena, arena: Arena, counts: map<string, int>, available: seq<string>,
                                         plan: seq<seq<PlacedModule>>, fuel: nat)
    requires SameLinks(arena0, arena) && RunsFrom(arena, counts, available, plan, fuel).Success?
    ensures var r := RunsFrom(arena, counts, available, plan, fuel).value;
      SameLinks(arena0, r.0) && |r.2| == |plan|
    ensures var r := RunsFrom(arena, counts, available, plan, fuel).value;
      forall q :: 0 <= q < |plan| ==>
        r.2[q].0 == plan[q] && FoundKeys(plan[q], available, arena0, fuel).Success? &&
        r.2[q].1 == Dedup(FoundKeys(plan[q], available, arena0, fuel).value)
    decreases |plan|
  {
    if |plan| > 0 {
      var step := RunStep(arena, counts, available, plan[0], fuel).value;
      RunStepLinks(arena, counts, available, plan[0], fuel);
      FoundKeysLinks(plan[0], available, arena0, arena, fuel);
      SameLinksTransitive(arena0, arena, step.0);
      RunsFromShape(arena0, step.0, step.1, available, plan[1..], fuel);
      var rest := RunsFrom(step.0, step.1, available, plan[1..], fuel).value;
      var r := RunsFrom(arena, counts, available, plan, fuel).value;
      assert r.2 == [(plan[0], step.2)] + rest.2;
      forall q | 0 < q < |plan|
        ensures r.2[q] == rest.2[q - 1] && plan[q] == plan[1..][q - 1]
      {
      }
    }
  }

  /** Proof helper: concatenation is associative. */
  lemma ConcatAssoc<T>(a: seq<T>, b: seq<T>, c: seq<T>)
    ensures a + b + c == a + (b + c)
  {
  }

  /** Over the rest of the plan each node's locations gain its markers. */
  lemma {:induction false} RunsFromLocations(arena0: Arena, arena: Arena, counts: map<string, int>,
                                             available: seq<string>, plan: seq<seq<PlacedModule>>, fuel: nat, x: string)
    requires SameLinks(arena0, arena) && x in arena
    requires RunsFrom(arena, counts, available, plan, fuel).Success?
    ensures x in RunsFrom(arena, counts, available, plan, fuel).value.0
    ensures RunsFrom(arena, counts, available, plan, fuel).value.0[x].moduleLocations ==
      arena[x].moduleLocations + Markers(plan, available, arena0, fuel, x)
    decreases |plan|
  {
    if |plan| > 0 {
      var step := RunStep(arena, counts, available, plan[0], fuel).value;
      var final := RunsFrom(arena, counts, available, plan, fuel).value.0;
      var rest := RunsFrom(step.0, step.1, available, plan[1..], fuel).value.0;
      assert final == rest;
      assert FoundKeys(plan[0], available, arena, fuel).Success? && SameLinks(arena0, step.0) &&
        FoundKeys(plan[0], available, arena0, fuel) == FoundKeys(plan[0], available, arena, fuel) by {
        RunStepLinks(arena, counts, available, plan[0], fuel);
        FoundKeysLinks(plan[0], available, arena0, arena, fuel);
        SameLinksTransitive(arena0, arena, step.0);
      }
      var here := RunMarkers(FoundKeys(plan[0], available, arena, fuel).value, x);
      var later := Markers(plan[1..], available, arena0, fuel, x);
      var before := arena[x].moduleLocations;
      assert x in step.0 && step.0[x].moduleLocations == before + here by {
        RunLocations(arena, counts, available, plan[0], fuel, x);
      }
      assert x in rest && rest[x].moduleLocations == step.0[x].moduleLocations + later by {
        RunsFromLocations(arena0, step.0, step.1, available, plan[1..], fuel, x);
      }
      assert Markers(plan, available, arena0, fuel, x) == here + later;
      ConcatAssoc(before, here, later);
    }
  }

  /** Over the rest of the plan each node keeps everything but its
      locations and its parameters, and a node that is not a merge sort
      keeps its parameters too. */
  lemma {:induction false} RunsFromFrame(arena: Arena, counts: map<string, int>, available: seq<string>,
                                         plan: seq<seq<PlacedModule>>, fuel: nat, x: string)
    requires AllZero(counts) && x in arena
    requires RunsFrom(arena, counts, available, plan, fuel).Success?
    ensures x in RunsFrom(arena, counts, available, plan, fuel).value.0
    ensures var n := RunsFrom(arena, counts, available, plan, fuel).value.0[x];
      n.(moduleLocations := arena[x].moduleLocations, operationParameters := arena[x].operationParameters) == arena[x]
    ensures arena[x].operation != MergeSort ==>
      RunsFrom(arena, counts, available, plan, fuel).value.0[x].operationParameters == arena[x].operationParameters
    decreases |plan|
  {
    if |plan| > 0 {
      var step := RunStep(arena, counts, available, plan[0], fuel).value;
      RunLocations(arena, counts, available, plan[0], fuel, x);
      RunParameters(arena, counts, available, plan[0], fuel, x);
      RunResetsCounts(arena, counts, available, plan[0], fuel);
      RunsFromFrame(step.0, step.1, available, plan[1..], fuel, x);
      assert RunsFrom(arena, counts, available, plan, fuel).value.0 == RunsFrom(step.0, step.1, available, plan[1..], fuel).value.0;
    }
  }

  /** GetQueueOfResultingRuns, end to end: it fails when a search of some
      run fails, the queue lists the plan's runs in order with their chosen
      nodes, and each node ends up with cleared locations (when available)
      followed by its markers; links are kept throughout. */
  lemma QueueOfRunsMeaning(arena: Arena, available: seq<string>, plan: seq<seq<PlacedModule>>, fuel: nat)
    requires QueueOfRuns(arena, available, plan, fuel).Success?
    ensures var r := QueueOfRuns(arena, available, plan, fuel).value;
      SameLinks(arena, r.0) && |r.1| == |plan| &&
      (forall i :: 0 <= i < |available| ==> available[i] in arena)
    ensures var r := QueueOfRuns(arena, available, plan, fuel).value;
      forall q :: 0 <= q < |plan| ==>
        r.1[q].0 == plan[q] && FoundKeys(plan[q], available, arena, fuel).Success? &&
        r.1[q].1 == Dedup(FoundKeys(plan[q], available, arena, fuel).value)
  {
    var cleared := ClearedArena(arena, available).value;
    ClearedArenaLinks(arena, available);
    ClearedArenaDefined(arena, available);
    RunsFromShape(arena, cleared, map[], available, plan, fuel);
  }

  /** Each node's final locations: empty for an available node, else its
      old ones, then its markers over the plan. */
  lemma QueueOfRunsLocations(arena: Arena, available: seq<string>, plan: seq<seq<PlacedModule>>, fuel: nat, x: string)
    requires QueueOfRuns(arena, available, plan, fuel).Success? && x in arena
    ensures var r := QueueOfRuns(arena, available, plan, fuel).value;
      x in r.0 &&
      r.0[x].moduleLocations == (if x in available then [] else arena[x].moduleLocations) +
        Markers(plan, available, arena, fuel, x)
    ensures var r := QueueOfRuns(arena, available, plan, fuel).value;
      x in r.0 && r.0[x].name == arena[x].name && r.0[x].nextNodes == arena[x].nextNodes &&
      r.0[x].operation == arena[x].operation
  {
    var cleared := ClearedArena(arena, available).value;
    ClearedArenaLinks(arena, available);
    ClearedArenaMeaning(arena, available, x);
    assert AllZero(map[]);
    RunsFromLocations(arena, cleared, map[], available, plan, fuel, x);
    RunsFromFrame(cleared, map[], available, plan, fuel, x);
  }

  // ---------------------------------------------------------------------
  // GetDefaultHeuristics

  /** The five (first-module, other-module) heuristic pairs. */
  function GetDefaultHeuristics(): (r: seq<(seq<Selection.Clause>, seq<Selection.Clause>)>)
    ensures |r| == 5
    ensures forall i :: 0 <= i < 4 ==> |r[i].0| == 1 && |r[i].1| == 1
    ensures r[4].0 == [] && r[4].1 == r[3].1
  {
    var shortestFirst := [[Selection.Shortest, Selection.FirstAvailable]];
    var longestFirst := [[Selection.Longest, Selection.FirstAvailable]];
    var shortest := [[Selection.Shortest]];
    var longest := [[Selection.Longest]];
    var all := [[Selection.AllAvailable]];
    [(shortestFirst, longestFirst), (shortest, longest), (shortest, longest), (all, all), ([], all)]
  }

  /** With the fifth pair no placement is offered for the first module of
      a run; with the fourth every distinct placement is. */
  lemma DefaultHeuristicsExtremes(ps: seq<ScheduleTypes.Placement>)
    ensures Selection.Preferences(ps, GetDefaultHeuristics()[4].0) == []
    ensures Selection.Preferences(ps, GetDefaultHeuristics()[3].0) == Selection.KeepDistinct(ps, Selection.AnyPlacement)
  {
    var all: seq<Selection.Clause> := [[Selection.AllAvailable]];
    assert Selection.Compose(ps, all[0]) == ps by {
      assert all[0][..0] == [];
    }
    assert Selection.ClauseResults(ps, all) == [ps] by {
      assert all[..0] == [];
    }
    assert Selection.Flatten([ps]) == ps by {
      assert [ps][..0] == [];
    }
  }
}
