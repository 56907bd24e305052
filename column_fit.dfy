/** Column bookkeeping of the Python scheduler: where a run's modules sit,
    the first column a node may use after its upstream modules, and the
    check that slots a bitstream between the column ranges already taken
    (schedule.py, get_min_position_in_current_run,
    find_all_available_bitstreams_after_min_pos, get_module_index). */
module ColumnFit {
  import opened Wrappers
  import opened ScheduleTypes
  import Selection

  /** (insert index into the run, start column, index of the bitstream in
      the library's start-location list) */
  type Candidate = (int, int, int)

  // ----- get_module_index -----

  /** Scans the ranges below `k` from the last one down and answers one past
      the first range that ends before `start`; `|taken|` if none does. */
  function ScanBack(start: int, taken: seq<(int, int)>, k: nat): (r: nat)
    requires k <= |taken|
    ensures r <= |taken|
    ensures (r == |taken| && forall i :: 0 <= i < k ==> start <= taken[i].1) ||
            (0 < r <= k && start > taken[r - 1].1 && forall i :: r <= i < k ==> start <= taken[i].1)
  {
    if k == 0 then |taken|
    else if start > taken[k - 1].1 then k
    else ScanBack(start, taken, k - 1)
  }

  /** get_module_index: where a module starting at `start` would be inserted
      among the taken ranges. */
  function GetModuleIndex(start: int, taken: seq<(int, int)>): (r: Result<nat>)
    ensures r.Failure? <==> |taken| == 0
    ensures r.Success? ==> r.value <= |taken|
    ensures r.Success? && start < taken[0].0 ==> r.value == 0
    ensures r.Success? && start >= taken[0].0 ==>
      (r.value == |taken| && forall i :: 0 <= i < |taken| ==> start <= taken[i].1) ||
      (0 < r.value && start > taken[r.value - 1].1 &&
       forall i :: r.value <= i < |taken| ==> start <= taken[i].1)
  {
    if |taken| == 0 then Failure("Taken positions can't be empty!")
    else if start < taken[0].0 then Success(0)
    else Success(ScanBack(start, taken, |taken|))
  }

  /** The fit test of find_all_available_bitstreams_after_min_pos for a
      module spanning [start, end] whose insert index is `index`. */
  predicate Fits(start: int, end: int, taken: seq<(int, int)>, index: nat)
    requires 0 < |taken| && index <= |taken|
  {
    (|taken| == index && taken[index - 1].1 < start) ||
    (|taken| != index && taken[index].0 > end)
  }

  function Insert(taken: seq<(int, int)>, k: nat, x: (int, int)): seq<(int, int)>
    requires k <= |taken|
  {
    taken[..k] + [x] + taken[k..]
  }

  predicate DisjointFromAll(x: (int, int), taken: seq<(int, int)>) {
    forall i :: 0 <= i < |taken| ==> x.1 < taken[i].0 || taken[i].1 < x.0
  }

  /** The non-empty range `x` lies strictly between the ranges below index
      k and those from k on. */
  predicate FitsAt(taken: seq<(int, int)>, k: int, x: (int, int)) {
    0 <= k <= |taken| && x.0 <= x.1 &&
    (forall i :: 0 <= i < k ==> taken[i].1 < x.0) &&
    (forall i :: k <= i < |taken| ==> x.1 < taken[i].0)
  }

  /** The column-fit check is sound: a range it accepts overlaps no taken
      range and lies between the ranges around its insert index. */
  lemma FitIsSound(start: int, end: int, taken: seq<(int, int)>)
    requires SortedDisjoint(taken) && 0 < |taken| && start <= end
    requires Fits(start, end, taken, GetModuleIndex(start, taken).value)
    ensures DisjointFromAll((start, end), taken)
    ensures FitsAt(taken, GetModuleIndex(start, taken).value, (start, end))
  {
    var k := GetModuleIndex(start, taken).value;
    // every range below k ends before start, every range from k on starts after end
    assert forall i :: 0 <= i < k ==> taken[i].1 < start by {
      if k > 0 {
        assert start > taken[k - 1].1;
        forall i | 0 <= i < k - 1 ensures taken[i].1 < start {
          assert taken[i].1 < taken[k - 1].0 <= taken[k - 1].1;
        }
      }
    }
    assert forall i :: k <= i < |taken| ==> end < taken[i].0 by {
      if k < |taken| {
        assert taken[k].0 > end;
        forall i | k < i < |taken| ensures end < taken[i].0 {
          assert taken[k].0 <= taken[k].1 < taken[i].0;
        }
      }
    }
  }

  /** The elements of a list after an insertion, index by index. */
  lemma InsertElements(taken: seq<(int, int)>, k: int, x: (int, int))
    requires 0 <= k <= |taken|
    ensures |Insert(taken, k, x)| == |taken| + 1 && Insert(taken, k, x)[k] == x
    ensures forall i :: 0 <= i < k ==> Insert(taken, k, x)[i] == taken[i]
    ensures forall i :: k < i < |taken| + 1 ==> Insert(taken, k, x)[i] == taken[i - 1]
  {
    var t := Insert(taken, k, x);
    assert forall i :: k < i < |t| ==> t[i] == taken[k..][i - k - 1] == taken[i - 1];
  }

  /** Inserting a range where it fits keeps the ranges sorted and disjoint. */
  lemma InsertSorted(taken: seq<(int, int)>, k: int, x: (int, int))
    requires SortedDisjoint(taken) && FitsAt(taken, k, x)
    ensures SortedDisjoint(Insert(taken, k, x))
  {
    InsertElements(taken, k, x);
  }

  // ----- find_all_available_bitstreams_after_min_pos -----

  /** Python's list.index on a location's bitstream names. */
  function NameIndex(names: seq<string>, name: string): (r: nat)
    requires name in names
    ensures r < |names| && names[r] == name
  {
    if names[0] == name then 0 else 1 + NameIndex(names[1..], name)
  }

  /** The decision for one bitstream name listed at location `loc`. */
  function CandidateAt(hw: HwLibrary, op: string, loc: nat, name: string, taken: seq<(int, int)>): Result<Option<Candidate>> {
    if op !in hw then Failure("KeyError")
    else if loc >= |hw[op].startLocations| then Failure("IndexError")
    else if name !in hw[op].startLocations[loc] then Failure("ValueError")
    else
      var index := NameIndex(hw[op].startLocations[loc], name);
      if |taken| == 0 then var c: Candidate := (0, loc, index); Success(Some(c))
      else
        var found := FindBitstream(hw[op].bitstreams, name);
        if found.None? then Failure("KeyError")
        else Success(FitAt(loc, index, taken, found.value.length))
  }

  /** The fit test for a bitstream of `length` columns starting at `loc`
      among non-empty taken ranges: the candidate if it fits. */
  function FitAt(loc: int, index: int, taken: seq<(int, int)>, length: int): Option<Candidate>
    requires |taken| > 0
  {
    var moduleIndex := GetModuleIndex(loc, taken).value;
    if Fits(loc, loc + length - 1, taken, moduleIndex) then Some((moduleIndex, loc, index)) else None
  }

  lemma FitAtIsSound(loc: int, index: int, taken: seq<(int, int)>, length: int)
    requires |taken| > 0 && SortedDisjoint(taken) && length >= 1 && FitAt(loc, index, taken, length).Some?
    ensures FitAt(loc, index, taken, length).value == (GetModuleIndex(loc, taken).value, loc, index)
    ensures DisjointFromAll((loc, loc + length - 1), taken)
    ensures FitsAt(taken, GetModuleIndex(loc, taken).value, (loc, loc + length - 1))
  {
    FitIsSound(loc, loc + length - 1, taken);
  }



  /** The candidates of the names at one location, in list order. */
  function LocationCandidates(hw: HwLibrary, op: string, loc: nat, names: seq<string>, taken: seq<(int, int)>): Result<seq<Candidate>> {
    if |names| == 0 then Success([])
    else
      var prefix :- LocationCandidates(hw, op, loc, names[..|names| - 1], taken);
      var c :- CandidateAt(hw, op, loc, names[|names| - 1], taken);
      if c.Some? then Success(prefix + [c.value]) else Success(prefix)
  }

  /** The candidates of locations lo..hi-1 of `locs`, in location order. */
  function Candidates(hw: HwLibrary, op: string, lo: nat, hi: nat, locs: seq<seq<string>>, taken: seq<(int, int)>): Result<seq<Candidate>>
    requires hi <= |locs|
    decreases hi
  {
    if hi <= lo then Success([])
    else
      var prefix :- Candidates(hw, op, lo, hi - 1, locs, taken);
      var here :- LocationCandidates(hw, op, hi - 1, locs[hi - 1], taken);
      Success(prefix + here)
  }

  lemma {:induction false} LocationFailureExtends(hw: HwLibrary, op: string, loc: nat, names: seq<string>, k: nat, taken: seq<(int, int)>)
    requires k <= |names| && LocationCandidates(hw, op, loc, names[..k], taken).Failure?
    ensures LocationCandidates(hw, op, loc, names, taken) == LocationCandidates(hw, op, loc, names[..k], taken)
    decreases |names| - k
  {
    if k < |names| {
      assert names[..k + 1][..k] == names[..k];
      LocationFailureExtends(hw, op, loc, names, k + 1, taken);
    } else {
      assert names[..k] == names;
    }
  }

  lemma {:induction false} CandidatesFailureExtends(hw: HwLibrary, op: string, lo: nat, k: nat, hi: nat, locs: seq<seq<string>>, taken: seq<(int, int)>)
    requires lo < k <= hi <= |locs| && Candidates(hw, op, lo, k, locs, taken).Failure?
    ensures Candidates(hw, op, lo, hi, locs, taken) == Candidates(hw, op, lo, k, locs, taken)
    decreases hi - k
  {
    if k < hi {
      CandidatesFailureExtends(hw, op, lo, k, hi - 1, locs, taken);
    }
  }

  /** A candidate starts at or after the minimum position, names a bitstream
      of the library's start-location table and, when that bitstream has a
      positive length, its column range overlaps no taken range and lies
      between the taken ranges around its insert index. */
  predicate GoodCandidate(hw: HwLibrary, op: string, minPosition: nat, taken: seq<(int, int)>, c: Candidate) {
    op in hw && minPosition <= c.1 < |hw[op].startLocations| &&
    0 <= c.2 < |hw[op].startLocations[c.1]| &&
    var found := FindBitstream(hw[op].bitstreams, hw[op].startLocations[c.1][c.2]);
    (found.Some? && found.value.length >= 1 ==>
      var range := (c.1, c.1 + found.value.length - 1);
      DisjointFromAll(range, taken) && FitsAt(taken, c.0, range))
  }

  lemma CandidateAtIsGood(hw: HwLibrary, op: string, minPosition: nat, loc: nat, name: string, taken: seq<(int, int)>)
    requires SortedDisjoint(taken) && minPosition <= loc
    requires CandidateAt(hw, op, loc, name, taken).Success? && CandidateAt(hw, op, loc, name, taken).value.Some?
    ensures GoodCandidate(hw, op, minPosition, taken, CandidateAt(hw, op, loc, name, taken).value.value)
  {
    var c := CandidateAt(hw, op, loc, name, taken).value.value;
    var index := NameIndex(hw[op].startLocations[loc], name);
    var found := FindBitstream(hw[op].bitstreams, name);
    if |taken| == 0 {
      assert c == (0, loc, index);
    } else {
      assert found.Some? && c == FitAt(loc, index, taken, found.value.length).value;
      if found.value.length >= 1 {
        FitAtIsSound(loc, index, taken, found.value.length);
      }
    }
    GoodCandidateOf(hw, op, minPosition, taken, c, name);
  }


  /** GoodCandidate for a candidate at a known name. */
  lemma GoodCandidateOf(hw: HwLibrary, op: string, minPosition: nat, taken: seq<(int, int)>, c: Candidate, name: string)
    requires op in hw && minPosition <= c.1 < |hw[op].startLocations| && 0 <= c.2 < |hw[op].startLocations[c.1]|
    requires hw[op].startLocations[c.1][c.2] == name
    requires var found := FindBitstream(hw[op].bitstreams, name);
      found.Some? && found.value.length >= 1 ==>
        var range := (c.1, c.1 + found.value.length - 1);
        DisjointFromAll(range, taken) && FitsAt(taken, c.0, range)
    ensures GoodCandidate(hw, op, minPosition, taken, c)
  {
  }



  lemma {:induction false} LocationCandidatesAreGood(hw: HwLibrary, op: string, minPosition: nat, loc: nat, names: seq<string>, taken: seq<(int, int)>)
    requires SortedDisjoint(taken) && minPosition <= loc
    requires LocationCandidates(hw, op, loc, names, taken).Success?
    ensures forall c :: c in LocationCandidates(hw, op, loc, names, taken).value ==> GoodCandidate(hw, op, minPosition, taken, c)
  {
    if |names| > 0 {
      LocationCandidatesAreGood(hw, op, minPosition, loc, names[..|names| - 1], taken);
      var x := CandidateAt(hw, op, loc, names[|names| - 1], taken);
      if x.value.Some? {
        CandidateAtIsGood(hw, op, minPosition, loc, names[|names| - 1], taken);
      }
    }
  }

  /** Every candidate found starts at or after the minimum position, names a
      bitstream of the library's start-location table, and, given sorted
      disjoint taken ranges and a positive length, overlaps no taken range
      and keeps the run sorted when inserted at its index. */
  lemma {:induction false} CandidatesAreGood(hw: HwLibrary, op: string, lo: nat, hi: nat, locs: seq<seq<string>>, taken: seq<(int, int)>)
    requires hi <= |locs| && SortedDisjoint(taken)
    requires Candidates(hw, op, lo, hi, locs, taken).Success?
    ensures forall c :: c in Candidates(hw, op, lo, hi, locs, taken).value ==> GoodCandidate(hw, op, lo, taken, c)
    decreases hi
  {
    if lo < hi {
      CandidatesAreGood(hw, op, lo, hi - 1, locs, taken);
      LocationCandidatesAreGood(hw, op, lo, hi - 1, locs[hi - 1], taken);
    }
  }

  /** find_all_available_bitstreams_after_min_pos: every (insert index,
      start column, bitstream index) for the names listed at locations
      min_position onwards that fit between the taken ranges. */
  method FindAllAvailableBitstreamsAfterMinPos(op: string, minPosition: nat, taken: seq<(int, int)>, hw: HwLibrary, locs: seq<seq<string>>)
    returns (r: Result<seq<Candidate>>)
    ensures minPosition <= |locs| ==> r == Candidates(hw, op, minPosition, |locs|, locs, taken)
    ensures minPosition > |locs| ==> r == Success([])
  {
    var all: seq<Candidate> := [];
    if minPosition > |locs| {
      return Success([]);
    }
    var loc := minPosition;
    while loc < |locs|
      invariant minPosition <= loc <= |locs|
      invariant Candidates(hw, op, minPosition, loc, locs, taken) == Success(all)
    {
      var here := CandidatesAtLocation(hw, op, loc, locs[loc], taken);
      if here.Failure? {
        CandidatesFailureExtends(hw, op, minPosition, loc + 1, |locs|, locs, taken);
        return Failure(here.error);
      }
      all := all + here.value;
      loc := loc + 1;
    }
    r := Success(all);
  }

  /** The inner loop over the bitstream names listed at one location. */
  method CandidatesAtLocation(hw: HwLibrary, op: string, loc: nat, names: seq<string>, taken: seq<(int, int)>)
    returns (r: Result<seq<Candidate>>)
    ensures r == LocationCandidates(hw, op, loc, names, taken)
  {
    var found: seq<Candidate> := [];
    var j := 0;
    while j < |names|
      invariant 0 <= j <= |names|
      invariant LocationCandidates(hw, op, loc, names[..j], taken) == Success(found)
    {
      assert names[..j + 1][..j] == names[..j];
      var c := CandidateAt(hw, op, loc, names[j], taken);
      if c.Failure? {
        LocationFailureExtends(hw, op, loc, names, j + 1, taken);
        return Failure(c.error);
      }
      if c.value.Some? {
        found := found + [c.value.value];
      }
      j := j + 1;
    }
    assert names[..j] == names;
    r := Success(found);
  }


  // ----- get_min_position_in_current_run -----

  /** The run's modules belonging to `name`, in run order. */
  function ModulesOf(run: seq<ScheduledModule>, name: string): seq<ScheduledModule> {
    if |run| == 0 then []
    else ModulesOf(run[..|run| - 1], name) + (if run[|run| - 1].nodeName == name then [run[|run| - 1]] else [])
  }

  /** The modules of the run that belong to a predecessor, grouped by
      predecessor in before-list order. */
  function PrerequisiteModules(before: seq<(string, int)>, run: seq<ScheduledModule>): seq<ScheduledModule> {
    if |before| == 0 then []
    else PrerequisiteModules(before[..|before| - 1], run) + ModulesOf(run, before[|before| - 1].0)
  }

  function Ends(ms: seq<ScheduledModule>): (r: seq<int>)
    ensures |r| == |ms| && forall i :: 0 <= i < |ms| ==> r[i] == ms[i].position.1
  {
    if |ms| == 0 then [] else Ends(ms[..|ms| - 1]) + [ms[|ms| - 1].position.1]
  }

  /** What get_min_position_in_current_run answers for a node with the
      given before list. */
  function MinPosition(before: seq<(string, int)>, run: seq<ScheduledModule>): int {
    var ms := PrerequisiteModules(before, run);
    if |ms| == 0 then 0 else Selection.Greatest(0, Ends(ms)) + 1
  }

  lemma {:induction false} ModulesOfMembership(run: seq<ScheduledModule>, name: string)
    ensures forall m :: m in ModulesOf(run, name) <==> m in run && m.nodeName == name
  {
    if |run| > 0 {
      ModulesOfMembership(run[..|run| - 1], name);
      assert run == run[..|run| - 1] + [run[|run| - 1]];
    }
  }

  lemma {:induction false} PrerequisiteMembership(before: seq<(string, int)>, run: seq<ScheduledModule>)
    ensures forall m :: m in PrerequisiteModules(before, run) <==>
      m in run && exists i :: 0 <= i < |before| && before[i].0 == m.nodeName
  {
    if |before| > 0 {
      var b' := before[..|before| - 1];
      PrerequisiteMembership(b', run);
      ModulesOfMembership(run, before[|before| - 1].0);
      assert forall i :: 0 <= i < |b'| ==> b'[i] == before[i];
    }
  }

  /** The minimum start is 0 when no predecessor of the node is placed in
      the run, and otherwise one more than the largest end column of the
      predecessors' modules (never below 1). */
  lemma MinPositionCharacterisation(before: seq<(string, int)>, run: seq<ScheduledModule>)
    ensures (forall i, j :: 0 <= i < |before| && 0 <= j < |run| ==> before[i].0 != run[j].nodeName) ==>
      MinPosition(before, run) == 0
    ensures forall i, j :: 0 <= i < |before| && 0 <= j < |run| && before[i].0 == run[j].nodeName ==>
      MinPosition(before, run) >= 1 && run[j].position.1 < MinPosition(before, run)
    ensures MinPosition(before, run) <= 1 ||
      exists j :: 0 <= j < |run| && run[j].position.1 + 1 == MinPosition(before, run) &&
        exists i :: 0 <= i < |before| && before[i].0 == run[j].nodeName
  {
    var ms := PrerequisiteModules(before, run);
    PrerequisiteMembership(before, run);
    Selection.GreatestIsMaximum(0, Ends(ms));
    forall i, j | 0 <= i < |before| && 0 <= j < |run| && before[i].0 == run[j].nodeName
      ensures MinPosition(before, run) >= 1 && run[j].position.1 < MinPosition(before, run)
    {
      assert run[j] in ms;
      var k :| 0 <= k < |ms| && ms[k] == run[j];
      assert Ends(ms)[k] == run[j].position.1;
    }
    if |ms| > 0 && MinPosition(before, run) > 1 {
      var k :| 0 <= k < |ms| && Selection.Greatest(0, Ends(ms)) == Ends(ms)[k];
      assert ms[k] in run;
      var j :| 0 <= j < |run| && run[j] == ms[k];
      assert run[j].position.1 + 1 == MinPosition(before, run);
    }
  }

  /** The first loops of get_min_position_in_current_run: the run's modules
      that belong to a predecessor. */
  method CollectPrerequisites(before: seq<(string, int)>, run: seq<ScheduledModule>) returns (prerequisites: seq<ScheduledModule>)
    ensures prerequisites == PrerequisiteModules(before, run)
  {
    prerequisites := [];
    var i := 0;
    while i < |before|
      invariant 0 <= i <= |before|
      invariant prerequisites == PrerequisiteModules(before[..i], run)
    {
      assert before[..i + 1][..i] == before[..i];
      var j := 0;
      ghost var start := prerequisites;
      while j < |run|
        invariant 0 <= j <= |run|
        invariant prerequisites == start + ModulesOf(run[..j], before[i].0)
      {
        assert run[..j + 1][..j] == run[..j];
        if before[i].0 == run[j].nodeName {
          prerequisites := prerequisites + [run[j]];
        }
        j := j + 1;
      }
      assert run[..j] == run;
      i := i + 1;
    }
    assert before[..i] == before;
  }

  /** get_min_position_in_current_run: a KeyError for an unknown node,
      otherwise the minimum start column. */
  method GetMinPositionInCurrentRun(run: seq<ScheduledModule>, node: string, graph: Graph) returns (r: Result<int>)
    ensures node !in graph ==> r.Failure?
    ensures node in graph ==> r == Success(MinPosition(graph[node].before, run))
  {
    if node !in graph {
      return Failure("KeyError");
    }
    var prerequisites := CollectPrerequisites(graph[node].before, run);
    if |prerequisites| > 0 {
      var currentMin := 0;
      var k := 0;
      while k < |prerequisites|
        invariant 0 <= k <= |prerequisites|
        invariant currentMin == Selection.Greatest(0, Ends(prerequisites[..k]))
      {
        assert Ends(prerequisites[..k + 1])[..k] == Ends(prerequisites[..k]);
        if prerequisites[k].position.1 > currentMin {
          currentMin := prerequisites[k].position.1;
        }
        k := k + 1;
      }
      assert prerequisites[..k] == prerequisites;
      r := Success(currentMin + 1);
    } else {
      r := Success(0);
    }
  }

  // ----- get_bitstream_end_from_library_with_operation -----

  /** The bitstream a candidate names and the end column it reaches; the
      two subscripts are Python's, so a negative index counts from the
      back. */
  function BitstreamEnd(hw: HwLibrary, op: string, bitstreamIndex: int, start: int): (r: Result<(string, int)>)
    ensures op !in hw ==> r == Failure("KeyError")
    ensures r.Success? <==>
      op in hw && PyAt(hw[op].startLocations, start).Success? &&
      PyAt(PyAt(hw[op].startLocations, start).value, bitstreamIndex).Success? &&
      FindBitstream(hw[op].bitstreams, PyAt(PyAt(hw[op].startLocations, start).value, bitstreamIndex).value).Some?
    ensures r.Success? ==>
      r.value.0 == PyAt(PyAt(hw[op].startLocations, start).value, bitstreamIndex).value &&
      r.value.1 == start + FindBitstream(hw[op].bitstreams, r.value.0).value.length - 1
    ensures r.Success? && 0 <= start && 0 <= bitstreamIndex ==>
      start < |hw[op].startLocations| && bitstreamIndex < |hw[op].startLocations[start]| &&
      r.value.0 == hw[op].startLocations[start][bitstreamIndex]
  {
    if op !in hw then Failure("KeyError")
    else
      var column :- PyAt(hw[op].startLocations, start);
      var name :- PyAt(column, bitstreamIndex);
      var found := FindBitstream(hw[op].bitstreams, name);
      if found.None? then Failure("KeyError")
      else Success((name, start + found.value.length - 1))
  }
}
