/** Reconfiguration cost between two FPGA configurations in the Python
    scheduler (schedule.py, find_config_written_for_configuration): modules
    present in both need no rewrite, every other module's columns are
    written, each column costing its resource type's frame count once. */
module ConfigCost {
  import opened Wrappers
  import opened ScheduleTypes

  /** Same operation, bitstream and columns: the module stays loaded. */
  predicate Same(a: ScheduledModule, b: ScheduledModule) {
    a.operation == b.operation && a.bitstream == b.bitstream && a.position == b.position
  }

  /** Python's list.remove: drops the first element equal to `x`. */
  function PyRemove(s: seq<ScheduledModule>, x: ScheduledModule): (r: Result<seq<ScheduledModule>>)
    ensures r.Success? <==> x in s
  {
    if |s| == 0 then Failure("ValueError")
    else if s[0] == x then Success(s[1..])
    else
      var t :- PyRemove(s[1..], x);
      Success([s[0]] + t)
  }

  // ----- the complement loops -----

  /** The inner loop for one next module `nm` over the current modules `cur`:
      each match is removed from both reduced lists. */
  function MatchAgainst(nm: ScheduledModule, cur: seq<ScheduledModule>, rn: seq<ScheduledModule>,
                        rc: seq<ScheduledModule>): Result<(seq<ScheduledModule>, seq<ScheduledModule>)>
  {
    if |cur| == 0 then Success((rn, rc))
    else
      var p :- MatchAgainst(nm, cur[..|cur| - 1], rn, rc);
      var c := cur[|cur| - 1];
      if Same(c, nm) then
        var rn' :- PyRemove(p.0, nm);
        var rc' :- PyRemove(p.1, c);
        Success((rn', rc'))
      else Success(p)
  }

  /** The reduced next and current configurations after the first k next
      modules were matched. */
  function Reduce(next: seq<ScheduledModule>, k: nat, current: seq<ScheduledModule>)
    : Result<(seq<ScheduledModule>, seq<ScheduledModule>)>
    requires k <= |next|
  {
    if k == 0 then Success((next, current))
    else
      var p :- Reduce(next, k - 1, current);
      MatchAgainst(next[k - 1], current, p.0, p.1)
  }

  /** No two modules of a configuration sit at the same columns (a run's
      modules occupy disjoint column ranges). */
  predicate DistinctPositions(s: seq<ScheduledModule>) {
    forall i, j :: 0 <= i < j < |s| ==> s[i].position != s[j].position
  }

  predicate HasMatch(x: ScheduledModule, other: seq<ScheduledModule>) {
    exists j :: 0 <= j < |other| && Same(x, other[j])
  }

  /** The modules of `s` with no counterpart in `other`, in order. */
  function Unmatched(s: seq<ScheduledModule>, other: seq<ScheduledModule>): (r: seq<ScheduledModule>)
    ensures forall x :: x in r ==> x in s
  {
    if |s| == 0 then [] else (if HasMatch(s[0], other) then [] else [s[0]]) + Unmatched(s[1..], other)
  }

  lemma {:induction false} UnmatchedSnoc(a: seq<ScheduledModule>, x: ScheduledModule, other: seq<ScheduledModule>)
    ensures Unmatched(a + [x], other) == Unmatched(a, other) + if HasMatch(x, other) then [] else [x]
  {
    if |a| > 0 {
      assert (a + [x])[1..] == a[1..] + [x];
      UnmatchedSnoc(a[1..], x, other);
    }
  }

  lemma {:induction false} RemoveAbsentPrefix(a: seq<ScheduledModule>, x: ScheduledModule, b: seq<ScheduledModule>)
    requires x !in a
    ensures PyRemove(a + [x] + b, x) == Success(a + b)
  {
    var s := a + [x] + b;
    if |a| > 0 {
      RemoveAbsentPrefix(a[1..], x, b);
      assert s[0] == a[0] != x && s[1..] == a[1..] + [x] + b;
      assert a + b == [a[0]] + (a[1..] + b);
    } else {
      assert s[0] == x && s[1..] == b == a + b;
    }
  }



  lemma HasMatchSnoc(x: ScheduledModule, o: seq<ScheduledModule>, y: ScheduledModule)
    ensures HasMatch(x, o + [y]) <==> HasMatch(x, o) || Same(x, y)
  {
    if HasMatch(x, o + [y]) && !Same(x, y) {
      var j :| 0 <= j < |o + [y]| && Same(x, (o + [y])[j]);
      assert j < |o| && Same(x, o[j]);
    }
    if HasMatch(x, o) {
      var j :| 0 <= j < |o| && Same(x, o[j]);
      assert Same(x, (o + [y])[j]);
    }
    if Same(x, y) {
      assert Same(x, (o + [y])[|o|]);
    }
  }

  /** A module that no element of `s` matches leaves the unmatched part of
      `s` as it was. */
  lemma {:induction false} UnmatchedIgnoresForeign(s: seq<ScheduledModule>, o: seq<ScheduledModule>, y: ScheduledModule)
    requires forall i :: 0 <= i < |s| ==> !Same(s[i], y)
    ensures Unmatched(s, o + [y]) == Unmatched(s, o)
  {
    if |s| > 0 {
      HasMatchSnoc(s[0], o, y);
      UnmatchedIgnoresForeign(s[1..], o, y);
    }
  }

  lemma DistinctTail(s: seq<ScheduledModule>)
    requires |s| > 0 && DistinctPositions(s)
    ensures DistinctPositions(s[1..])
  {
    forall i, j | 0 <= i < j < |s[1..]|
      ensures s[1..][i].position != s[1..][j].position
    {
      assert s[1..][i] == s[i + 1] && s[1..][j] == s[j + 1];
    }
  }

  lemma UnmatchedFront(s: seq<ScheduledModule>, o: seq<ScheduledModule>)
    requires |s| > 0
    ensures !HasMatch(s[0], o) ==> Unmatched(s, o) == [s[0]] + Unmatched(s[1..], o)
    ensures HasMatch(s[0], o) ==> Unmatched(s, o) == Unmatched(s[1..], o)
  {
  }

  /** Matching the one element s[j0] that corresponds to `y` removes it from
      the unmatched part. */
  lemma {:induction false} UnmatchedDropsMatch(s: seq<ScheduledModule>, o: seq<ScheduledModule>, y: ScheduledModule, j0: nat)
    requires DistinctPositions(s) && j0 < |s| && Same(s[j0], y) && !HasMatch(s[j0], o)
    ensures PyRemove(Unmatched(s, o), s[j0]) == Success(Unmatched(s, o + [y]))
  {
    var h := s[0];
    var t := s[1..];
    HasMatchSnoc(h, o, y);
    UnmatchedFront(s, o);
    UnmatchedFront(s, o + [y]);
    if j0 == 0 {
      forall i | 0 <= i < |t|
        ensures !Same(t[i], y)
      {
        assert t[i] == s[i + 1];
        assert s[0].position != s[i + 1].position;
      }
      UnmatchedIgnoresForeign(t, o, y);
      var u := Unmatched(t, o);
      assert ([h] + u)[0] == h && ([h] + u)[1..] == u;
    } else {
      DistinctTail(s);
      assert t[j0 - 1] == s[j0];
      UnmatchedDropsMatch(t, o, y, j0 - 1);
      assert h.position != s[j0].position;
      assert !Same(h, y);
      if !HasMatch(h, o) {
        var u := Unmatched(t, o);
        assert ([h] + u)[0] == h && ([h] + u)[1..] == u;
      }
    }
  }

  /** The last index of `c` matching `nm`, or -1. */
  function LastMatch(nm: ScheduledModule, c: seq<ScheduledModule>): (r: int)
    ensures -1 <= r < |c|
    ensures r >= 0 ==> Same(c[r], nm)
    ensures r == -1 <==> !HasMatch(nm, c)
  {
    if |c| == 0 then -1
    else if Same(c[|c| - 1], nm) then |c| - 1
    else
      var r := LastMatch(nm, c[..|c| - 1]);
      assert HasMatch(nm, c) ==> HasMatch(nm, c[..|c| - 1]) by {
        if HasMatch(nm, c) {
          var j :| 0 <= j < |c| && Same(nm, c[j]);
          assert Same(nm, c[..|c| - 1][j]);
        }
      }
      assert HasMatch(nm, c[..|c| - 1]) ==> HasMatch(nm, c) by {
        if HasMatch(nm, c[..|c| - 1]) {
          var j :| 0 <= j < |c| - 1 && Same(nm, c[..|c| - 1][j]);
          assert Same(nm, c[j]);
        }
      }
      r
  }

  /** With distinct positions, a next module matches at most one current
      module, so the inner loop removes at most one pair. */
  lemma {:induction false} MatchAgainstMeaning(nm: ScheduledModule, c: seq<ScheduledModule>, rn: seq<ScheduledModule>,
                                               rc: seq<ScheduledModule>)
    requires DistinctPositions(c)
    ensures MatchAgainst(nm, c, rn, rc) ==
      if LastMatch(nm, c) == -1 then Success((rn, rc))
      else
        var rn' :- PyRemove(rn, nm);
        var rc' :- PyRemove(rc, c[LastMatch(nm, c)]);
        Success((rn', rc'))
  {
    if |c| > 0 {
      var p := c[..|c| - 1];
      MatchAgainstMeaning(nm, p, rn, rc);
      if !Same(c[|c| - 1], nm) {
        if LastMatch(nm, p) != -1 {
          assert p[LastMatch(nm, p)] == c[LastMatch(nm, p)];
        }
      }
    }
  }

  /** One step of the outer loop for a next module without counterpart. */
  lemma ReduceStepUnmatched(next: seq<ScheduledModule>, j: nat, current: seq<ScheduledModule>)
    requires j < |next| && DistinctPositions(current)
    requires LastMatch(next[j], current) == -1
    ensures MatchAgainst(next[j], current, Unmatched(next[..j], current) + next[j..], Unmatched(current, next[..j])) ==
      Success((Unmatched(next[..j + 1], current) + next[j + 1..], Unmatched(current, next[..j + 1])))
  {
    var nm := next[j];
    var u := Unmatched(next[..j], current);
    MatchAgainstMeaning(nm, current, u + next[j..], Unmatched(current, next[..j]));
    assert next[..j + 1] == next[..j] + [nm];
    assert next[j..] == [nm] + next[j + 1..];
    UnmatchedSnoc(next[..j], nm, current);
    assert Unmatched(next[..j + 1], current) == u + [nm];
    assert u + next[j..] == (u + [nm]) + next[j + 1..];
    forall i | 0 <= i < |current|
      ensures !Same(current[i], nm)
    {
      assert !Same(nm, current[i]);
    }
    UnmatchedIgnoresForeign(current, next[..j], nm);
  }

  /** The matched next module leaves the reduced next configuration. */
  lemma RemoveNextModule(next: seq<ScheduledModule>, j: nat, current: seq<ScheduledModule>)
    requires j < |next| && DistinctPositions(next) && HasMatch(next[j], current)
    ensures PyRemove(Unmatched(next[..j], current) + next[j..], next[j]) ==
      Success(Unmatched(next[..j + 1], current) + next[j + 1..])
  {
    var nm := next[j];
    var u := Unmatched(next[..j], current);
    assert next[..j + 1] == next[..j] + [nm];
    assert next[j..] == [nm] + next[j + 1..];
    UnmatchedSnoc(next[..j], nm, current);
    assert Unmatched(next[..j + 1], current) == u;
    forall x | x in u
      ensures x != nm
    {
      var i :| 0 <= i < j && next[..j][i] == x;
      assert next[i].position != next[j].position;
    }
    assert u + next[j..] == u + [nm] + next[j + 1..];
    RemoveAbsentPrefix(u, nm, next[j + 1..]);
  }

  /** Its counterpart current[i0] leaves the reduced current configuration. */
  lemma RemoveCurrentModule(next: seq<ScheduledModule>, j: nat, current: seq<ScheduledModule>, i0: nat)
    requires j < |next| && DistinctPositions(next) && DistinctPositions(current)
    requires i0 < |current| && Same(current[i0], next[j])
    ensures PyRemove(Unmatched(current, next[..j]), current[i0]) == Success(Unmatched(current, next[..j + 1]))
  {
    var nm := next[j];
    assert next[..j + 1] == next[..j] + [nm];
    forall i | 0 <= i < j
      ensures !Same(current[i0], next[..j][i])
    {
      assert next[..j][i] == next[i];
      assert next[i].position != next[j].position;
    }
    UnmatchedDropsMatch(current, next[..j], nm, i0);
  }

  /** One step of the outer loop for a next module matched by a current
      module. */
  lemma ReduceStepMatched(next: seq<ScheduledModule>, j: nat, current: seq<ScheduledModule>)
    requires j < |next| && DistinctPositions(next) && DistinctPositions(current)
    requires LastMatch(next[j], current) != -1
    ensures MatchAgainst(next[j], current, Unmatched(next[..j], current) + next[j..], Unmatched(current, next[..j])) ==
      Success((Unmatched(next[..j + 1], current) + next[j + 1..], Unmatched(current, next[..j + 1])))
  {
    var i0 := LastMatch(next[j], current);
    MatchAgainstMeaning(next[j], current, Unmatched(next[..j], current) + next[j..], Unmatched(current, next[..j]));
    RemoveNextModule(next, j, current);
    RemoveCurrentModule(next, j, current, i0);
  }

  /** For configurations with distinct positions the complement loops never
      raise; they leave exactly the unmatched modules of each side, in
      order. */
  lemma {:induction false} ReduceMeaning(next: seq<ScheduledModule>, k: nat, current: seq<ScheduledModule>)
    requires k <= |next| && DistinctPositions(next) && DistinctPositions(current)
    ensures Reduce(next, k, current) == Success((Unmatched(next[..k], current) + next[k..], Unmatched(current, next[..k])))
  {
    if k == 0 {
      UnmatchedEmpty(current);
      assert next[..0] == [] && next[0..] == next;
      assert Unmatched([], current) == [];
      assert [] + next == next;
    } else {
      ReduceMeaning(next, k - 1, current);
      if LastMatch(next[k - 1], current) == -1 {
        ReduceStepUnmatched(next, k - 1, current);
      } else {
        ReduceStepMatched(next, k - 1, current);
      }
    }
  }

  lemma {:induction false} UnmatchedEmpty(s: seq<ScheduledModule>)
    ensures Unmatched(s, []) == s
  {
    if |s| > 0 {
      UnmatchedEmpty(s[1..]);
    }
  }

  /** A configuration has no module without a counterpart in itself. */
  lemma {:induction false} UnmatchedSelf(s: seq<ScheduledModule>, o: seq<ScheduledModule>)
    requires forall i :: 0 <= i < |s| ==> s[i] in o
    ensures Unmatched(s, o) == []
  {
    if |s| > 0 {
      var j :| 0 <= j < |o| && o[j] == s[0];
      assert Same(s[0], o[j]);
      UnmatchedSelf(s[1..], o);
    }
  }

  // ----- find_new_written_frames -----

  /** Columns written for a module: range(start, end + 1). */
  function Width(m: ScheduledModule): nat {
    if m.position.1 + 1 - m.position.0 > 0 then m.position.1 + 1 - m.position.0 else 0
  }

  /** Writes the full frame cost of columns lo .. lo + count - 1, in order,
      with Python's negative indexing. */
  function WriteColumns(fully: seq<int>, w: seq<int>, lo: int, count: nat): Result<seq<int>> {
    if count == 0 then Success(w)
    else
      var w1 :- WriteColumns(fully, w, lo, count - 1);
      var v :- PyAt(fully, lo + count - 1);
      PySet(w1, lo + count - 1, v)
  }

  function WriteModules(fully: seq<int>, w: seq<int>, config: seq<ScheduledModule>): Result<seq<int>> {
    if |config| == 0 then Success(w)
    else
      var w1 :- WriteModules(fully, w, config[..|config| - 1]);
      var m := config[|config| - 1];
      WriteColumns(fully, w1, m.position.0, Width(m))
  }

  /** Column i of n is one of lo .. lo + count - 1, directly or as a
      negative index. */
  predicate InRange(i: int, lo: int, count: nat, n: nat) {
    (lo <= i < lo + count) || (lo <= i - n < lo + count)
  }

  predicate Covers(m: ScheduledModule, i: int, n: nat) {
    InRange(i, m.position.0, Width(m), n)
  }

  predicate Covered(config: seq<ScheduledModule>, i: int, n: nat) {
    exists j :: 0 <= j < |config| && Covers(config[j], i, n)
  }

  predicate ColumnsValid(m: ScheduledModule, n: nat) {
    Width(m) == 0 || (-(n as int) <= m.position.0 && m.position.1 < n)
  }

  lemma {:induction false} WriteColumnsMeaning(fully: seq<int>, w: seq<int>, lo: int, count: nat)
    requires |fully| == |w|
    ensures WriteColumns(fully, w, lo, count).Success? <==> count == 0 || (-|w| <= lo && lo + count <= |w|)
    ensures WriteColumns(fully, w, lo, count).Failure? ==> WriteColumns(fully, w, lo, count) == Failure("IndexError")
    ensures WriteColumns(fully, w, lo, count).Success? ==>
      var r := WriteColumns(fully, w, lo, count).value;
      |r| == |w| && forall i :: 0 <= i < |w| ==> r[i] == if InRange(i, lo, count, |w|) then fully[i] else w[i]
  {
    if count > 0 {
      WriteColumnsMeaning(fully, w, lo, count - 1);
    }
  }

  /** Writing a configuration succeeds exactly when every module's columns
      index the frame list, and sets the columns it covers to their full
      cost. */
  lemma {:induction false} WriteModulesMeaning(fully: seq<int>, w: seq<int>, config: seq<ScheduledModule>)
    requires |fully| == |w|
    ensures WriteModules(fully, w, config).Success? <==> forall j :: 0 <= j < |config| ==> ColumnsValid(config[j], |w|)
    ensures WriteModules(fully, w, config).Failure? ==> WriteModules(fully, w, config) == Failure("IndexError")
    ensures WriteModules(fully, w, config).Success? ==>
      var r := WriteModules(fully, w, config).value;
      |r| == |w| && forall i :: 0 <= i < |w| ==> r[i] == if Covered(config, i, |w|) then fully[i] else w[i]
  {
    if |config| > 0 {
      var p := config[..|config| - 1];
      var m := config[|config| - 1];
      WriteModulesMeaning(fully, w, p);
      assert forall j :: 0 <= j < |p| ==> p[j] == config[j];
      if WriteModules(fully, w, p).Success? {
        var w1 := WriteModules(fully, w, p).value;
        WriteColumnsMeaning(fully, w1, m.position.0, Width(m));
        forall i | 0 <= i < |w|
          ensures Covered(config, i, |w|) <==> Covered(p, i, |w|) || Covers(m, i, |w|)
        {
          if Covered(config, i, |w|) {
            var j :| 0 <= j < |config| && Covers(config[j], i, |w|);
            if j < |p| {
              assert Covers(p[j], i, |w|);
            }
          }
          if Covered(p, i, |w|) {
            var j :| 0 <= j < |p| && Covers(p[j], i, |w|);
            assert Covers(config[j], i, |w|);
          }
          assert config[|config| - 1] == m;
        }
      }
    }
  }

  // ----- the cost -----

  function Sum(s: seq<int>): int {
    if |s| == 0 then 0 else Sum(s[..|s| - 1]) + s[|s| - 1]
  }

  /** The frame cost of columns 0 .. k - 1 that either configuration covers,
      each column counted once. */
  function CoveredCost(fully: seq<int>, a: seq<ScheduledModule>, b: seq<ScheduledModule>, k: nat): int
    requires k <= |fully|
  {
    if k == 0 then 0
    else
      var cell := if Covered(a, k - 1, |fully|) || Covered(b, k - 1, |fully|) then fully[k - 1] else 0;
      CoveredCost(fully, a, b, k - 1) + cell
  }

  lemma {:induction false} SumIsCoveredCost(s: seq<int>, fully: seq<int>, a: seq<ScheduledModule>,
                                            b: seq<ScheduledModule>, k: nat)
    requires k <= |s| == |fully|
    requires forall i :: 0 <= i < |s| ==>
      s[i] == if Covered(a, i, |fully|) || Covered(b, i, |fully|) then fully[i] else 0
    ensures Sum(s[..k]) == CoveredCost(fully, a, b, k)
  {
    if k > 0 {
      SumIsCoveredCost(s, fully, a, b, k - 1);
      assert s[..k][..k - 1] == s[..k - 1];
    }
  }

  /** cost_of_columns looked up for each column's resource type. */
  function ColumnCosts(resource: seq<char>, cost: map<char, int>): (r: Result<seq<int>>)
    ensures r.Success? <==> forall i :: 0 <= i < |resource| ==> resource[i] in cost
    ensures r.Success? ==> |r.value| == |resource| && forall i :: 0 <= i < |resource| ==> r.value[i] == cost[resource[i]]
  {
    if |resource| == 0 then Success([])
    else if resource[|resource| - 1] !in cost then Failure("KeyError")
    else
      var p :- ColumnCosts(resource[..|resource| - 1], cost);
      Success(p + [cost[resource[|resource| - 1]]])
  }

  /** Python's `[m for m in current if m not in reduced]`. */
  function Kept(current: seq<ScheduledModule>, reduced: seq<ScheduledModule>): (r: seq<ScheduledModule>)
    ensures forall x :: x in r <==> x in current && x !in reduced
  {
    if |current| == 0 then []
    else
      var last := current[|current| - 1];
      Kept(current[..|current| - 1], reduced) + if last !in reduced then [last] else []
  }

  function Zeros(n: nat): (r: seq<int>)
    ensures |r| == n && forall i :: 0 <= i < n ==> r[i] == 0
  {
    seq(n, i => 0)
  }

  /** find_config_written_for_configuration: the frames written to go from
      `current` to `next`, and the configuration left on the device. */
  function ConfigWritten(next: seq<ScheduledModule>, current: seq<ScheduledModule>, resource: seq<char>,
                         cost: map<char, int>): Result<(int, seq<ScheduledModule>)> {
    var fully :- ColumnCosts(resource, cost);
    var reduced :- Reduce(next, |next|, current);
    var leftOver := Kept(current, reduced.1) + reduced.0;
    var w1 :- WriteModules(fully, Zeros(|resource|), reduced.0);
    var w2 :- WriteModules(fully, w1, reduced.1);
    Success((Sum(w2), leftOver))
  }

  /** The cost counts every column covered by a module that is loaded but
      not kept, or kept but not loaded, exactly once at its full frame cost;
      matched modules cost nothing, and the left-over configuration is the
      kept modules followed by the new ones. */
  lemma ConfigCostIsCoveredColumns(next: seq<ScheduledModule>, current: seq<ScheduledModule>, resource: seq<char>,
                                   cost: map<char, int>)
    requires DistinctPositions(next) && DistinctPositions(current)
    ensures ConfigWritten(next, current, resource, cost).Success? ==>
      ColumnCosts(resource, cost).Success? &&
      var fully := ColumnCosts(resource, cost).value;
      var r := ConfigWritten(next, current, resource, cost).value;
      r.0 == CoveredCost(fully, Unmatched(next, current), Unmatched(current, next), |fully|) &&
      forall x :: x in r.1 <==> (x in current && HasMatch(x, next)) || (x in next && !HasMatch(x, current))
  {
    ReduceMeaning(next, |next|, current);
    assert next[..|next|] == next && next[|next|..] == [];
    var rn := Unmatched(next, current);
    var rc := Unmatched(current, next);
    assert Unmatched(next[..|next|], current) == rn && Unmatched(current, next[..|next|]) == rc;
    assert rn + next[|next|..] == rn;
    assert Reduce(next, |next|, current) == Success((rn, rc));
    UnmatchedMembers(current, next);
    if ConfigWritten(next, current, resource, cost).Success? {
      var fully := ColumnCosts(resource, cost).value;
      var zeros := Zeros(|resource|);
      WriteModulesMeaning(fully, zeros, rn);
      var w1 := WriteModules(fully, zeros, rn).value;
      WriteModulesMeaning(fully, w1, rc);
      var w2 := WriteModules(fully, w1, rc).value;
      SumIsCoveredCost(w2, fully, rn, rc, |w2|);
      assert w2[..|w2|] == w2;
      UnmatchedMembers(next, current);
    }
  }

  /** A module is unmatched exactly when it has no counterpart. */
  lemma {:induction false} UnmatchedMembers(s: seq<ScheduledModule>, o: seq<ScheduledModule>)
    ensures forall x :: x in Unmatched(s, o) <==> x in s && !HasMatch(x, o)
  {
    if |s| > 0 {
      UnmatchedMembers(s[1..], o);
      assert forall x :: x in s <==> x == s[0] || x in s[1..];
    }
  }

  /** Reloading the configuration already on the device writes nothing and
      leaves it unchanged. */
  lemma IdenticalConfigsCostNothing(config: seq<ScheduledModule>, resource: seq<char>, cost: map<char, int>)
    requires DistinctPositions(config)
    requires forall i :: 0 <= i < |resource| ==> resource[i] in cost
    ensures ConfigWritten(config, config, resource, cost) == Success((0, config))
  {
    ReduceMeaning(config, |config|, config);
    assert config[..|config|] == config && config[|config|..] == [];
    UnmatchedSelf(config, config);
    assert Unmatched(config[..|config|], config) == [] && Unmatched(config, config[..|config|]) == [];
    assert [] + config[|config|..] == [];
    assert Reduce(config, |config|, config) == Success(([], []));
    KeptAll(config, []);
    var fully := ColumnCosts(resource, cost).value;
    var zeros := Zeros(|resource|);
    assert WriteModules(fully, zeros, []) == Success(zeros);
    ZerosSum(|resource|);
    assert Kept(config, []) + [] == config;
    assert ColumnCosts(resource, cost) == Success(fully);
  }

  lemma {:induction false} KeptAll(current: seq<ScheduledModule>, reduced: seq<ScheduledModule>)
    requires reduced == []
    ensures Kept(current, reduced) == current
  {
    if |current| > 0 {
      KeptAll(current[..|current| - 1], reduced);
      assert current == current[..|current| - 1] + [current[|current| - 1]];
    }
  }

  lemma {:induction false} ZerosSum(n: nat)
    ensures Sum(Zeros(n)) == 0
  {
    if n > 0 {
      ZerosSum(n - 1);
      assert Zeros(n)[..n - 1] == Zeros(n - 1);
    }
  }

  // ----- the loops of the source -----

  /** The inner loop of find_new_written_frames for one module. */
  method WriteModuleColumns(fully: seq<int>, w: seq<int>, m: ScheduledModule) returns (r: Result<seq<int>>)
    requires |fully| == |w|
    ensures r == WriteColumns(fully, w, m.position.0, Width(m))
  {
    WriteColumnsMeaning(fully, w, m.position.0, Width(m));
    var current := w;
    var t := 0;
    while t < Width(m)
      invariant 0 <= t <= Width(m)
      invariant WriteColumns(fully, w, m.position.0, t) == Success(current)
    {
      WriteColumnsMeaning(fully, w, m.position.0, t);
      var c := m.position.0 + t;
      var v := PyAt(fully, c);
      if v.Failure? {
        return Failure("IndexError");
      }
      var next := PySet(current, c, v.value);
      current := next.value;
      t := t + 1;
    }
    r := Success(current);
  }

  /** find_new_written_frames: every column of every module gets its full
      frame cost. */
  method FindNewWrittenFrames(fully: seq<int>, written: seq<int>, config: seq<ScheduledModule>) returns (r: Result<seq<int>>)
    requires |fully| == |written|
    ensures r == WriteModules(fully, written, config)
  {
    var w := written;
    var k := 0;
    while k < |config|
      invariant 0 <= k <= |config|
      invariant WriteModules(fully, written, config[..k]) == Success(w)
    {
      WriteModulesMeaning(fully, written, config[..k]);
      assert config[..k + 1][..k] == config[..k];
      var next := WriteModuleColumns(fully, w, config[k]);
      if next.Failure? {
        WriteFailureExtends(fully, written, config, k + 1);
        return next;
      }
      w := next.value;
      k := k + 1;
    }
    assert config[..k] == config;
    r := Success(w);
  }

  lemma {:induction false} WriteFailureExtends(fully: seq<int>, written: seq<int>, config: seq<ScheduledModule>, k: nat)
    requires |fully| == |written| && k <= |config| && WriteModules(fully, written, config[..k]).Failure?
    ensures WriteModules(fully, written, config) == WriteModules(fully, written, config[..k])
    decreases |config| - k
  {
    if k < |config| {
      assert config[..k + 1][..k] == config[..k];
      WriteFailureExtends(fully, written, config, k + 1);
    } else {
      assert config[..k] == config;
    }
  }

  /** find_config_written_for_configuration. */
  /** The first loop of find_config_written_for_configuration: the cost of
      fully writing each column of the resource string. */
  method FullyWrittenFrames(resource: seq<char>, cost: map<char, int>) returns (r: Result<seq<int>>)
    ensures r == ColumnCosts(resource, cost)
  {
    var fully: seq<int> := [];
    var i := 0;
    while i < |resource|
      invariant 0 <= i <= |resource|
      invariant |fully| == i && forall j :: 0 <= j < i ==> resource[j] in cost && fully[j] == cost[resource[j]]
    {
      if resource[i] !in cost {
        ColumnCostsFailure(resource, cost);
        return Failure("KeyError");
      }
      fully := fully + [cost[resource[i]]];
      i := i + 1;
    }
    assert ColumnCosts(resource, cost).Success?;
    assert ColumnCosts(resource, cost).value == fully;
    r := Success(fully);
  }

  /** The inner loop of the complement: match one next module against
      every current module. */
  method MatchModule(nm: ScheduledModule, current: seq<ScheduledModule>, rn0: seq<ScheduledModule>,
                     rc0: seq<ScheduledModule>) returns (r: Result<(seq<ScheduledModule>, seq<ScheduledModule>)>)
    ensures r == MatchAgainst(nm, current, rn0, rc0)
  {
    var reducedNext, reducedCurrent := rn0, rc0;
    var j := 0;
    while j < |current|
      invariant 0 <= j <= |current|
      invariant MatchAgainst(nm, current[..j], rn0, rc0) == Success((reducedNext, reducedCurrent))
    {
      assert current[..j + 1][..j] == current[..j];
      var c := current[j];
      if Same(c, nm) {
        var rn := PyRemove(reducedNext, nm);
        var rc := if rn.Success? then PyRemove(reducedCurrent, c) else rn;
        if rc.Failure? {
          MatchFailureExtends(nm, current, rn0, rc0, j + 1);
          return Failure("ValueError");
        }
        reducedNext, reducedCurrent := rn.value, rc.value;
      }
      j := j + 1;
    }
    assert current[..j] == current;
    r := Success((reducedNext, reducedCurrent));
  }

  /** The nested loops of find_config_written_for_configuration: strike
      every module of the next configuration that is already loaded. */
  method ReduceConfigurations(next: seq<ScheduledModule>, current: seq<ScheduledModule>)
    returns (r: Result<(seq<ScheduledModule>, seq<ScheduledModule>)>)
    ensures r == Reduce(next, |next|, current)
  {
    var reducedNext := next;
    var reducedCurrent := current;
    var k := 0;
    while k < |next|
      invariant 0 <= k <= |next|
      invariant Reduce(next, k, current) == Success((reducedNext, reducedCurrent))
    {
      var m := MatchModule(next[k], current, reducedNext, reducedCurrent);
      if m.Failure? {
        MatchErrorIsValueError(next[k], current, reducedNext, reducedCurrent);
        ReduceFailureExtends(next, k + 1, current);
        return Failure("ValueError");
      }
      reducedNext, reducedCurrent := m.value.0, m.value.1;
      k := k + 1;
    }
    r := Success((reducedNext, reducedCurrent));
  }

  /** The left-over list comprehension: the loaded modules that stay. */
  method LeftOver(current: seq<ScheduledModule>, reducedCurrent: seq<ScheduledModule>) returns (r: seq<ScheduledModule>)
    ensures r == Kept(current, reducedCurrent)
  {
    r := [];
    var p := 0;
    while p < |current|
      invariant 0 <= p <= |current|
      invariant r == Kept(current[..p], reducedCurrent)
    {
      assert current[..p + 1][..p] == current[..p];
      if current[p] !in reducedCurrent {
        r := r + [current[p]];
      }
      p := p + 1;
    }
    assert current[..p] == current;
  }

  method FindConfigWrittenForConfiguration(next: seq<ScheduledModule>, current: seq<ScheduledModule>,
                                           resource: seq<char>, cost: map<char, int>)
    returns (r: Result<(int, seq<ScheduledModule>)>)
    ensures r == ConfigWritten(next, current, resource, cost)
  {
    var written := Zeros(|resource|);
    var fully := FullyWrittenFrames(resource, cost);
    if fully.Failure? {
      return Failure(fully.error);
    }
    var reduced := ReduceConfigurations(next, current);
    if reduced.Failure? {
      return Failure(reduced.error);
    }
    var leftOver := LeftOver(current, reduced.value.1);
    leftOver := leftOver + reduced.value.0;
    var w1 := FindNewWrittenFrames(fully.value, written, reduced.value.0);
    if w1.Failure? {
      return Failure(w1.error);
    }
    WriteModulesMeaning(fully.value, written, reduced.value.0);
    var w2 := FindNewWrittenFrames(fully.value, w1.value, reduced.value.1);
    if w2.Failure? {
      return Failure(w2.error);
    }
    r := Success((Sum(w2.value), leftOver));
  }


  lemma {:induction false} ColumnCostsFailure(resource: seq<char>, cost: map<char, int>)
    ensures ColumnCosts(resource, cost).Failure? ==> ColumnCosts(resource, cost) == Failure("KeyError")
  {
    if |resource| > 0 {
      ColumnCostsFailure(resource[..|resource| - 1], cost);
    }
  }

  /** Every failure of the inner loop is a failed list.remove. */
  lemma {:induction false} MatchFailureExtends(nm: ScheduledModule, c: seq<ScheduledModule>, rn: seq<ScheduledModule>,
                                               rc: seq<ScheduledModule>, j: nat)
    requires j <= |c| && MatchAgainst(nm, c[..j], rn, rc).Failure?
    ensures MatchAgainst(nm, c, rn, rc) == Failure("ValueError")
    decreases |c| - j
  {
    MatchErrorIsValueError(nm, c[..j], rn, rc);
    if j < |c| {
      assert c[..j + 1][..j] == c[..j];
      MatchFailureExtends(nm, c, rn, rc, j + 1);
    } else {
      assert c[..j] == c;
    }
  }

  lemma {:induction false} MatchErrorIsValueError(nm: ScheduledModule, c: seq<ScheduledModule>, rn: seq<ScheduledModule>,
                                                  rc: seq<ScheduledModule>)
    ensures MatchAgainst(nm, c, rn, rc).Failure? ==> MatchAgainst(nm, c, rn, rc) == Failure("ValueError")
  {
    if |c| > 0 {
      MatchErrorIsValueError(nm, c[..|c| - 1], rn, rc);
      RemoveErrorIsValueError(rn, nm);
      if MatchAgainst(nm, c[..|c| - 1], rn, rc).Success? {
        var p := MatchAgainst(nm, c[..|c| - 1], rn, rc).value;
        RemoveErrorIsValueError(p.0, nm);
        RemoveErrorIsValueError(p.1, c[|c| - 1]);
      }
    }
  }

  lemma {:induction false} RemoveErrorIsValueError(s: seq<ScheduledModule>, x: ScheduledModule)
    ensures PyRemove(s, x).Failure? ==> PyRemove(s, x) == Failure("ValueError")
  {
    if |s| > 0 {
      RemoveErrorIsValueError(s[1..], x);
    }
  }

  lemma {:induction false} ReduceFailureExtends(next: seq<ScheduledModule>, k: nat, current: seq<ScheduledModule>)
    requires k <= |next| && Reduce(next, k, current) == Failure("ValueError")
    ensures Reduce(next, |next|, current) == Failure("ValueError")
    decreases |next| - k
  {
    if k < |next| {
      ReduceFailureExtends(next, k + 1, current);
    }
  }

  // ----- find_config_written -----

  /** The frames written by the runs of a plan from run i on, starting from
      the frames written so far and the configuration the earlier runs
      left; the first run that fails ends the plan with its error. */
  function RunsWritten(plan: seq<seq<ScheduledModule>>, i: nat, total: int, config: seq<ScheduledModule>,
                       resource: seq<char>, cost: map<char, int>): Result<(int, seq<ScheduledModule>)>
    requires i <= |plan|
    decreases |plan| - i
  {
    if i == |plan| then Success((total, config))
    else
      var run :- ConfigWritten(plan[i], config, resource, cost);
      RunsWritten(plan, i + 1, total + run.0, run.1, resource, cost)
  }

  /** find_config_written: the frames written over a whole plan, run after
      run, and the configuration it leaves; an empty plan raises. */
  function PlanWritten(plan: seq<seq<ScheduledModule>>, current: seq<ScheduledModule>, resource: seq<char>,
                       cost: map<char, int>): Result<(int, seq<ScheduledModule>)>
  {
    if |plan| == 0 then Failure("IndexError")
    else
      var first :- ConfigWritten(plan[0], current, resource, cost);
      RunsWritten(plan, 1, first.0, first.1, resource, cost)
  }

  /** With non-negative column costs a plan never has negative cost. */
  lemma PlanWrittenNonnegative(plan: seq<seq<ScheduledModule>>, current: seq<ScheduledModule>,
                               resource: seq<char>, cost: map<char, int>)
    requires forall c :: c in cost ==> cost[c] >= 0
    ensures PlanWritten(plan, current, resource, cost).Success? ==> PlanWritten(plan, current, resource, cost).value.0 >= 0
  {
    if |plan| > 0 {
      ConfigWrittenNonnegative(plan[0], current, resource, cost);
      var first := ConfigWritten(plan[0], current, resource, cost);
      if first.Success? {
        RunsWrittenNonnegative(plan, 1, first.value.0, first.value.1, resource, cost);
      }
    }
  }

  lemma {:induction false} RunsWrittenNonnegative(plan: seq<seq<ScheduledModule>>, i: nat, total: int,
                                                  config: seq<ScheduledModule>, resource: seq<char>,
                                                  cost: map<char, int>)
    requires i <= |plan| && total >= 0
    requires forall c :: c in cost ==> cost[c] >= 0
    ensures RunsWritten(plan, i, total, config, resource, cost).Success? ==>
            RunsWritten(plan, i, total, config, resource, cost).value.0 >= 0
    decreases |plan| - i
  {
    if i < |plan| {
      var run := ConfigWritten(plan[i], config, resource, cost);
      if run.Success? {
        ConfigWrittenNonnegative(plan[i], config, resource, cost);
        assert RunsWritten(plan, i, total, config, resource, cost) ==
          RunsWritten(plan, i + 1, total + run.value.0, run.value.1, resource, cost);
        RunsWrittenNonnegative(plan, i + 1, total + run.value.0, run.value.1, resource, cost);
      }
    }
  }

  lemma ConfigWrittenNonnegative(next: seq<ScheduledModule>, current: seq<ScheduledModule>, resource: seq<char>,
                                 cost: map<char, int>)
    requires forall c :: c in cost ==> cost[c] >= 0
    ensures ConfigWritten(next, current, resource, cost).Success? ==> ConfigWritten(next, current, resource, cost).value.0 >= 0
  {
    if ConfigWritten(next, current, resource, cost).Success? {
      var fully := ColumnCosts(resource, cost).value;
      var reduced := Reduce(next, |next|, current).value;
      var zeros := Zeros(|resource|);
      WriteModulesMeaning(fully, zeros, reduced.0);
      var w1 := WriteModules(fully, zeros, reduced.0).value;
      WriteModulesMeaning(fully, w1, reduced.1);
      SumNonnegative(WriteModules(fully, w1, reduced.1).value);
    }
  }

  lemma {:induction false} SumNonnegative(s: seq<int>)
    requires forall i :: 0 <= i < |s| ==> s[i] >= 0
    ensures Sum(s) >= 0
  {
    if |s| > 0 {
      SumNonnegative(s[..|s| - 1]);
    }
  }

  /** Costing one more run of the plan successfully moves the fold on by
      that run. */
  lemma RunsWrittenNext(plan: seq<seq<ScheduledModule>>, i: nat, total: int, config: seq<ScheduledModule>,
                        resource: seq<char>, cost: map<char, int>, run: Result<(int, seq<ScheduledModule>)>)
    requires i < |plan| && run == ConfigWritten(plan[i], config, resource, cost) && run.Success?
    ensures RunsWritten(plan, i, total, config, resource, cost) ==
            RunsWritten(plan, i + 1, total + run.value.0, run.value.1, resource, cost)
  {
  }

  method FindConfigWritten(plan: seq<seq<ScheduledModule>>, current: seq<ScheduledModule>, resource: seq<char>,
                           cost: map<char, int>) returns (r: Result<(int, seq<ScheduledModule>)>)
    ensures r == PlanWritten(plan, current, resource, cost)
  {
    if |plan| == 0 {
      return Failure("IndexError");
    }
    var first := FindConfigWrittenForConfiguration(plan[0], current, resource, cost);
    if first.Failure? {
      return Failure(first.error);
    }
    var total, config := first.value.0, first.value.1;
    var i := 1;
    while i < |plan|
      invariant 1 <= i <= |plan|
      invariant PlanWritten(plan, current, resource, cost) == RunsWritten(plan, i, total, config, resource, cost)
    {
      var run := FindConfigWrittenForConfiguration(plan[i], config, resource, cost);
      if run.Failure? {
        return Failure(run.error);
      }
      RunsWrittenNext(plan, i, total, config, resource, cost, run);
      total, config := total + run.value.0, run.value.1;
      i := i + 1;
    }
    r := Success((total, config));
  }
}
