/** Placement-selection heuristics of the Python scheduler and their
    composition (schedule.py, select_*_enum_func and
    select_according_to_preferences).  Each heuristic is a loop that
    first finds an extreme value and then collects, without duplicates
    and in input order, the placements that attain it. */
module Selection {
  import opened ScheduleTypes

  datatype ModuleSelection = AllAvailable | FirstAvailable | LastAvailable | Shortest | Longest

  /** A clause is applied left to right (AND); clauses are united (OR). */
  type Clause = seq<ModuleSelection>

  function Start(p: Placement): int { p.1.position.0 }

  function Length(p: Placement): int { p.1.position.1 - p.1.position.0 + 1 }

  function Starts(ps: seq<Placement>): (r: seq<int>)
    ensures |r| == |ps| && forall i :: 0 <= i < |ps| ==> r[i] == Start(ps[i])
  {
    if |ps| == 0 then [] else Starts(ps[..|ps| - 1]) + [Start(ps[|ps| - 1])]
  }

  function Lengths(ps: seq<Placement>): (r: seq<int>)
    ensures |r| == |ps| && forall i :: 0 <= i < |ps| ==> r[i] == Length(ps[i])
  {
    if |ps| == 0 then [] else Lengths(ps[..|ps| - 1]) + [Length(ps[|ps| - 1])]
  }

  /** The running minimum of `xs`, starting from `init`. */
  function Least(init: int, xs: seq<int>): int {
    if |xs| == 0 then init else
      var m := Least(init, xs[..|xs| - 1]);
      if xs[|xs| - 1] < m then xs[|xs| - 1] else m
  }

  /** The running maximum of `xs`, starting from `init`. */
  function Greatest(init: int, xs: seq<int>): int {
    if |xs| == 0 then init else
      var m := Greatest(init, xs[..|xs| - 1]);
      if xs[|xs| - 1] > m then xs[|xs| - 1] else m
  }

  lemma {:induction false} LeastIsMinimum(init: int, xs: seq<int>)
    ensures Least(init, xs) <= init
    ensures forall i :: 0 <= i < |xs| ==> Least(init, xs) <= xs[i]
    ensures Least(init, xs) == init || exists i :: 0 <= i < |xs| && Least(init, xs) == xs[i]
  {
    if |xs| > 0 {
      var xs' := xs[..|xs| - 1];
      LeastIsMinimum(init, xs');
      assert forall i :: 0 <= i < |xs'| ==> xs'[i] == xs[i];
    }
  }

  lemma {:induction false} GreatestIsMaximum(init: int, xs: seq<int>)
    ensures Greatest(init, xs) >= init
    ensures forall i :: 0 <= i < |xs| ==> Greatest(init, xs) >= xs[i]
    ensures Greatest(init, xs) == init || exists i :: 0 <= i < |xs| && Greatest(init, xs) == xs[i]
  {
    if |xs| > 0 {
      var xs' := xs[..|xs| - 1];
      GreatestIsMaximum(init, xs');
      assert forall i :: 0 <= i < |xs'| ==> xs'[i] == xs[i];
    }
  }

  /** Which placements a collecting loop keeps. */
  datatype Criterion = StartIs(start: int) | LengthIs(length: int) | AnyPlacement

  predicate Holds(c: Criterion, p: Placement) {
    match c
    case StartIs(v) => Start(p) == v
    case LengthIs(v) => Length(p) == v
    case AnyPlacement => true
  }

  /** The placements of `ps` satisfying `c`, each once, in the order of
      their first occurrence. */
  function KeepDistinct(ps: seq<Placement>, c: Criterion): seq<Placement> {
    if |ps| == 0 then [] else
      var r := KeepDistinct(ps[..|ps| - 1], c);
      var p := ps[|ps| - 1];
      if Holds(c, p) && p !in r then r + [p] else r
  }

  /** What one heuristic returns. */
  function Apply(h: ModuleSelection, ps: seq<Placement>): seq<Placement> {
    match h
    case AllAvailable => ps
    case FirstAvailable => KeepDistinct(ps, StartIs(Least(MAXSIZE, Starts(ps))))
    case LastAvailable => KeepDistinct(ps, StartIs(Greatest(0, Starts(ps))))
    case Shortest => KeepDistinct(ps, LengthIs(Least(MAXSIZE, Lengths(ps))))
    case Longest => KeepDistinct(ps, LengthIs(Greatest(0, Lengths(ps))))
  }

  /** A clause applied left to right. */
  function Compose(ps: seq<Placement>, clause: Clause): seq<Placement> {
    if |clause| == 0 then ps else Apply(clause[|clause| - 1], Compose(ps, clause[..|clause| - 1]))
  }

  function ClauseResults(ps: seq<Placement>, clauses: seq<Clause>): (r: seq<seq<Placement>>)
    ensures |r| == |clauses| && forall i :: 0 <= i < |clauses| ==> r[i] == Compose(ps, clauses[i])
  {
    if |clauses| == 0 then [] else ClauseResults(ps, clauses[..|clauses| - 1]) + [Compose(ps, clauses[|clauses| - 1])]
  }

  function Flatten(xss: seq<seq<Placement>>): seq<Placement> {
    if |xss| == 0 then [] else Flatten(xss[..|xss| - 1]) + xss[|xss| - 1]
  }

  /** What select_according_to_preferences returns. */
  function Preferences(ps: seq<Placement>, clauses: seq<Clause>): seq<Placement> {
    KeepDistinct(Flatten(ClauseResults(ps, clauses)), AnyPlacement)
  }

  // ----- the loops of the source, proved against the functions above -----

  method LeastStart(ps: seq<Placement>) returns (m: int)
    ensures m == Least(MAXSIZE, Starts(ps))
  {
    m := MAXSIZE;
    var i := 0;
    while i < |ps|
      invariant 0 <= i <= |ps|
      invariant m == Least(MAXSIZE, Starts(ps[..i]))
    {
      assert Starts(ps[..i + 1])[..i] == Starts(ps[..i]);
      if Start(ps[i]) < m {
        m := Start(ps[i]);
      }
      i := i + 1;
    }
    assert ps[..i] == ps;
  }

  method GreatestStart(ps: seq<Placement>) returns (m: int)
    ensures m == Greatest(0, Starts(ps))
  {
    m := 0;
    var i := 0;
    while i < |ps|
      invariant 0 <= i <= |ps|
      invariant m == Greatest(0, Starts(ps[..i]))
    {
      assert Starts(ps[..i + 1])[..i] == Starts(ps[..i]);
      if Start(ps[i]) > m {
        m := Start(ps[i]);
      }
      i := i + 1;
    }
    assert ps[..i] == ps;
  }

  method LeastLength(ps: seq<Placement>) returns (m: int)
    ensures m == Least(MAXSIZE, Lengths(ps))
  {
    m := MAXSIZE;
    var i := 0;
    while i < |ps|
      invariant 0 <= i <= |ps|
      invariant m == Least(MAXSIZE, Lengths(ps[..i]))
    {
      assert Lengths(ps[..i + 1])[..i] == Lengths(ps[..i]);
      if Length(ps[i]) < m {
        m := Length(ps[i]);
      }
      i := i + 1;
    }
    assert ps[..i] == ps;
  }

  method GreatestLength(ps: seq<Placement>) returns (m: int)
    ensures m == Greatest(0, Lengths(ps))
  {
    m := 0;
    var i := 0;
    while i < |ps|
      invariant 0 <= i <= |ps|
      invariant m == Greatest(0, Lengths(ps[..i]))
    {
      assert Lengths(ps[..i + 1])[..i] == Lengths(ps[..i]);
      if Length(ps[i]) > m {
        m := Length(ps[i]);
      }
      i := i + 1;
    }
    assert ps[..i] == ps;
  }

  /** The second loop of every heuristic: append each matching placement
      that is not chosen yet. */
  method CollectMatching(ps: seq<Placement>, c: Criterion) returns (chosen: seq<Placement>)
    ensures chosen == KeepDistinct(ps, c)
  {
    chosen := [];
    var i := 0;
    while i < |ps|
      invariant 0 <= i <= |ps|
      invariant chosen == KeepDistinct(ps[..i], c)
    {
      assert ps[..i + 1][..i] == ps[..i];
      if Holds(c, ps[i]) && ps[i] !in chosen {
        chosen := chosen + [ps[i]];
      }
      i := i + 1;
    }
    assert ps[..i] == ps;
  }

  /** Calling one ModuleSelection member on a list of placements. */
  method SelectPlacements(h: ModuleSelection, ps: seq<Placement>) returns (r: seq<Placement>)
    ensures r == Apply(h, ps)
  {
    match h
    case AllAvailable =>
      r := ps;
    case FirstAvailable =>
      var m := LeastStart(ps);
      r := CollectMatching(ps, StartIs(m));
    case LastAvailable =>
      var m := GreatestStart(ps);
      r := CollectMatching(ps, StartIs(m));
    case Shortest =>
      var m := LeastLength(ps);
      r := CollectMatching(ps, LengthIs(m));
    case Longest =>
      var m := GreatestLength(ps);
      r := CollectMatching(ps, LengthIs(m));
  }

  /** One clause of select_according_to_preferences: the heuristics applied
      left to right to a copy of the placements. */
  method ApplyClause(ps: seq<Placement>, clause: Clause) returns (current: seq<Placement>)
    ensures current == Compose(ps, clause)
  {
    current := ps;
    var f := 0;
    while f < |clause|
      invariant 0 <= f <= |clause|
      invariant current == Compose(ps, clause[..f])
    {
      assert clause[..f + 1][..f] == clause[..f];
      current := SelectPlacements(clause[f], current);
      f := f + 1;
    }
    assert clause[..f] == clause;
  }

  /** The final loops of select_according_to_preferences: every clause
      result's placements, appended when not chosen yet. */
  method UniteClauseResults(selected: seq<seq<Placement>>) returns (chosen: seq<Placement>)
    ensures chosen == KeepDistinct(Flatten(selected), AnyPlacement)
  {
    chosen := [];
    var i := 0;
    while i < |selected|
      invariant 0 <= i <= |selected|
      invariant chosen == KeepDistinct(Flatten(selected[..i]), AnyPlacement)
    {
      var set_i := selected[i];
      var j := 0;
      assert selected[..i + 1][..i] == selected[..i];
      assert Flatten(selected[..i]) + set_i[..0] == Flatten(selected[..i]);
      while j < |set_i|
        invariant 0 <= j <= |set_i|
        invariant chosen == KeepDistinct(Flatten(selected[..i]) + set_i[..j], AnyPlacement)
      {
        ghost var prefix := Flatten(selected[..i]) + set_i[..j + 1];
        assert prefix[..|prefix| - 1] == Flatten(selected[..i]) + set_i[..j];
        if set_i[j] !in chosen {
          chosen := chosen + [set_i[j]];
        }
        j := j + 1;
      }
      assert set_i[..j] == set_i;
      i := i + 1;
    }
    assert selected[..i] == selected;
  }

  /** select_according_to_preferences: compose each clause, then unite the
      clause results without duplicates. */
  method SelectAccordingToPreferences(ps: seq<Placement>, clauses: seq<Clause>) returns (chosen: seq<Placement>)
    ensures chosen == Preferences(ps, clauses)
  {
    var selected: seq<seq<Placement>> := [];
    var k := 0;
    while k < |clauses|
      invariant 0 <= k <= |clauses|
      invariant selected == ClauseResults(ps, clauses[..k])
    {
      var current := ApplyClause(ps, clauses[k]);
      assert clauses[..k + 1][..k] == clauses[..k];
      selected := selected + [current];
      k := k + 1;
    }
    assert clauses[..k] == clauses;
    chosen := UniteClauseResults(selected);
  }

  // ----- properties -----

  /** Index of the first occurrence of `x` in `s`. */
  function IndexOf(s: seq<Placement>, x: Placement): (r: nat)
    requires x in s
    ensures r < |s| && s[r] == x && forall k :: 0 <= k < r ==> s[k] != x
  {
    if s[0] == x then 0 else 1 + IndexOf(s[1..], x)
  }

  predicate NoDuplicates(r: seq<Placement>) {
    forall i, j :: 0 <= i < j < |r| ==> r[i] != r[j]
  }

  /** `r` lists elements of `s` in the order of their first occurrence in `s`. */
  predicate InInputOrder(r: seq<Placement>, s: seq<Placement>) {
    (forall x :: x in r ==> x in s) &&
    (forall i, j :: 0 <= i < j < |r| ==> IndexOf(s, r[i]) < IndexOf(s, r[j]))
  }

  lemma IndexOfExtend(s: seq<Placement>, x: Placement, y: Placement)
    requires y in s
    ensures IndexOf(s + [x], y) == IndexOf(s, y)
  {
    var t := s + [x];
    var k := IndexOf(s, y);
    assert t[k] == y;
  }

  /** The collecting loop keeps exactly the matching placements, each once,
      in input order. */
  lemma {:induction false} KeepDistinctCharacterisation(ps: seq<Placement>, c: Criterion)
    ensures forall x :: x in KeepDistinct(ps, c) <==> x in ps && Holds(c, x)
    ensures NoDuplicates(KeepDistinct(ps, c))
    ensures InInputOrder(KeepDistinct(ps, c), ps)
  {
    if |ps| > 0 {
      var ps' := ps[..|ps| - 1];
      var p := ps[|ps| - 1];
      KeepDistinctCharacterisation(ps', c);
      assert ps == ps' + [p];
      var r' := KeepDistinct(ps', c);
      forall y | y in r'
        ensures IndexOf(ps, y) == IndexOf(ps', y)
      {
        IndexOfExtend(ps', p, y);
      }
      if Holds(c, p) && p !in r' {
        assert p !in ps';
        var t := ps' + [p];
        assert IndexOf(ps, p) == |ps'| by {
          assert t[|ps'|] == p;
        }
      }
    }
  }

  /** A heuristic never invents placements. */
  lemma ApplyIsSubset(h: ModuleSelection, ps: seq<Placement>)
    ensures forall x :: x in Apply(h, ps) ==> x in ps
  {
    match h
    case AllAvailable =>
    case FirstAvailable => KeepDistinctCharacterisation(ps, StartIs(Least(MAXSIZE, Starts(ps))));
    case LastAvailable => KeepDistinctCharacterisation(ps, StartIs(Greatest(0, Starts(ps))));
    case Shortest => KeepDistinctCharacterisation(ps, LengthIs(Least(MAXSIZE, Lengths(ps))));
    case Longest => KeepDistinctCharacterisation(ps, LengthIs(Greatest(0, Lengths(ps))));
  }

  /** FIRST keeps exactly the placements whose start is the minimum start
      (the minimum is taken from sys.maxsize downwards). */
  lemma FirstKeepsMinimumStart(ps: seq<Placement>)
    ensures forall p :: p in Apply(FirstAvailable, ps) <==>
      p in ps && Start(p) <= MAXSIZE && forall q :: q in ps ==> Start(p) <= Start(q)
    ensures NoDuplicates(Apply(FirstAvailable, ps)) && InInputOrder(Apply(FirstAvailable, ps), ps)
  {
    var m := Least(MAXSIZE, Starts(ps));
    KeepDistinctCharacterisation(ps, StartIs(m));
    LeastIsMinimum(MAXSIZE, Starts(ps));
    forall p | p in ps && Start(p) <= MAXSIZE && forall q :: q in ps ==> Start(p) <= Start(q)
      ensures Start(p) == m
    {
      if m != MAXSIZE {
        var i :| 0 <= i < |ps| && m == Starts(ps)[i];
        assert ps[i] in ps;
      }
      var k :| 0 <= k < |ps| && ps[k] == p;
      assert m <= Starts(ps)[k];
    }
  }

  /** LAST keeps exactly the placements whose start is the maximum start
      (the maximum is taken from 0 upwards). */
  lemma LastKeepsMaximumStart(ps: seq<Placement>)
    ensures forall p :: p in Apply(LastAvailable, ps) <==>
      p in ps && Start(p) >= 0 && forall q :: q in ps ==> Start(p) >= Start(q)
    ensures NoDuplicates(Apply(LastAvailable, ps)) && InInputOrder(Apply(LastAvailable, ps), ps)
  {
    var m := Greatest(0, Starts(ps));
    KeepDistinctCharacterisation(ps, StartIs(m));
    GreatestIsMaximum(0, Starts(ps));
    forall p | p in ps && Start(p) >= 0 && forall q :: q in ps ==> Start(p) >= Start(q)
      ensures Start(p) == m
    {
      if m != 0 {
        var i :| 0 <= i < |ps| && m == Starts(ps)[i];
        assert ps[i] in ps;
      }
      var k :| 0 <= k < |ps| && ps[k] == p;
      assert m >= Starts(ps)[k];
    }
  }

  /** SHORTEST keeps exactly the placements of minimum length end-start+1. */
  lemma ShortestKeepsMinimumLength(ps: seq<Placement>)
    ensures forall p :: p in Apply(Shortest, ps) <==>
      p in ps && Length(p) <= MAXSIZE && forall q :: q in ps ==> Length(p) <= Length(q)
    ensures NoDuplicates(Apply(Shortest, ps)) && InInputOrder(Apply(Shortest, ps), ps)
  {
    var m := Least(MAXSIZE, Lengths(ps));
    KeepDistinctCharacterisation(ps, LengthIs(m));
    LeastIsMinimum(MAXSIZE, Lengths(ps));
    forall p | p in ps && Length(p) <= MAXSIZE && forall q :: q in ps ==> Length(p) <= Length(q)
      ensures Length(p) == m
    {
      if m != MAXSIZE {
        var i :| 0 <= i < |ps| && m == Lengths(ps)[i];
        assert ps[i] in ps;
      }
      var k :| 0 <= k < |ps| && ps[k] == p;
      assert m <= Lengths(ps)[k];
    }
  }

  /** LONGEST keeps exactly the placements of maximum length end-start+1. */
  lemma LongestKeepsMaximumLength(ps: seq<Placement>)
    ensures forall p :: p in Apply(Longest, ps) <==>
      p in ps && Length(p) >= 0 && forall q :: q in ps ==> Length(p) >= Length(q)
    ensures NoDuplicates(Apply(Longest, ps)) && InInputOrder(Apply(Longest, ps), ps)
  {
    var m := Greatest(0, Lengths(ps));
    KeepDistinctCharacterisation(ps, LengthIs(m));
    GreatestIsMaximum(0, Lengths(ps));
    forall p | p in ps && Length(p) >= 0 && forall q :: q in ps ==> Length(p) >= Length(q)
      ensures Length(p) == m
    {
      if m != 0 {
        var i :| 0 <= i < |ps| && m == Lengths(ps)[i];
        assert ps[i] in ps;
      }
      var k :| 0 <= k < |ps| && ps[k] == p;
      assert m >= Lengths(ps)[k];
    }
  }

  /** A composed clause only narrows its input. */
  lemma {:induction false} ComposeIsSubset(ps: seq<Placement>, clause: Clause)
    ensures forall x :: x in Compose(ps, clause) ==> x in ps
  {
    if |clause| > 0 {
      ComposeIsSubset(ps, clause[..|clause| - 1]);
      ApplyIsSubset(clause[|clause| - 1], Compose(ps, clause[..|clause| - 1]));
    }
  }

  lemma {:induction false} FlattenMembership(xss: seq<seq<Placement>>)
    ensures forall x :: x in Flatten(xss) <==> exists i :: 0 <= i < |xss| && x in xss[i]
  {
    if |xss| > 0 {
      var xss' := xss[..|xss| - 1];
      FlattenMembership(xss');
      assert forall i :: 0 <= i < |xss'| ==> xss'[i] == xss[i];
    }
  }

  /** The union of the clause results: a placement is chosen iff some
      clause's composition keeps it; no duplicates; order of first
      occurrence over the clause results; and never outside the input. */
  lemma PreferencesCharacterisation(ps: seq<Placement>, clauses: seq<Clause>)
    ensures forall x :: x in Preferences(ps, clauses) <==>
      exists i :: 0 <= i < |clauses| && x in Compose(ps, clauses[i])
    ensures NoDuplicates(Preferences(ps, clauses))
    ensures InInputOrder(Preferences(ps, clauses), Flatten(ClauseResults(ps, clauses)))
    ensures forall x :: x in Preferences(ps, clauses) ==> x in ps
  {
    var results := ClauseResults(ps, clauses);
    KeepDistinctCharacterisation(Flatten(results), AnyPlacement);
    FlattenMembership(results);
    forall i | 0 <= i < |clauses| { ComposeIsSubset(ps, clauses[i]); }
  }

  /** With one single-heuristic clause the union is that heuristic's own
      result (which is already duplicate-free unless it is ALL). */
  lemma SingleClausePreference(ps: seq<Placement>, h: ModuleSelection)
    requires h != AllAvailable
    ensures Preferences(ps, [[h]]) == Apply(h, ps)
  {
    var r := Apply(h, ps);
    assert Compose(ps, [h]) == r by {
      assert [h][..0] == [];
    }
    assert ClauseResults(ps, [[h]]) == [r];
    assert Flatten([r]) == r by { assert [r][..0] == []; }
    ApplyDistinct(h, ps);
    KeepDistinctOfDistinct(r);
  }

  lemma ApplyDistinct(h: ModuleSelection, ps: seq<Placement>)
    requires h != AllAvailable
    ensures NoDuplicates(Apply(h, ps))
  {
    match h
    case FirstAvailable => KeepDistinctCharacterisation(ps, StartIs(Least(MAXSIZE, Starts(ps))));
    case LastAvailable => KeepDistinctCharacterisation(ps, StartIs(Greatest(0, Starts(ps))));
    case Shortest => KeepDistinctCharacterisation(ps, LengthIs(Least(MAXSIZE, Lengths(ps))));
    case Longest => KeepDistinctCharacterisation(ps, LengthIs(Greatest(0, Lengths(ps))));
  }

  lemma {:induction false} KeepDistinctOfDistinct(r: seq<Placement>)
    requires NoDuplicates(r)
    ensures KeepDistinct(r, AnyPlacement) == r
  {
    if |r| > 0 {
      var r' := r[..|r| - 1];
      assert forall i, j :: 0 <= i < j < |r'| ==> r'[i] == r[i] && r'[j] == r[j];
      KeepDistinctOfDistinct(r');
      assert r[|r| - 1] !in r' by {
        forall i | 0 <= i < |r'|
          ensures r'[i] != r[|r| - 1]
        {
          assert r'[i] == r[i];
        }
      }
      assert r == r' + [r[|r| - 1]];
    }
  }
}
