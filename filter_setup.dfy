/** The filter module setup (filter_setup.cpp): the capacity a filter
    needs, the parameter blocks it reads, the comparison records, the
    chunk/position addressing of reference values, and the sequence of
    register writes a setup issues, kept as a trace of calls on the
    filter interface. */
module FilterSetup {
  import opened Wrappers
  import opened CoreTypes

  // The parameter layout: a block starts with {chunk id, data position,
  // comparison count} and is followed by four vectors per comparison
  // (kNumberOfParameterVectors, written 4 below): compare function,
  // reference values, literal types, DNF clause ids.
  const CHUNK_ID_INDEX := 0
  const DATA_POSITION_INDEX := 1
  const COMPARISON_COUNT_INDEX := 2
  const COMPARE_FUNCTION_OFFSET := 1
  const REFERENCE_VALUES_OFFSET := 2
  const LITERAL_TYPE_OFFSET := 3
  const DNF_CLAUSE_IDS_OFFSET := 4

  const DATAPATH_WIDTH := 16
  const PASSTHROUGH_STREAM_ID := 15
  /** The positive literal type. */
  const LITERAL_POSITIVE := 1

  const NO_FILTER_PARAMETERS := "No filter parameters given!"
  const NO_PARAMETERS := "No parameters given!"
  const COMPOSED_FILTER := "Don't support composed filters currently!"
  const UNKNOWN_SIZE := "Unkown filter size!"
  const NO_DNF_IDS := "No DNF IDs given!"
  const INCORRECT_COMPARISON := "Incorrect comparison data given!"

  // ---------------------------------------------------------------------
  // Parameter blocks and GetCapacityRequirement

  /** Where SetAllComparisons reads the block after the one at `b`: its
      comparison loop does not run for a negative count. */
  function NextBlock(count: int, b: int): int {
    b + 1 + (if count > 0 then count else 0) * 4
  }

  /** Where GetCapacityRequirement reads the block after the one at `b`:
      the signed sum `counter += 1 + count * 4`, a step backwards for a
      negative count. */
  function CapacityStep(count: int, b: int): int {
    b + 1 + count * 4
  }

  /** The loop test `counter < size()`: the signed counter is converted to
      the unsigned size type, so a negative counter ends the loop just as
      one at or past the end does. */
  predicate InWalk(params: seq<seq<int>>, b: int) {
    0 <= b < |params|
  }

  /** The outcome the model gives a walk that comes back to a block it
      has read: the source's loop then never ends. */
  const NON_TERMINATING := "Non-terminating"

  /** A block whose comparison count is readable and whose clause vectors
      exist. */
  predicate BlockOk(params: seq<seq<int>>, b: int) {
    0 <= b < |params| && |params[b]| > COMPARISON_COUNT_INDEX &&
    (params[b][COMPARISON_COUNT_INDEX] > 0 ==> b + params[b][COMPARISON_COUNT_INDEX] * 4 < |params|)
  }

  /** The block starts GetCapacityRequirement walks through from `b`,
      reading at most `fuel` blocks. */
  function Walk(params: seq<seq<int>>, b: int, fuel: nat): (r: Result<seq<nat>>)
    ensures r.Success? ==> forall i :: 0 <= i < |r.value| ==> BlockOk(params, r.value[i])
    ensures r.Failure? ==> r.error == "out_of_range" || r.error == NON_TERMINATING
    decreases fuel
  {
    if !InWalk(params, b) then Success([])
    else if fuel == 0 then Failure(NON_TERMINATING)
    else if |params[b]| <= COMPARISON_COUNT_INDEX then Failure("out_of_range")
    else
      var count := params[b][COMPARISON_COUNT_INDEX];
      if count > 0 && b + count * 4 >= |params| then Failure("out_of_range")
      else
        match Walk(params, CapacityStep(count, b), fuel - 1)
        case Failure(e) => Failure(e)
        case Success(rest) => Success([b] + rest)
  }

  /** The comparison counts of the blocks. */
  function Counts(params: seq<seq<int>>, starts: seq<nat>): seq<int>
    requires forall i :: 0 <= i < |starts| ==> BlockOk(params, starts[i])
  {
    if |starts| == 0 then []
    else
      assert BlockOk(params, starts[|starts| - 1]);
      Counts(params, starts[..|starts| - 1]) + [params[starts[|starts| - 1]][COMPARISON_COUNT_INDEX]]
  }

  /** The DNF clause ids of the first `n` comparisons of the block at `b`. */
  function BlockClauseIds(params: seq<seq<int>>, b: nat, n: nat): seq<int>
    requires BlockOk(params, b) && n <= ComparisonsIn(params[b][COMPARISON_COUNT_INDEX])
  {
    if n == 0 then []
    else BlockClauseIds(params, b, n - 1) + params[ClauseVector(b, n - 1)]
  }

  /** The index of the DNF clause id vector of comparison `i` of the block
      at `b`. */
  function ClauseVector(b: int, i: int): int {
    b + i * 4 + DNF_CLAUSE_IDS_OFFSET
  }

  /** The DNF clause ids of every comparison of the blocks. */
  function ClauseIds(params: seq<seq<int>>, starts: seq<nat>): seq<int>
    requires forall i :: 0 <= i < |starts| ==> BlockOk(params, starts[i])
  {
    if |starts| == 0 then []
    else
      var b := starts[|starts| - 1];
      assert BlockOk(params, b);
      ClauseIds(params, starts[..|starts| - 1]) + BlockClauseIds(params, b, ComparisonsIn(params[b][COMPARISON_COUNT_INDEX]))
  }

  /** The largest element, or 0 when none is larger. */
  function MaxOrZero(s: seq<int>): (r: int)
    ensures r >= 0 && forall i :: 0 <= i < |s| ==> s[i] <= r
    ensures r == 0 || r in s
  {
    if |s| == 0 then 0
    else
      var m := MaxOrZero(s[..|s| - 1]);
      assert forall i :: 0 <= i < |s| - 1 ==> s[i] == s[..|s| - 1][i];
      if s[|s| - 1] > m then s[|s| - 1] else m
  }

  lemma {:induction false} MaxOrZeroAppend(s: seq<int>, t: seq<int>)
    ensures MaxOrZero(s + t) == if MaxOrZero(t) > MaxOrZero(s) then MaxOrZero(t) else MaxOrZero(s)
    decreases |t|
  {
    if |t| == 0 {
      assert s + t == s;
    } else {
      var t' := t[..|t| - 1];
      assert (s + t)[..|s + t| - 1] == s + t';
      MaxOrZeroAppend(s, t');
    }
  }

  /** The capacity a filter needs: one more than the largest DNF clause id
      of any comparison, and the largest comparison count of any block.
      The walk reads at most as many blocks as there are parameter
      vectors; WalkOutcome shows that no longer walk ends. */
  function CapacityRequirement(params: seq<seq<int>>): (r: Result<seq<int>>)
    ensures |params| == 0 ==> r == Failure(NO_FILTER_PARAMETERS)
    ensures r.Success? ==> |r.value| == 2 && r.value[0] >= 1 && r.value[1] >= 0
    ensures r.Failure? ==> r.error in {NO_FILTER_PARAMETERS, "out_of_range", NON_TERMINATING}
  {
    if |params| == 0 then Failure(NO_FILTER_PARAMETERS)
    else
      match Walk(params, 0, |params|)
      case Failure(e) => Failure(e)
      case Success(starts) =>
        Success([MaxOrZero(ClauseIds(params, starts)) + 1, MaxOrZero(Counts(params, starts))])
  }

  /** `done` followed by the rest of a walk. */
  function PrefixedBy(done: seq<nat>, rest: Result<seq<nat>>): Result<seq<nat>> {
    match rest
    case Failure(e) => Failure(e)
    case Success(s) => Success(done + s)
  }

  /** The state of GetCapacityRequirement's loop: the blocks read so far,
      the rest of the walk still ahead, and the two maxima of the blocks
      read. */
  ghost predicate Scanned(params: seq<seq<int>>, whole: Result<seq<nat>>, starts: seq<nat>, counter: int, fuel: nat,
                          maxDnfClauses: int, maxComparisons: int) {
    (forall i :: 0 <= i < |starts| ==> BlockOk(params, starts[i])) &&
    whole == PrefixedBy(starts, Walk(params, counter, fuel)) &&
    maxDnfClauses == MaxOrZero(ClauseIds(params, starts)) &&
    maxComparisons == MaxOrZero(Counts(params, starts))
  }

  /** GetCapacityRequirement: walks the blocks, keeping the largest
      comparison count and the largest clause id. */
  method GetCapacityRequirement(params: seq<seq<int>>) returns (r: Result<seq<int>>)
    ensures r == CapacityRequirement(params)
  {
    if |params| == 0 {
      return Failure(NO_FILTER_PARAMETERS);
    }
    var maxDnfClauses := 0;
    var maxComparisons := 0;
    var counter: int := 0;
    var fuel: nat := |params|;
    ghost var starts: seq<nat> := [];
    ghost var whole := Walk(params, 0, fuel);
    assert PrefixedBy([], whole) == whole by {
      if whole.Success? {
        assert [] + whole.value == whole.value;
      }
    }
    while 0 <= counter < |params|
      invariant Scanned(params, whole, starts, counter, fuel, maxDnfClauses, maxComparisons)
      decreases fuel
    {
      ScanOutcome(params, whole, starts, counter, fuel, maxDnfClauses, maxComparisons);
      if fuel == 0 {
        return Failure(NON_TERMINATING);
      }
      if |params[counter]| <= COMPARISON_COUNT_INDEX {
        return Failure("out_of_range");
      }
      var count := params[counter][COMPARISON_COUNT_INDEX];
      var comparisons := if count > maxComparisons then count else maxComparisons;
      if count > 0 && counter + count * 4 >= |params| {
        return Failure("out_of_range");
      }
      var blockMax := BlockMaxClauseId(params, counter);
      var clauses := if blockMax > maxDnfClauses then blockMax else maxDnfClauses;
      ghost var starts' := starts + [counter];
      var counter' := CapacityStep(count, counter);
      ScanStep(params, whole, starts, counter, fuel, maxDnfClauses, maxComparisons, blockMax,
               starts', counter', clauses, comparisons);
      starts, counter, fuel := starts', counter', fuel - 1;
      maxDnfClauses, maxComparisons := clauses, comparisons;
    }
    ScanOutcome(params, whole, starts, counter, fuel, maxDnfClauses, maxComparisons);
    r := Success([maxDnfClauses + 1, maxComparisons]);
  }

  /** What GetCapacityRequirement returns from a state of its loop. */
  lemma ScanOutcome(params: seq<seq<int>>, whole: Result<seq<nat>>, starts: seq<nat>, counter: int, fuel: nat,
                    maxDnfClauses: int, maxComparisons: int)
    requires |params| > 0 && whole == Walk(params, 0, |params|)
    requires Scanned(params, whole, starts, counter, fuel, maxDnfClauses, maxComparisons)
    ensures !InWalk(params, counter) ==> CapacityRequirement(params) == Success([maxDnfClauses + 1, maxComparisons])
    ensures InWalk(params, counter) && fuel == 0 ==> CapacityRequirement(params) == Failure(NON_TERMINATING)
    ensures InWalk(params, counter) && fuel > 0 && |params[counter]| <= COMPARISON_COUNT_INDEX ==>
      CapacityRequirement(params) == Failure("out_of_range")
    ensures (InWalk(params, counter) && fuel > 0 && |params[counter]| > COMPARISON_COUNT_INDEX &&
             params[counter][COMPARISON_COUNT_INDEX] > 0 &&
             counter + params[counter][COMPARISON_COUNT_INDEX] * 4 >= |params|) ==>
      CapacityRequirement(params) == Failure("out_of_range")
  {
    if !InWalk(params, counter) {
      assert starts + [] == starts;
    }
  }

  /** One block read by GetCapacityRequirement's loop. */
  lemma ScanStep(params: seq<seq<int>>, whole: Result<seq<nat>>, starts: seq<nat>, counter: nat, fuel: nat,
                 maxDnfClauses: int, maxComparisons: int, blockMax: int,
                 starts': seq<nat>, counter': int, clauses: int, comparisons: int)
    requires Scanned(params, whole, starts, counter, fuel, maxDnfClauses, maxComparisons)
    requires BlockOk(params, counter) && fuel > 0
    requires blockMax == MaxOrZero(BlockClauseIds(params, counter, ComparisonsIn(params[counter][COMPARISON_COUNT_INDEX])))
    requires var count := params[counter][COMPARISON_COUNT_INDEX];
      starts' == starts + [counter] && counter' == CapacityStep(count, counter) &&
      clauses == (if blockMax > maxDnfClauses then blockMax else maxDnfClauses) &&
      comparisons == (if count > maxComparisons then count else maxComparisons)
    ensures Scanned(params, whole, starts', counter', fuel - 1, clauses, comparisons)
  {
    WalkStep(params, starts, counter, fuel);
    ClauseMaxStep(params, starts, counter, maxDnfClauses, blockMax);
    CountMaxStep(params, starts, counter, maxComparisons);
  }

  /** Reading the block at `b` raises the largest clause id to the block's
      largest when that is larger. */
  lemma ClauseMaxStep(params: seq<seq<int>>, starts: seq<nat>, b: nat, maxDnfClauses: int, blockMax: int)
    requires (forall i :: 0 <= i < |starts| ==> BlockOk(params, starts[i])) && BlockOk(params, b)
    requires maxDnfClauses == MaxOrZero(ClauseIds(params, starts))
    requires blockMax == MaxOrZero(BlockClauseIds(params, b, ComparisonsIn(params[b][COMPARISON_COUNT_INDEX])))
    ensures MaxOrZero(ClauseIds(params, starts + [b])) == if blockMax > maxDnfClauses then blockMax else maxDnfClauses
  {
    var extended := starts + [b];
    assert extended[..|extended| - 1] == starts;
    MaxOrZeroAppend(ClauseIds(params, starts), BlockClauseIds(params, b, ComparisonsIn(params[b][COMPARISON_COUNT_INDEX])));
  }

  /** Reading the block at `b` raises the largest comparison count to the
      block's count when that is larger. */
  lemma CountMaxStep(params: seq<seq<int>>, starts: seq<nat>, b: nat, maxComparisons: int)
    requires (forall i :: 0 <= i < |starts| ==> BlockOk(params, starts[i])) && BlockOk(params, b)
    requires maxComparisons == MaxOrZero(Counts(params, starts))
    ensures var count := params[b][COMPARISON_COUNT_INDEX];
      MaxOrZero(Counts(params, starts + [b])) == if count > maxComparisons then count else maxComparisons
  {
    var count := params[b][COMPARISON_COUNT_INDEX];
    var extended := starts + [b];
    assert extended[..|extended| - 1] == starts;
    MaxOrZeroAppend(Counts(params, starts), [count]);
    assert MaxOrZero([count]) == if count > 0 then count else 0 by {
      assert [count][..0] == [];
    }
  }


  lemma WalkStep(params: seq<seq<int>>, starts: seq<nat>, b: nat, fuel: nat)
    requires BlockOk(params, b) && fuel > 0
    ensures PrefixedBy(starts, Walk(params, b, fuel)) ==
      PrefixedBy(starts + [b], Walk(params, CapacityStep(params[b][COMPARISON_COUNT_INDEX], b), fuel - 1))
  {
    var rest := Walk(params, CapacityStep(params[b][COMPARISON_COUNT_INDEX], b), fuel - 1);
    if rest.Success? {
      assert starts + ([b] + rest.value) == starts + [b] + rest.value;
    }
  }

  /** The loop over one clause id vector: the running maximum `m0`
      raised to the largest id when that is larger. */
  method FoldMax(ids: seq<int>, m0: int) returns (m: int)
    requires m0 >= 0
    ensures m == if MaxOrZero(ids) > m0 then MaxOrZero(ids) else m0
  {
    m := m0;
    assert ids[..0] == [];
    for j := 0 to |ids|
      invariant m == if MaxOrZero(ids[..j]) > m0 then MaxOrZero(ids[..j]) else m0
    {
      assert ids[..j + 1][..j] == ids[..j];
      if ids[j] > m {
        m := ids[j];
      }
    }
    assert ids[..|ids|] == ids;
  }

  /** The inner loops of one block: the largest clause id of its
      comparisons, 0 when none is larger; none for a negative count. */
  method BlockMaxClauseId(params: seq<seq<int>>, b: nat) returns (m: int)
    requires BlockOk(params, b)
    ensures m == MaxOrZero(BlockClauseIds(params, b, ComparisonsIn(params[b][COMPARISON_COUNT_INDEX])))
  {
    m := 0;
    var n := ComparisonsIn(params[b][COMPARISON_COUNT_INDEX]);
    for i := 0 to n
      invariant m == MaxOrZero(BlockClauseIds(params, b, i))
    {
      ClauseVectorStep(params, b, i);
      var ids := params[ClauseVector(b, i)];
      m := FoldMax(ids, m);
      MaxOrZeroAppend(BlockClauseIds(params, b, i), ids);
    }
  }

  /** Comparison `i` of a readable block has its clause id vector inside
      the parameters, and it extends the block's clause ids. */
  lemma ClauseVectorStep(params: seq<seq<int>>, b: nat, i: nat)
    requires BlockOk(params, b) && i < ComparisonsIn(params[b][COMPARISON_COUNT_INDEX])
    ensures ClauseVector(b, i) < |params|
    ensures BlockClauseIds(params, b, i + 1) == BlockClauseIds(params, b, i) + params[ClauseVector(b, i)]
  {
  }

  /** Consecutive blocks are `1 + count * 4` apart, the first is at `b`,
      and a walk that succeeds ends because the step after its last block
      leaves the parameters, past the end or below 0. */
  lemma {:induction false} WalkSteps(params: seq<seq<int>>, b: int, fuel: nat)
    requires Walk(params, b, fuel).Success?
    ensures var s := Walk(params, b, fuel).value;
      (|s| > 0 ==>
        s[0] == b && !InWalk(params, CapacityStep(params[s[|s| - 1]][COMPARISON_COUNT_INDEX], s[|s| - 1]))) &&
      (|s| == 0 ==> !InWalk(params, b)) &&
      forall i :: 0 <= i < |s| - 1 ==> s[i + 1] == CapacityStep(params[s[i]][COMPARISON_COUNT_INDEX], s[i])
    decreases fuel
  {
    if InWalk(params, b) {
      var next := CapacityStep(params[b][COMPARISON_COUNT_INDEX], b);
      WalkSteps(params, next, fuel - 1);
      var s := Walk(params, b, fuel).value;
      var rest := Walk(params, next, fuel - 1).value;
      assert s == [b] + rest;
    }
  }

  // ---------------------------------------------------------------------
  // The walk ends within as many blocks as there are vectors, or never

  /** Where the walk from `b` is after `n` blocks; it stays put at a block
      it cannot read. */
  function Position(params: seq<seq<int>>, b: int, n: nat): int
    decreases n
  {
    if n == 0 || !BlockOk(params, b) then b
    else Position(params, CapacityStep(params[b][COMPARISON_COUNT_INDEX], b), n - 1)
  }

  lemma {:induction false} PositionAdd(params: seq<seq<int>>, b: int, i: nat, k: nat)
    ensures Position(params, b, i + k) == Position(params, Position(params, b, i), k)
    decreases i
  {
    if i > 0 && BlockOk(params, b) {
      PositionAdd(params, CapacityStep(params[b][COMPARISON_COUNT_INDEX], b), i - 1, k);
    }
  }

  /** A walk that runs out of fuel has read a block at each of its steps
      and is still inside the parameters. */
  lemma {:induction false} LoopingWalkReads(params: seq<seq<int>>, b: int, fuel: nat)
    requires Walk(params, b, fuel) == Failure(NON_TERMINATING)
    ensures forall k :: 0 <= k < fuel ==> BlockOk(params, Position(params, b, k))
    ensures InWalk(params, Position(params, b, fuel))
    decreases fuel
  {
    if fuel > 0 {
      var next := CapacityStep(params[b][COMPARISON_COUNT_INDEX], b);
      LoopingWalkReads(params, next, fuel - 1);
      forall k | 0 < k <= fuel
        ensures Position(params, b, k) == Position(params, next, k - 1)
      {
      }
    }
  }

  /** A walk whose first `m` blocks can be read runs out of fuel when the
      walk from its `m`-th block does. */
  lemma {:induction false} LoopingWalkFrom(params: seq<seq<int>>, b: int, fuel: nat, m: nat)
    requires m <= fuel && forall k :: 0 <= k < m ==> BlockOk(params, Position(params, b, k))
    requires Walk(params, Position(params, b, m), fuel - m) == Failure(NON_TERMINATING)
    ensures Walk(params, b, fuel) == Failure(NON_TERMINATING)
    decreases m
  {
    if m > 0 {
      assert BlockOk(params, Position(params, b, 0));
      var next := CapacityStep(params[b][COMPARISON_COUNT_INDEX], b);
      forall k | 0 <= k < m - 1
        ensures BlockOk(params, Position(params, next, k))
      {
        assert Position(params, b, k + 1) == Position(params, next, k);
      }
      assert Position(params, b, m) == Position(params, next, m - 1);
      LoopingWalkFrom(params, next, fuel - 1, m - 1);
    }
  }

  /** A walk that comes back to `c` after `d` readable blocks never ends. */
  lemma {:induction false} CycleLoops(params: seq<seq<int>>, c: int, d: nat, fuel: nat)
    requires d > 0 && Position(params, c, d) == c
    requires forall k :: 0 <= k < d ==> BlockOk(params, Position(params, c, k))
    ensures Walk(params, c, fuel) == Failure(NON_TERMINATING)
    decreases fuel
  {
    if fuel < d {
      assert BlockOk(params, Position(params, c, fuel));
      LoopingWalkFrom(params, c, fuel, fuel);
    } else {
      CycleLoops(params, c, d, fuel - d);
      LoopingWalkFrom(params, c, fuel, d);
    }
  }

  // Proof helpers for the pigeonhole argument below; they state nothing
  // about the filter.

  /** The elements of a sequence as a set. */
  ghost function Elements(s: seq<int>): set<int> {
    set x | x in s
  }

  /** The integers from 0 up to `n`. */
  ghost function Below(n: nat): (r: set<int>)
    ensures forall x :: x in r <==> 0 <= x < n
    ensures |r| == n
  {
    if n == 0 then {} else Below(n - 1) + {n - 1}
  }

  lemma {:induction false} DistinctCard(s: seq<int>)
    requires forall i, j :: 0 <= i < j < |s| ==> s[i] != s[j]
    ensures |Elements(s)| == |s|
  {
    if |s| > 0 {
      var t := s[..|s| - 1];
      DistinctCard(t);
      assert Elements(s) == Elements(t) + {s[|s| - 1]};
    }
  }

  lemma SubsetCard(a: set<int>, b: set<int>)
    requires a <= b
    ensures |a| <= |b|
  {
    assert b == a + (b - a);
    assert a * (b - a) == {};
  }

  /** The pigeonhole principle: more positions than places repeat one. */
  lemma Pigeonhole(s: seq<int>, n: nat)
    requires |s| > n && forall i :: 0 <= i < |s| ==> 0 <= s[i] < n
    ensures exists i, j :: 0 <= i < j < |s| && s[i] == s[j]
  {
    if forall i, j :: 0 <= i < j < |s| ==> s[i] != s[j] {
      DistinctCard(s);
      SubsetCard(Elements(s), Below(n));
    }
  }

  /** A walk that reads as many blocks as there are vectors without ending
      has come back to a block, so no fuel makes it end. */
  lemma LongWalkLoops(params: seq<seq<int>>, b: int, fuel: nat)
    requires Walk(params, b, |params|) == Failure(NON_TERMINATING)
    ensures Walk(params, b, fuel) == Failure(NON_TERMINATING)
  {
    var n := |params|;
    LoopingWalkReads(params, b, n);
    var ps := seq(n + 1, k requires 0 <= k <= n => Position(params, b, k));
    Pigeonhole(ps, n);
    var i, j :| 0 <= i < j < |ps| && ps[i] == ps[j];
    var c := Position(params, b, i);
    PositionAdd(params, b, i, j - i);
    forall k | 0 <= k < j - i
      ensures BlockOk(params, Position(params, c, k))
    {
      PositionAdd(params, b, i, k);
    }
    if fuel < i {
      assert BlockOk(params, Position(params, b, fuel));
      LoopingWalkFrom(params, b, fuel, fuel);
    } else {
      CycleLoops(params, c, j - i, fuel - i);
      LoopingWalkFrom(params, b, fuel, i);
    }
  }

  /** More fuel does not change a walk that ended. */
  lemma {:induction false} WalkFuelMono(params: seq<seq<int>>, b: int, f: nat, g: nat)
    requires f <= g && Walk(params, b, f) != Failure(NON_TERMINATING)
    ensures Walk(params, b, g) == Walk(params, b, f)
    decreases f
  {
    if InWalk(params, b) && |params[b]| > COMPARISON_COUNT_INDEX {
      var count := params[b][COMPARISON_COUNT_INDEX];
      if !(count > 0 && b + count * 4 >= |params|) {
        WalkFuelMono(params, CapacityStep(count, b), f - 1, g - 1);
      }
    }
  }

  /** The bound of the walk is exact: with as many blocks as there are
      vectors the walk is NON_TERMINATING exactly when it is so with every
      fuel, and otherwise any more fuel gives the same outcome. */
  lemma WalkOutcome(params: seq<seq<int>>, b: int)
    ensures Walk(params, b, |params|) == Failure(NON_TERMINATING) <==>
      forall fuel: nat :: Walk(params, b, fuel) == Failure(NON_TERMINATING)
    ensures Walk(params, b, |params|) != Failure(NON_TERMINATING) ==>
      forall fuel: nat :: fuel >= |params| ==> Walk(params, b, fuel) == Walk(params, b, |params|)
  {
    if Walk(params, b, |params|) == Failure(NON_TERMINATING) {
      forall fuel: nat
        ensures Walk(params, b, fuel) == Failure(NON_TERMINATING)
      {
        LongWalkLoops(params, b, fuel);
      }
    } else {
      forall fuel: nat | fuel >= |params|
        ensures Walk(params, b, fuel) == Walk(params, b, |params|)
      {
        WalkFuelMono(params, b, |params|, fuel);
      }
    }
  }

  /** The filter of the unit tests, {1,14,1},{0},{12000},{1},{0}, needs
      one DNF clause and one comparison unit. */
  lemma CapacityOfTestFilter()
    ensures CapacityRequirement([[1, 14, 1], [0], [12000], [1], [0]]) == Success([1, 1])
  {
    var params := [[1, 14, 1], [0], [12000], [1], [0]];
    assert params[0][COMPARISON_COUNT_INDEX] == 1 && |params| == 5;
    assert CapacityStep(1, 0) == 5;
    assert Walk(params, 5, 4) == Success([]);
    assert [0] + [] == [0];
    assert Walk(params, 0, 5) == Success([0]);
    assert ComparisonsIn(1) == 1;
    assert BlockClauseIds(params, 0, 0) == [];
    assert BlockClauseIds(params, 0, 1) == [0];
    assert ClauseIds(params, [0]) == [0] by {
      assert [0][..0] == [];
    }
    assert Counts(params, [0]) == [1] by {
      assert [0][..0] == [];
    }
    assert MaxOrZero([0]) == 0 by {
      assert [0][..0] == [];
    }
    assert MaxOrZero([1]) == 1 by {
      assert [1][..0] == [];
    }
  }

  /** A negative count steps the counter below 0, which ends the loop:
      {0,0,-1} gives one DNF clause and no comparison unit. */
  lemma NegativeCountEndsWalk()
    ensures CapacityRequirement([[0, 0, -1]]) == Success([1, 0])
  {
    var params := [[0, 0, -1]];
    assert CapacityStep(-1, 0) == -3;
    assert Walk(params, -3, 0) == Success([]);
    assert [0] + [] == [0];
    assert Walk(params, 0, 1) == Success([0]);
    assert ComparisonsIn(-1) == 0;
    assert BlockClauseIds(params, 0, 0) == [];
    assert ClauseIds(params, [0]) == [] by {
      assert [0][..0] == [];
    }
    assert Counts(params, [0]) == [-1] by {
      assert [0][..0] == [];
    }
    assert MaxOrZero([-1]) == 0 by {
      assert [-1][..0] == [];
    }
  }

  /** A walk that reads the block at `b` runs out of fuel when the walk
      from the next block does. */
  lemma WalkLoopsThrough(params: seq<seq<int>>, b: int, fuel: nat)
    requires BlockOk(params, b) && fuel > 0
    requires Walk(params, CapacityStep(params[b][COMPARISON_COUNT_INDEX], b), fuel - 1) == Failure(NON_TERMINATING)
    ensures Walk(params, b, fuel) == Failure(NON_TERMINATING)
  {
  }

  /** Three blocks with no comparisons followed by one with a count of -1
      lead back to the first block: from block `b` the walk needs more
      than `4 - b` reads. */
  lemma {:induction false} BackwardStepWalk(params: seq<seq<int>>, b: nat)
    requires |params| == 4 && forall i :: 0 <= i < 4 ==> |params[i]| > COMPARISON_COUNT_INDEX
    requires params[0][COMPARISON_COUNT_INDEX] == params[1][COMPARISON_COUNT_INDEX] == params[2][COMPARISON_COUNT_INDEX] == 0
    requires params[3][COMPARISON_COUNT_INDEX] == -1
    requires b <= 3
    ensures Walk(params, b, 4 - b) == Failure(NON_TERMINATING)
    decreases 3 - b
  {
    if b < 3 {
      BackwardStepWalk(params, b + 1);
      WalkLoopsThrough(params, b, 4 - b);
    } else {
      assert Walk(params, 0, 0) == Failure(NON_TERMINATING);
      WalkLoopsThrough(params, 3, 1);
    }
  }

  /** Three empty blocks followed by a count of -1 step back to the first
      block: the source's loop runs for ever, and the model reports it. */
  lemma BackwardStepLoops(params: seq<seq<int>>, fuel: nat)
    requires params == [[0, 0, 0], [0, 0, 0], [0, 0, 0], [0, 0, -1]]
    ensures CapacityRequirement(params) == Failure(NON_TERMINATING)
    ensures Walk(params, 0, fuel) == Failure(NON_TERMINATING)
  {
    BackwardStepWalk(params, 0);
    LongWalkLoops(params, 0, fuel);
  }



  // ---------------------------------------------------------------------
  // Comparison records

  /** A compare function: the value cast from the parameters, or the
      kEqual32Bit filler of unused lanes. */
  datatype CompareFunction = FromParameter(code: int) | Equal32Bit

  datatype FilterComparison = FilterComparison(
    compareFunction: CompareFunction,
    referenceValues: seq<int>,
    literalTypes: seq<int>,
    dnfClauseIds: seq<int>)

  /** A comparison record as its constructor leaves it: one literal type
      per DNF clause id. */
  predicate WellFormed(c: FilterComparison) {
    |c.literalTypes| == |c.dnfClauseIds|
  }

  /** The FilterComparison constructor: without literal types every clause
      gets a positive literal, which needs at least one clause id; given
      literal types must match the clause ids one to one. */
  function NewComparison(compareFunction: int, referenceValues: seq<int>, literalTypes: seq<int>, dnfClauseIds: seq<int>)
    : (r: Result<FilterComparison>)
    ensures r.Failure? <==>
      (|literalTypes| == 0 && |dnfClauseIds| == 0) || (|literalTypes| != 0 && |literalTypes| != |dnfClauseIds|)
    ensures r.Failure? ==> r.error == if |literalTypes| == 0 then NO_DNF_IDS else INCORRECT_COMPARISON
    ensures r.Success? ==>
      WellFormed(r.value) && r.value.compareFunction == FromParameter(compareFunction) &&
      r.value.referenceValues == referenceValues && r.value.dnfClauseIds == dnfClauseIds &&
      (|literalTypes| == 0 ==> forall i :: 0 <= i < |r.value.literalTypes| ==> r.value.literalTypes[i] == LITERAL_POSITIVE) &&
      (|literalTypes| != 0 ==> r.value.literalTypes == literalTypes)
  {
    if |literalTypes| == 0 then
      if |dnfClauseIds| == 0 then Failure(NO_DNF_IDS)
      else Success(FilterComparison(FromParameter(compareFunction), referenceValues,
                                    seq(|dnfClauseIds|, _ => LITERAL_POSITIVE), dnfClauseIds))
    else if |literalTypes| != |dnfClauseIds| then Failure(INCORRECT_COMPARISON)
    else Success(FilterComparison(FromParameter(compareFunction), referenceValues, literalTypes, dnfClauseIds))
  }

  /** The constructor with its loop over the clause ids. */
  method MakeComparison(compareFunction: int, referenceValues: seq<int>, literalTypes: seq<int>, dnfClauseIds: seq<int>)
    returns (r: Result<FilterComparison>)
    ensures r == NewComparison(compareFunction, referenceValues, literalTypes, dnfClauseIds)
  {
    var literals := literalTypes;
    if |literalTypes| == 0 {
      if |dnfClauseIds| == 0 {
        return Failure(NO_DNF_IDS);
      }
      var defaults: seq<int> := [];
      for i := 0 to |dnfClauseIds|
        invariant defaults == seq(i, _ => LITERAL_POSITIVE)
      {
        defaults := defaults + [LITERAL_POSITIVE];
      }
      literals := defaults;
    } else if |literalTypes| != |dnfClauseIds| {
      return Failure(INCORRECT_COMPARISON);
    }
    r := Success(FilterComparison(FromParameter(compareFunction), referenceValues, literals, dnfClauseIds));
  }

  // ---------------------------------------------------------------------
  // Addressing of reference values

  /** Chunk and position of the reference value at index `i` of a
      comparison whose first value is at (`chunk`, `position`): positions
      count down from 15 within a chunk, then continue in the next chunk
      (C++ integer division and remainder). */
  function Address(chunk: int, position: int, i: int): (int, int) {
    (chunk + TruncDiv(15 - position + i, 16), 15 - TruncMod(15 - position + i, 16))
  }

  /** Addresses are consecutive in the order chunk-major, position
      descending: position `p` of chunk `c` is offset `16 * c + (15 - p)`,
      and value `i` lies `i` after the first. */
  lemma AddressOffset(chunk: int, position: int, i: int)
    requires 15 - position + i >= 0
    ensures var (c, p) := Address(chunk, position, i);
      16 * c + (15 - p) == 16 * chunk + (15 - position) + i && 0 <= p <= 15
  {
    TruncAgreesOnNonnegative(15 - position + i, 16);
  }

  /** The first value sits at the given chunk and position. */
  lemma AddressOfFirstValue(chunk: int, position: int)
    requires 0 <= position <= 15
    ensures Address(chunk, position, 0) == (chunk, position)
  {
    TruncAgreesOnNonnegative(15 - position, 16);
  }

  // ---------------------------------------------------------------------
  // The register writes

  /** The sizes of filter with their DNF literal writers. */
  datatype FilterSize = Cmp4Dnf32 | Cmp2Dnf16 | Cmp1Dnf8

  /** A call on the filter interface. */
  datatype FilterWrite =
    | ResetDNFStates
    | SetStreamIDs(inputStream: int, outputStream: int, validOutputStream: int)
    | SetMode(requestOnInvalidIfLast: bool, forwardInvalidRecordFirstChunk: bool, forwardFullInvalidRecords: bool,
              firstModuleInChain: bool, lastModuleInChain: bool)
    | SetCompareReferenceValue(chunk: int, position: int, lane: int, value: int)
    | SetDNFClauseLiteral(clauseId: int, lane: int, chunk: int, position: int, literal: int)
    | SetCompareTypes(chunk: int, position: int, f0: CompareFunction, f1: CompareFunction, f2: CompareFunction,
                      f3: CompareFunction)
    | WriteDNFClauseLiterals(size: FilterSize, datapathWidth: int)

  /** The literal writes of the first `n` clauses of a comparison for one
      reference value. */
  function DnfWrites(c: FilterComparison, lane: int, chunk: int, position: int, n: nat): seq<FilterWrite>
    requires WellFormed(c) && n <= |c.dnfClauseIds|
  {
    if n == 0 then []
    else
      DnfWrites(c, lane, chunk, position, n - 1) +
      [SetDNFClauseLiteral(c.dnfClauseIds[n - 1], lane, chunk, position, c.literalTypes[n - 1])]
  }

  /** The writes of the first `n` reference values of lane `lane`: each
      value, then its clause literals, at the value's address. */
  function ValueWrites(c: FilterComparison, lane: int, chunk: int, position: int, n: nat): seq<FilterWrite>
    requires WellFormed(c) && n <= |c.referenceValues|
  {
    if n == 0 then []
    else
      var (ch, p) := Address(chunk, position, n - 1);
      ValueWrites(c, lane, chunk, position, n - 1) + [SetCompareReferenceValue(ch, p, lane, c.referenceValues[n - 1])] +
      DnfWrites(c, lane, ch, p, |c.dnfClauseIds|)
  }

  /** The writes of the first `n` lanes. */
  function LaneWrites(comparisons: seq<FilterComparison>, chunk: int, position: int, n: nat): seq<FilterWrite>
    requires forall i :: 0 <= i < |comparisons| ==> WellFormed(comparisons[i])
    requires n <= |comparisons|
  {
    if n == 0 then []
    else
      var c := comparisons[n - 1];
      LaneWrites(comparisons, chunk, position, n - 1) + ValueWrites(c, n - 1, chunk, position, |c.referenceValues|)
  }

  /** The compare function of every lane, padded with kEqual32Bit to
      four lanes. */
  function PaddedFunctions(comparisons: seq<FilterComparison>): (r: seq<CompareFunction>)
    ensures |r| == if |comparisons| < 4 then 4 else |comparisons|
    ensures forall i :: 0 <= i < |comparisons| ==> r[i] == comparisons[i].compareFunction
    ensures forall i :: |comparisons| <= i < |r| ==> r[i] == Equal32Bit
  {
    seq(|comparisons|, i requires 0 <= i < |comparisons| => comparisons[i].compareFunction) +
    seq(if |comparisons| < 4 then 4 - |comparisons| else 0, _ => Equal32Bit)
  }

  /** The compare-type writes for the first `n` values of lane 0. */
  function TypeWrites(functions: seq<CompareFunction>, chunk: int, position: int, n: nat): seq<FilterWrite>
    requires |functions| >= 4
  {
    if n == 0 then []
    else
      var (ch, p) := Address(chunk, position, n - 1);
      TypeWrites(functions, chunk, position, n - 1) +
      [SetCompareTypes(ch, p, functions[0], functions[1], functions[2], functions[3])]
  }

  /** SetComparisons: the lanes' writes, then one compare-type write per
      reference value of lane 0; with no comparison, lane 0 does not exist
      and the read is undefined. */
  function ComparisonsTrace(comparisons: seq<FilterComparison>, chunk: int, position: int): Result<seq<FilterWrite>>
    requires forall i :: 0 <= i < |comparisons| ==> WellFormed(comparisons[i])
  {
    if |comparisons| == 0 then Failure("Undefined")
    else Success(LaneWrites(comparisons, chunk, position, |comparisons|) +
                 TypeWrites(PaddedFunctions(comparisons), chunk, position, |comparisons[0].referenceValues|))
  }

  /** The loops over the values and clauses of one lane. */
  method EmitLane(c: FilterComparison, lane: int, chunk: int, position: int) returns (w: seq<FilterWrite>)
    requires WellFormed(c)
    ensures w == ValueWrites(c, lane, chunk, position, |c.referenceValues|)
  {
    w := [];
    for j := 0 to |c.referenceValues|
      invariant w == ValueWrites(c, lane, chunk, position, j)
    {
      var currentChunk := chunk + TruncDiv(15 - position + j, 16);
      var currentPosition := 15 - TruncMod(15 - position + j, 16);
      w := w + [SetCompareReferenceValue(currentChunk, currentPosition, lane, c.referenceValues[j])];
      ghost var before := w;
      for d := 0 to |c.dnfClauseIds|
        invariant w == before + DnfWrites(c, lane, currentChunk, currentPosition, d)
      {
        w := w + [SetDNFClauseLiteral(c.dnfClauseIds[d], lane, currentChunk, currentPosition, c.literalTypes[d])];
      }
    }
  }

  /** The compare functions of the lanes and the filler of the unused
      ones. */
  method PadFunctions(comparisons: seq<FilterComparison>) returns (functions: seq<CompareFunction>)
    ensures functions == PaddedFunctions(comparisons)
  {
    functions := [];
    for lane := 0 to |comparisons|
      invariant functions == seq(lane, i requires 0 <= i < lane => comparisons[i].compareFunction)
    {
      functions := functions + [comparisons[lane].compareFunction];
    }
    ghost var own := functions;
    var leftover := |comparisons|;
    while leftover < 4
      invariant |comparisons| <= leftover <= if |comparisons| < 4 then 4 else |comparisons|
      invariant functions == own + seq(leftover - |comparisons|, _ => Equal32Bit)
    {
      functions := functions + [Equal32Bit];
      leftover := leftover + 1;
    }
  }

  /** The compare-type loop over the values of lane 0. */
  method EmitTypes(functions: seq<CompareFunction>, chunk: int, position: int, n: nat) returns (w: seq<FilterWrite>)
    requires |functions| >= 4
    ensures w == TypeWrites(functions, chunk, position, n)
  {
    w := [];
    for j := 0 to n
      invariant w == TypeWrites(functions, chunk, position, j)
    {
      var currentChunk := chunk + TruncDiv(15 - position + j, 16);
      var currentPosition := 15 - TruncMod(15 - position + j, 16);
      w := w + [SetCompareTypes(currentChunk, currentPosition, functions[0], functions[1], functions[2], functions[3])];
    }
  }

  /** SetComparisons with its loops. */
  method SetComparisons(comparisons: seq<FilterComparison>, chunk: int, position: int) returns (r: Result<seq<FilterWrite>>)
    requires forall i :: 0 <= i < |comparisons| ==> WellFormed(comparisons[i])
    ensures r == ComparisonsTrace(comparisons, chunk, position)
  {
    var w: seq<FilterWrite> := [];
    for lane := 0 to |comparisons|
      invariant w == LaneWrites(comparisons, chunk, position, lane)
    {
      var laneWrites := EmitLane(comparisons[lane], lane, chunk, position);
      w := w + laneWrites;
    }
    var functions := PadFunctions(comparisons);
    if |comparisons| == 0 {
      return Failure("Undefined");
    }
    var types := EmitTypes(functions, chunk, position, |comparisons[0].referenceValues|);
    r := Success(w + types);
  }

  // ---------------------------------------------------------------------
  // SetAllComparisons

  /** The first `n` comparison records of the block at `b`, read from the
      four vectors after it, in order; a missing vector or compare
      function is `at()` out of range. */
  function BlockComparisons(params: seq<seq<int>>, b: nat, n: nat): (r: Result<seq<FilterComparison>>)
    ensures r.Success? ==> |r.value| == n && forall i :: 0 <= i < n ==> WellFormed(r.value[i])
  {
    if n == 0 then Success([])
    else
      match BlockComparisons(params, b, n - 1)
      case Failure(e) => Failure(e)
      case Success(previous) =>
        var v := b + (n - 1) * 4;
        if v + DNF_CLAUSE_IDS_OFFSET >= |params| || |params[v + COMPARE_FUNCTION_OFFSET]| == 0 then Failure("out_of_range")
        else
          match NewComparison(params[v + COMPARE_FUNCTION_OFFSET][0], params[v + REFERENCE_VALUES_OFFSET],
                              params[v + LITERAL_TYPE_OFFSET], params[v + DNF_CLAUSE_IDS_OFFSET])
          case Failure(e) => Failure(e)
          case Success(c) => Success(previous + [c])
  }

  /** How many comparisons a block with this count reads: the loop
      `i < count` does not run for a negative count. */
  function ComparisonsIn(count: int): nat {
    if count > 0 then count else 0
  }

  /** SetAllComparisons from the block at `b`: each block's comparisons
      are built and written, until the walk lands on the end of the
      parameters; a walk that overshoots reads past it. */
  function AllComparisons(params: seq<seq<int>>, b: nat): (r: Result<seq<FilterWrite>>)
    decreases |params| - b
  {
    if b == |params| then Success([])
    else if b > |params| || |params[b]| <= COMPARISON_COUNT_INDEX then Failure("out_of_range")
    else
      var count := params[b][COMPARISON_COUNT_INDEX];
      match BlockComparisons(params, b, ComparisonsIn(count))
      case Failure(e) => Failure(e)
      case Success(comparisons) =>
        match ComparisonsTrace(comparisons, params[b][CHUNK_ID_INDEX], params[b][DATA_POSITION_INDEX])
        case Failure(e) => Failure(e)
        case Success(w) =>
          match AllComparisons(params, NextBlock(count, b))
          case Failure(e) => Failure(e)
          case Success(rest) => Success(w + rest)
  }

  /** The comparison loop of one block. */
  method ReadComparisons(params: seq<seq<int>>, b: nat, n: nat) returns (r: Result<seq<FilterComparison>>)
    ensures r == BlockComparisons(params, b, n)
  {
    var comparisons: seq<FilterComparison> := [];
    var current := b;
    for i := 0 to n
      invariant current == b + i * 4
      invariant BlockComparisons(params, b, i) == Success(comparisons)
    {
      BlockComparisonsNext(params, b, i, comparisons);
      if current + DNF_CLAUSE_IDS_OFFSET >= |params| || |params[current + COMPARE_FUNCTION_OFFSET]| == 0 {
        BlockComparisonsFailure(params, b, i + 1, n);
        return Failure("out_of_range");
      }
      var c := MakeComparison(params[current + COMPARE_FUNCTION_OFFSET][0], params[current + REFERENCE_VALUES_OFFSET],
                              params[current + LITERAL_TYPE_OFFSET], params[current + DNF_CLAUSE_IDS_OFFSET]);
      if c.Failure? {
        BlockComparisonsFailure(params, b, i + 1, n);
        return Failure(c.error);
      }
      comparisons := comparisons + [c.value];
      current := current + 4;
    }
    r := Success(comparisons);
  }

  /** One more comparison record of a block, read at `b + i * 4`. */
  lemma BlockComparisonsNext(params: seq<seq<int>>, b: nat, i: nat, previous: seq<FilterComparison>)
    requires BlockComparisons(params, b, i) == Success(previous)
    ensures var v := b + i * 4;
      BlockComparisons(params, b, i + 1) ==
        if v + DNF_CLAUSE_IDS_OFFSET >= |params| || |params[v + COMPARE_FUNCTION_OFFSET]| == 0 then Failure("out_of_range")
        else
          match NewComparison(params[v + COMPARE_FUNCTION_OFFSET][0], params[v + REFERENCE_VALUES_OFFSET],
                              params[v + LITERAL_TYPE_OFFSET], params[v + DNF_CLAUSE_IDS_OFFSET])
          case Failure(e) => Failure(e)
          case Success(c) => Success(previous + [c])
  {
  }

  lemma {:induction false} BlockComparisonsFailure(params: seq<seq<int>>, b: nat, m: nat, n: nat)
    requires m <= n && BlockComparisons(params, b, m).Failure?
    ensures BlockComparisons(params, b, n) == BlockComparisons(params, b, m)
    decreases n - m
  {
    if m < n {
      BlockComparisonsFailure(params, b, m, n - 1);
    }
  }

  /** SetAllComparisons: the `!=` walk over the blocks. */
  method SetAllComparisons(params: seq<seq<int>>) returns (r: Result<seq<FilterWrite>>)
    ensures r == AllComparisons(params, 0)
  {
    var current: nat := 0;
    var w: seq<FilterWrite> := [];
    assert AllPrefixed([], AllComparisons(params, 0)) == AllComparisons(params, 0) by {
      if AllComparisons(params, 0).Success? {
        assert [] + AllComparisons(params, 0).value == AllComparisons(params, 0).value;
      }
    }
    while current != |params|
      invariant AllComparisons(params, 0) == AllPrefixed(w, AllComparisons(params, current))
      decreases if current <= |params| then |params| - current else 0
    {
      if current > |params| || |params[current]| <= COMPARISON_COUNT_INDEX {
        return Failure("out_of_range");
      }
      var chunk := params[current][CHUNK_ID_INDEX];
      var position := params[current][DATA_POSITION_INDEX];
      var count := params[current][COMPARISON_COUNT_INDEX];
      var comparisons := ReadComparisons(params, current, ComparisonsIn(count));
      if comparisons.Failure? {
        return Failure(comparisons.error);
      }
      var written := SetComparisons(comparisons.value, chunk, position);
      if written.Failure? {
        return Failure(written.error);
      }
      AllPrefixedAppend(w, written.value, AllComparisons(params, NextBlock(count, current)));
      w := w + written.value;
      current := NextBlock(count, current);
    }
    assert w + [] == w;
    r := Success(w);
  }

  /** `done` followed by the rest of the writes. */
  function AllPrefixed(done: seq<FilterWrite>, rest: Result<seq<FilterWrite>>): Result<seq<FilterWrite>> {
    match rest
    case Failure(e) => Failure(e)
    case Success(s) => Success(done + s)
  }

  lemma AllPrefixedAppend(done: seq<FilterWrite>, more: seq<FilterWrite>, rest: Result<seq<FilterWrite>>)
    ensures AllPrefixed(done, AllPrefixed(more, rest)) == AllPrefixed(done + more, rest)
  {
    if rest.Success? {
      assert done + (more + rest.value) == done + more + rest.value;
    }
  }

  // ---------------------------------------------------------------------
  // Module setup

  /** The DNF literal writer a capacity selects. */
  function SizeOf(capacity: seq<int>): (r: Result<FilterSize>)
    ensures r.Success? <==> |capacity| > 0 && (capacity[0] == 32 || capacity[0] == 16 || capacity[0] == 8)
    ensures r.Success? ==>
      (capacity[0] == 32 <==> r.value == Cmp4Dnf32) && (capacity[0] == 16 <==> r.value == Cmp2Dnf16) &&
      (capacity[0] == 8 <==> r.value == Cmp1Dnf8)
    ensures r.Failure? ==> r.error == if |capacity| == 0 then "Undefined" else UNKNOWN_SIZE
  {
    if |capacity| == 0 then Failure("Undefined")
    else if capacity[0] == 32 then Success(Cmp4Dnf32)
    else if capacity[0] == 16 then Success(Cmp2Dnf16)
    else if capacity[0] == 8 then Success(Cmp1Dnf8)
    else Failure(UNKNOWN_SIZE)
  }

  /** The mode writes every setup starts with: a single module with one
      output. */
  function Preamble(inputStream: int, outputStream: int): seq<FilterWrite> {
    [ResetDNFStates, SetStreamIDs(inputStream, outputStream, outputStream), SetMode(true, false, false, true, true)]
  }

  /** SetupFilterModule: parameters are required; the preamble, the
      comparisons, then the writer of the filter's size. */
  function FilterModuleTrace(inputStream: int, outputStream: int, params: seq<seq<int>>, capacity: seq<int>)
    : Result<seq<FilterWrite>>
  {
    if |params| == 0 || |params[0]| == 0 then Failure(NO_PARAMETERS)
    else
      match AllComparisons(params, 0)
      case Failure(e) => Failure(e)
      case Success(w) =>
        match SizeOf(capacity)
        case Failure(e) => Failure(e)
        case Success(size) => Success(Preamble(inputStream, outputStream) + w + [WriteDNFClauseLiterals(size, DATAPATH_WIDTH)])
  }

  /** SetupPassthroughFilter: every stream id 15 and no comparison. */
  function PassthroughTrace(capacity: seq<int>): Result<seq<FilterWrite>> {
    match SizeOf(capacity)
    case Failure(e) => Failure(e)
    case Success(size) =>
      Success(Preamble(PASSTHROUGH_STREAM_ID, PASSTHROUGH_STREAM_ID) + [WriteDNFClauseLiterals(size, DATAPATH_WIDTH)])
  }

  /** SetupModule: the last parameter vector is the capacity, which must
      have two entries; input stream 15 selects the passthrough filter. */
  function ModuleTrace(params: seq<seq<int>>, inputStreams: seq<int>, outputStreams: seq<int>): (r: Result<seq<FilterWrite>>)
    ensures |params| > 0 && |params[|params| - 1]| != 2 ==> r == Failure(COMPOSED_FILTER)
  {
    if |params| == 0 then Failure("Undefined")
    else
      var capacity := params[|params| - 1];
      if |capacity| != 2 then Failure(COMPOSED_FILTER)
      else if |inputStreams| == 0 then Failure("Undefined")
      else if inputStreams[0] != PASSTHROUGH_STREAM_ID then
        if |outputStreams| == 0 then Failure("Undefined")
        else FilterModuleTrace(inputStreams[0], outputStreams[0], params[..|params| - 1], capacity)
      else PassthroughTrace(capacity)
  }

  method SetupFilterModule(inputStream: int, outputStream: int, params: seq<seq<int>>, capacity: seq<int>)
    returns (r: Result<seq<FilterWrite>>)
    ensures r == FilterModuleTrace(inputStream, outputStream, params, capacity)
  {
    if |params| == 0 || |params[0]| == 0 {
      return Failure(NO_PARAMETERS);
    }
    var comparisons := SetAllComparisons(params);
    if comparisons.Failure? {
      return Failure(comparisons.error);
    }
    var size := SizeOf(capacity);
    if size.Failure? {
      return Failure(size.error);
    }
    r := Success(Preamble(inputStream, outputStream) + comparisons.value + [WriteDNFClauseLiterals(size.value, DATAPATH_WIDTH)]);
  }

  method SetupModule(params: seq<seq<int>>, inputStreams: seq<int>, outputStreams: seq<int>) returns (r: Result<seq<FilterWrite>>)
    ensures r == ModuleTrace(params, inputStreams, outputStreams)
  {
    if |params| == 0 {
      return Failure("Undefined");
    }
    var capacity := params[|params| - 1];
    if |capacity| != 2 {
      return Failure(COMPOSED_FILTER);
    }
    var rest := params[..|params| - 1];
    if |inputStreams| == 0 {
      return Failure("Undefined");
    }
    if inputStreams[0] != PASSTHROUGH_STREAM_ID {
      if |outputStreams| == 0 {
        return Failure("Undefined");
      }
      r := SetupFilterModule(inputStreams[0], outputStreams[0], rest, capacity);
    } else {
      r := PassthroughTrace(capacity);
    }
  }

  // ---------------------------------------------------------------------
  // Properties of the traces

  /** The number of DNF literal writer calls in a trace. */
  function WriterCalls(w: seq<FilterWrite>): nat {
    if |w| == 0 then 0 else WriterCalls(w[..|w| - 1]) + (if w[|w| - 1].WriteDNFClauseLiterals? then 1 else 0)
  }

  lemma {:induction false} WriterCallsAppend(a: seq<FilterWrite>, b: seq<FilterWrite>)
    ensures WriterCalls(a + b) == WriterCalls(a) + WriterCalls(b)
    decreases |b|
  {
    if |b| == 0 {
      assert a + b == a;
    } else {
      assert (a + b)[..|a + b| - 1] == a + b[..|b| - 1];
      WriterCallsAppend(a, b[..|b| - 1]);
    }
  }

  lemma WriterCallsSingle(x: FilterWrite)
    ensures WriterCalls([x]) == if x.WriteDNFClauseLiterals? then 1 else 0
  {
    assert [x][..0] == [];
  }

  lemma {:induction false} NoWriterInDnf(c: FilterComparison, lane: int, chunk: int, position: int, n: nat)
    requires WellFormed(c) && n <= |c.dnfClauseIds|
    ensures WriterCalls(DnfWrites(c, lane, chunk, position, n)) == 0
  {
    if n > 0 {
      NoWriterInDnf(c, lane, chunk, position, n - 1);
      WriterCallsAppend(DnfWrites(c, lane, chunk, position, n - 1),
                        [SetDNFClauseLiteral(c.dnfClauseIds[n - 1], lane, chunk, position, c.literalTypes[n - 1])]);
    }
  }

  lemma {:induction false} NoWriterInValues(c: FilterComparison, lane: int, chunk: int, position: int, n: nat)
    requires WellFormed(c) && n <= |c.referenceValues|
    ensures WriterCalls(ValueWrites(c, lane, chunk, position, n)) == 0
  {
    if n > 0 {
      var (ch, p) := Address(chunk, position, n - 1);
      NoWriterInValues(c, lane, chunk, position, n - 1);
      NoWriterInDnf(c, lane, ch, p, |c.dnfClauseIds|);
      var before := ValueWrites(c, lane, chunk, position, n - 1);
      var value := [SetCompareReferenceValue(ch, p, lane, c.referenceValues[n - 1])];
      WriterCallsAppend(before, value);
      WriterCallsAppend(before + value, DnfWrites(c, lane, ch, p, |c.dnfClauseIds|));
    }
  }

  lemma {:induction false} NoWriterInLanes(comparisons: seq<FilterComparison>, chunk: int, position: int, n: nat)
    requires forall i :: 0 <= i < |comparisons| ==> WellFormed(comparisons[i])
    requires n <= |comparisons|
    ensures WriterCalls(LaneWrites(comparisons, chunk, position, n)) == 0
  {
    if n > 0 {
      var c := comparisons[n - 1];
      NoWriterInLanes(comparisons, chunk, position, n - 1);
      NoWriterInValues(c, n - 1, chunk, position, |c.referenceValues|);
      WriterCallsAppend(LaneWrites(comparisons, chunk, position, n - 1), ValueWrites(c, n - 1, chunk, position, |c.referenceValues|));
    }
  }

  lemma {:induction false} NoWriterInTypes(functions: seq<CompareFunction>, chunk: int, position: int, n: nat)
    requires |functions| >= 4
    ensures WriterCalls(TypeWrites(functions, chunk, position, n)) == 0
  {
    if n > 0 {
      var (ch, p) := Address(chunk, position, n - 1);
      NoWriterInTypes(functions, chunk, position, n - 1);
      WriterCallsAppend(TypeWrites(functions, chunk, position, n - 1),
                        [SetCompareTypes(ch, p, functions[0], functions[1], functions[2], functions[3])]);
    }
  }

  /** The comparisons of a setup call no DNF literal writer. */
  lemma {:induction false} NoWriterInComparisons(params: seq<seq<int>>, b: nat)
    requires AllComparisons(params, b).Success?
    ensures WriterCalls(AllComparisons(params, b).value) == 0
    decreases |params| - b
  {
    if b != |params| {
      var count := params[b][COMPARISON_COUNT_INDEX];
      var comparisons := BlockComparisons(params, b, ComparisonsIn(count)).value;
      var chunk := params[b][CHUNK_ID_INDEX];
      var position := params[b][DATA_POSITION_INDEX];
      NoWriterInLanes(comparisons, chunk, position, |comparisons|);
      NoWriterInTypes(PaddedFunctions(comparisons), chunk, position, |comparisons[0].referenceValues|);
      WriterCallsAppend(LaneWrites(comparisons, chunk, position, |comparisons|),
                        TypeWrites(PaddedFunctions(comparisons), chunk, position, |comparisons[0].referenceValues|));
      NoWriterInComparisons(params, NextBlock(count, b));
      WriterCallsAppend(ComparisonsTrace(comparisons, chunk, position).value, AllComparisons(params, NextBlock(count, b)).value);
    }
  }

  /** A filter setup calls exactly one DNF literal writer, the one of the
      size at the front of the capacity, and calls it last. */
  lemma FilterSetupCallsOneWriter(inputStream: int, outputStream: int, params: seq<seq<int>>, capacity: seq<int>)
    requires FilterModuleTrace(inputStream, outputStream, params, capacity).Success?
    ensures var w := FilterModuleTrace(inputStream, outputStream, params, capacity).value;
      WriterCalls(w) == 1 && w[|w| - 1] == WriteDNFClauseLiterals(SizeOf(capacity).value, DATAPATH_WIDTH) &&
      w[..3] == Preamble(inputStream, outputStream)
  {
    var comparisons := AllComparisons(params, 0).value;
    NoWriterInComparisons(params, 0);
    var pre := Preamble(inputStream, outputStream);
    var last := [WriteDNFClauseLiterals(SizeOf(capacity).value, DATAPATH_WIDTH)];
    assert WriterCalls(pre) == 0 by {
      var a, b, c := [pre[0]], [pre[1]], [pre[2]];
      assert pre == a + b + c;
      WriterCallsSingle(pre[0]);
      WriterCallsSingle(pre[1]);
      WriterCallsSingle(pre[2]);
      WriterCallsAppend(a, b);
      WriterCallsAppend(a + b, c);
    }
    WriterCallsAppend(pre, comparisons);
    WriterCallsAppend(pre + comparisons, last);
    WriterCallsSingle(last[0]);
  }

  /** Every reference value of every lane is written at its address. */
  lemma {:induction false} ReferenceValueWritten(comparisons: seq<FilterComparison>, chunk: int, position: int,
                                                 n: nat, lane: int, j: int)
    requires forall i :: 0 <= i < |comparisons| ==> WellFormed(comparisons[i])
    requires n <= |comparisons| && 0 <= lane < n && 0 <= j < |comparisons[lane].referenceValues|
    ensures var (ch, p) := Address(chunk, position, j);
      SetCompareReferenceValue(ch, p, lane, comparisons[lane].referenceValues[j]) in LaneWrites(comparisons, chunk, position, n)
  {
    var (ch, p) := Address(chunk, position, j);
    var w := SetCompareReferenceValue(ch, p, lane, comparisons[lane].referenceValues[j]);
    var last := comparisons[n - 1];
    var before := LaneWrites(comparisons, chunk, position, n - 1);
    var own := ValueWrites(last, n - 1, chunk, position, |last.referenceValues|);
    assert LaneWrites(comparisons, chunk, position, n) == before + own;
    if lane < n - 1 {
      ReferenceValueWritten(comparisons, chunk, position, n - 1, lane, j);
      assert w in before;
    } else {
      ValueWritten(last, lane, chunk, position, |last.referenceValues|, j);
      assert w in own;
    }
  }

  lemma {:induction false} ValueWritten(c: FilterComparison, lane: int, chunk: int, position: int, n: nat, j: int)
    requires WellFormed(c) && n <= |c.referenceValues| && 0 <= j < n
    ensures var (ch, p) := Address(chunk, position, j);
      SetCompareReferenceValue(ch, p, lane, c.referenceValues[j]) in ValueWrites(c, lane, chunk, position, n)
  {
    if j < n - 1 {
      ValueWritten(c, lane, chunk, position, n - 1, j);
    }
  }

  /** The comparison record the unit tests' filter
      {1,14,1},{0},{12000},{1},{0} defines. */
  lemma TestFilterComparisons()
    ensures BlockComparisons([[1, 14, 1], [0], [12000], [1], [0]], 0, 1) ==
      Success([FilterComparison(FromParameter(0), [12000], [1], [0])])
  {
    var params := [[1, 14, 1], [0], [12000], [1], [0]];
    var c := FilterComparison(FromParameter(0), [12000], [1], [0]);
    assert BlockComparisons(params, 0, 0) == Success([]);
    assert NewComparison(0, [12000], [1], [0]) == Success(c);
    assert [] + [c] == [c];
  }

  /** One compare-type write for a single reference value. */
  lemma TypeWritesOne(f: seq<CompareFunction>, chunk: int, position: int)
    requires |f| >= 4 && 0 <= position <= 15
    ensures TypeWrites(f, chunk, position, 1) == [SetCompareTypes(chunk, position, f[0], f[1], f[2], f[3])]
  {
    AddressOfFirstValue(chunk, position);
  }
  /** A lane with one reference value and one clause writes the value,
      then its literal, at the first address. */
  lemma ValueWritesOne(c: FilterComparison, lane: int, chunk: int, position: int)
    requires WellFormed(c) && |c.referenceValues| == 1 && |c.dnfClauseIds| == 1 && 0 <= position <= 15
    ensures ValueWrites(c, lane, chunk, position, 1) ==
      [SetCompareReferenceValue(chunk, position, lane, c.referenceValues[0]),
       SetDNFClauseLiteral(c.dnfClauseIds[0], lane, chunk, position, c.literalTypes[0])]
  {
    AddressOfFirstValue(chunk, position);
    assert DnfWrites(c, lane, chunk, position, 1) ==
      [SetDNFClauseLiteral(c.dnfClauseIds[0], lane, chunk, position, c.literalTypes[0])];
  }
  /** With one comparison, the lane writes are those of lane 0. */
  lemma LaneWritesOne(c: FilterComparison, chunk: int, position: int)
    requires WellFormed(c)
    ensures LaneWrites([c], chunk, position, 1) == ValueWrites(c, 0, chunk, position, |c.referenceValues|)
  {
    assert LaneWrites([c], chunk, position, 0) == [];
  }

  /** A single comparison with one reference value and one clause
      yields three writes: the value, its literal, and the compare types
      with the three unused lanes padded with kEqual32Bit. */
  lemma SingleComparisonTrace(c: FilterComparison, chunk: int, position: int)
    requires WellFormed(c) && |c.referenceValues| == 1 && |c.dnfClauseIds| == 1 && 0 <= position <= 15
    ensures ComparisonsTrace([c], chunk, position) ==
      Success([SetCompareReferenceValue(chunk, position, 0, c.referenceValues[0]),
               SetDNFClauseLiteral(c.dnfClauseIds[0], 0, chunk, position, c.literalTypes[0]),
               SetCompareTypes(chunk, position, c.compareFunction, Equal32Bit, Equal32Bit, Equal32Bit)])
  {
    LaneWritesOne(c, chunk, position);
    ValueWritesOne(c, 0, chunk, position);
    var f := PaddedFunctions([c]);
    assert f[0] == c.compareFunction && f[1] == Equal32Bit && f[2] == Equal32Bit && f[3] == Equal32Bit;
    TypeWritesOne(f, chunk, position);
    assert ComparisonsTrace([c], chunk, position) ==
      Success(LaneWrites([c], chunk, position, 1) + TypeWrites(f, chunk, position, 1));
    var v := SetCompareReferenceValue(chunk, position, 0, c.referenceValues[0]);
    var l := SetDNFClauseLiteral(c.dnfClauseIds[0], 0, chunk, position, c.literalTypes[0]);
    var t := SetCompareTypes(chunk, position, c.compareFunction, Equal32Bit, Equal32Bit, Equal32Bit);
    assert LaneWrites([c], chunk, position, 1) == [v, l];
    assert TypeWrites(f, chunk, position, 1) == [t];
    assert [v, l] + [t] == [v, l, t];
  }
  /** The writes of that comparison at chunk 1, position 14. */
  lemma TestComparisonWrites()
    ensures ComparisonsTrace([FilterComparison(FromParameter(0), [12000], [1], [0])], 1, 14) ==
      Success([SetCompareReferenceValue(1, 14, 0, 12000), SetDNFClauseLiteral(0, 0, 1, 14, 1),
               SetCompareTypes(1, 14, FromParameter(0), Equal32Bit, Equal32Bit, Equal32Bit)])
  {
    SingleComparisonTrace(FilterComparison(FromParameter(0), [12000], [1], [0]), 1, 14);
  }

  /** Parameters that hold exactly one block with one comparison: the
      walk writes that block's comparisons and lands on the end. */
  lemma AllComparisonsOfOneBlock(params: seq<seq<int>>, c: FilterComparison, w: seq<FilterWrite>)
    requires |params| == 5 && |params[0]| == 3 && params[0][COMPARISON_COUNT_INDEX] == 1
    requires BlockComparisons(params, 0, 1) == Success([c])
    requires ComparisonsTrace([c], params[0][CHUNK_ID_INDEX], params[0][DATA_POSITION_INDEX]) == Success(w)
    ensures AllComparisons(params, 0) == Success(w)
  {
    assert NextBlock(1, 0) == 5 && ComparisonsIn(1) == 1;
    assert AllComparisons(params, 5) == Success([]);
    assert w + [] == w;
  }

  /** A setup whose comparisons succeed and whose capacity names a size
      writes the preamble, the comparisons and that size's writer. */
  lemma FilterTraceOf(inputStream: int, outputStream: int, params: seq<seq<int>>, capacity: seq<int>,
                      w: seq<FilterWrite>, size: FilterSize)
    requires |params| > 0 && |params[0]| > 0
    requires AllComparisons(params, 0) == Success(w) && SizeOf(capacity) == Success(size)
    ensures FilterModuleTrace(inputStream, outputStream, params, capacity) ==
      Success(Preamble(inputStream, outputStream) + w + [WriteDNFClauseLiterals(size, DATAPATH_WIDTH)])
  {
  }

  /** The setup of the unit tests' filter, with input stream 0, output
      stream 1 and capacity {8, 1}: stream ids 0, 1, 1; the reference
      value 12000 on lane 0 and a positive literal of clause 0 at chunk 1,
      position 14; compare function 0 on lane 0 and kEqual32Bit on the
      three unused lanes; and the 8-clause writer. */
  lemma TestFilterTrace()
    ensures FilterModuleTrace(0, 1, [[1, 14, 1], [0], [12000], [1], [0]], [8, 1]) ==
      Success([ResetDNFStates, SetStreamIDs(0, 1, 1), SetMode(true, false, false, true, true),
               SetCompareReferenceValue(1, 14, 0, 12000), SetDNFClauseLiteral(0, 0, 1, 14, 1),
               SetCompareTypes(1, 14, FromParameter(0), Equal32Bit, Equal32Bit, Equal32Bit),
               WriteDNFClauseLiterals(Cmp1Dnf8, 16)])
  {
    var params := [[1, 14, 1], [0], [12000], [1], [0]];
    var c := FilterComparison(FromParameter(0), [12000], [1], [0]);
    var w := [SetCompareReferenceValue(1, 14, 0, 12000), SetDNFClauseLiteral(0, 0, 1, 14, 1),
              SetCompareTypes(1, 14, FromParameter(0), Equal32Bit, Equal32Bit, Equal32Bit)];
    TestFilterComparisons();
    TestComparisonWrites();
    AllComparisonsOfOneBlock(params, c, w);
    FilterTraceOf(0, 1, params, [8, 1], w, Cmp1Dnf8);
    assert Preamble(0, 1) + w + [WriteDNFClauseLiterals(Cmp1Dnf8, 16)] ==
      [ResetDNFStates, SetStreamIDs(0, 1, 1), SetMode(true, false, false, true, true),
       w[0], w[1], w[2], WriteDNFClauseLiterals(Cmp1Dnf8, 16)];
  }
}
