/** The query manager's reconfiguration and run set-up steps: which partial
    bitstreams to load between two configurations (with routing modules
    for freed columns), cropping a sorted-run status to a table's actual
    size, and expanding a query node into one accelerated node per module
    location. */
module QueryManager {
  import opened Wrappers
  import opened CoreTypes

  // ---------------------------------------------------------------------
  // CropSortedStatus

  /** `ceil(left / d)` for a positive remainder-free or not division, as
      the C++ code computes it: the truncated quotient, plus one when the
      division is inexact. */
  lemma CeilingQuotient(left: int, d: int)
    requires left >= d > 0
    ensures var q := TruncDiv(left, d);
      var c := if q * d != left then q + 1 else q;
      c >= 1 && (c - 1) * d < left <= c * d
  {
    TruncAgreesOnNonnegative(left, d);
    var q := left / d;
    assert left == q * d + left % d;
    assert q >= 1;
    if q * d != left {
      assert (q + 1) * d == q * d + d;
    } else {
      assert (q - 1) * d == q * d - d;
    }
  }

  /** The status CropSortedStatus leaves for a table of `recordCount`
      records. */
  function CropStatus(recordCount: int, s: seq<int>): (r: Result<seq<int>>)
    ensures |s| == 0 ==> r == Success(s)
    ensures |s| == 1 ==> r == Success([recordCount])
    ensures |s| == 2 ==> r == Failure("out_of_range")
    ensures |s| >= 3 && (s[1] - 1) * s[2] + s[0] <= recordCount ==> r == Success(s)
    ensures |s| >= 3 && (s[1] - 1) * s[2] + s[0] > recordCount && recordCount < s[0] ==> r == Success([recordCount])
    ensures |s| >= 3 && (s[1] - 1) * s[2] + s[0] > recordCount && recordCount >= s[0] && s[2] == 0 ==>
      r == Failure("Undefined")
    ensures r.Success? && |s| >= 3 ==> |r.value| == 1 || (|r.value| == |s| && r.value[0] == s[0] && r.value[3..] == s[3..])
  {
    if |s| == 0 then Success(s)
    else if |s| == 1 then Success([recordCount])
    else
      var count := s[1];
      var length :- At(s, 2);
      var start := s[0];
      if (count - 1) * length + start > recordCount then
        if recordCount < start then Success([recordCount])
        else
          var left := recordCount - start;
          if length == 0 then Failure("Undefined")
          else
            var sequences := TruncDiv(left, length);
            if sequences == 0 then
              Success(s[1 := 1][2 := left])
            else
              Success(s[1 := if sequences * length != left then sequences + 1 else sequences])
      else Success(s)
  }

  /** When the runs overrun the table but fewer than one run length of
      records is left after the start, those records form one short run. */
  lemma CropLeavesShortRun(recordCount: int, s: seq<int>)
    requires |s| >= 3 && (s[1] - 1) * s[2] + s[0] > recordCount && recordCount >= s[0]
    requires 0 <= recordCount - s[0] < s[2]
    ensures CropStatus(recordCount, s) == Success(s[1 := 1][2 := recordCount - s[0]])
  {
    var left := recordCount - s[0];
    assert TruncDiv(left, s[2]) == left / s[2];
    assert left / s[2] == 0;
  }

  /** When the runs overrun the table and at least one run length of
      records is left, the run count becomes `ceil(left / length)`. */
  lemma CropCountsRuns(recordCount: int, s: seq<int>)
    requires |s| >= 3 && (s[1] - 1) * s[2] + s[0] > recordCount
    requires recordCount - s[0] >= s[2] > 0
    ensures var left := recordCount - s[0];
      var r := CropStatus(recordCount, s);
      r.Success? && r.value == s[1 := r.value[1]] && (r.value[1] - 1) * s[2] < left <= r.value[1] * s[2]
  {
    var left := recordCount - s[0];
    CeilingQuotient(left, s[2]);
    var q := TruncDiv(left, s[2]);
    assert q != 0;
    assert CropStatus(recordCount, s) == Success(s[1 := if q * s[2] != left then q + 1 else q]);
  }

  /** CropSortedStatus: crops the status of the table `filename`. */
  function CropSortedStatus(tables: Tables, filename: string): (r: Result<Tables>)
    ensures filename !in tables ==> r == Failure("out_of_range")
    ensures filename in tables ==>
      var t := tables[filename];
      match CropStatus(t.recordCount, t.sortedStatus)
      case Success(s) => r == Success(tables[filename := t.(sortedStatus := s)])
      case Failure(e) => r == Failure(e)
  {
    if filename !in tables then Failure("out_of_range")
    else
      var t := tables[filename];
      var s :- CropStatus(t.recordCount, t.sortedStatus);
      Success(tables[filename := t.(sortedStatus := s)])
  }

  /** With positive run lengths, a cropped status fits the table, so
      cropping twice is cropping once. */
  lemma CropIsIdempotent(recordCount: int, s: seq<int>)
    requires CropStatus(recordCount, s).Success?
    requires |s| >= 3 ==> s[2] > 0
    ensures CropStatus(recordCount, CropStatus(recordCount, s).value) == CropStatus(recordCount, s)
  {
    var c := CropStatus(recordCount, s).value;
    if |s| >= 3 && (s[1] - 1) * s[2] + s[0] > recordCount && recordCount >= s[0] {
      var left := recordCount - s[0];
      if left < s[2] {
        CropLeavesShortRun(recordCount, s);
        assert (c[1] - 1) * c[2] + c[0] == s[0];
      } else {
        CropCountsRuns(recordCount, s);
        assert (c[1] - 1) * c[2] + c[0] <= recordCount;
      }
    }
  }

  // ---------------------------------------------------------------------
  // GetPRBitstreamsToLoadWithPassthroughModules

  /** The bitstream configuration helper, whose implementation is not part
      of this model: the old modules that do not overlap the next
      configuration, the two configurations without their common modules
      (next first), and the configuration left after a reconfiguration. */
  datatype ConfigHelper = ConfigHelper(
    oldNonOverlappingModules: (seq<PlacedModule>, seq<PlacedModule>) -> seq<PlacedModule>,
    configCompliments: (seq<PlacedModule>, seq<PlacedModule>) -> (seq<PlacedModule>, seq<PlacedModule>),
    resultingConfig: (seq<PlacedModule>, seq<PlacedModule>, seq<PlacedModule>) -> seq<PlacedModule>)

  /** The routing bitstream of each of the first 31 columns. */
  const ROUTING_BITSTREAMS: seq<string> := [
    "RT_95.bin", "RT_92.bin", "RT_89.bin", "RT_86.bin", "RT_83.bin",
    "RT_80.bin", "RT_77.bin", "RT_74.bin", "RT_71.bin", "RT_68.bin",
    "RT_65.bin", "RT_62.bin", "RT_59.bin", "RT_56.bin", "RT_53.bin",
    "RT_50.bin", "RT_47.bin", "RT_44.bin", "RT_41.bin", "RT_38.bin",
    "RT_35.bin", "RT_32.bin", "RT_29.bin", "RT_26.bin", "RT_23.bin",
    "RT_20.bin", "RT_17.bin", "RT_14.bin", "RT_11.bin", "RT_8.bin",
    "RT_5.bin"]

  /** The result of a reconfiguration step: the bitstreams to load, the
      passthrough flag of each left-over module, and the new current
      configuration. */
  datatype Reconfiguration = Reconfiguration(
    required: seq<string>,
    passthrough: seq<(OperationType, bool)>,
    current: seq<PlacedModule>)

  /** The modules of `s`, in order, that are not in `banned`. */
  function Without(s: seq<PlacedModule>, banned: seq<PlacedModule>): (r: seq<PlacedModule>)
    ensures forall m :: m in r <==> m in s && m !in banned
    ensures |r| <= |s|
  {
    if |s| == 0 then []
    else (if s[0] in banned then [] else [s[0]]) + Without(s[1..], banned)
  }

  /** Removing the modules equal to `x` after removing `banned` removes
      `banned + [x]`. */
  lemma {:induction false} WithoutThenRemove(s: seq<PlacedModule>, banned: seq<PlacedModule>, x: PlacedModule)
    ensures Without(Without(s, banned), [x]) == Without(s, banned + [x])
  {
    if |s| > 0 {
      WithoutThenRemove(s[1..], banned, x);
      var rest := Without(s[1..], banned);
      if s[0] in banned {
        assert Without(s, banned) == rest;
      } else {
        assert Without(s, banned) == [s[0]] + rest;
        assert ([s[0]] + rest)[1..] == rest;
      }
    }
  }

  lemma {:induction false} WithoutRepeated(s: seq<PlacedModule>, banned: seq<PlacedModule>, x: PlacedModule)
    requires x in banned
    ensures Without(s, banned + [x]) == Without(s, banned)
  {
    if |s| > 0 {
      WithoutRepeated(s[1..], banned, x);
    }
  }

  predicate Covers(m: PlacedModule, column: int) {
    m.position.0 <= column <= m.position.1
  }

  predicate CoveredBy(config: seq<PlacedModule>, column: int) {
    exists m :: m in config && Covers(m, column)
  }

  /** Every column of every module lies in the frame vector. */
  predicate InColumns(config: seq<PlacedModule>, columnCount: int) {
    forall m :: m in config ==> m.position.0 > m.position.1 || (0 <= m.position.0 && m.position.1 < columnCount)
  }

  predicate RoutingNeeded(removable: seq<PlacedModule>, next: seq<PlacedModule>, column: int) {
    CoveredBy(removable, column) && !CoveredBy(next, column)
  }

  /** The columns below `k` a removable module frees and no next module
      covers, ascending. */
  function NeededColumns(removable: seq<PlacedModule>, next: seq<PlacedModule>, k: nat): (r: seq<int>)
    ensures forall i, j :: 0 <= i < j < |r| ==> r[i] < r[j]
    ensures forall i :: 0 <= i < |r| ==> 0 <= r[i] < k
  {
    if k == 0 then []
    else NeededColumns(removable, next, k - 1) + (if RoutingNeeded(removable, next, k - 1) then [k - 1] else [])
  }

  /** A column is listed exactly when routing is needed there. */
  lemma {:induction false} NeededColumnsMeaning(removable: seq<PlacedModule>, next: seq<PlacedModule>, k: nat)
    ensures forall c :: c in NeededColumns(removable, next, k) <==> 0 <= c < k && RoutingNeeded(removable, next, c)
  {
    if k > 0 {
      NeededColumnsMeaning(removable, next, k - 1);
    }
  }

  lemma NeededColumnsStep(removable: seq<PlacedModule>, next: seq<PlacedModule>, k: nat)
    ensures RoutingNeeded(removable, next, k) ==>
      NeededColumns(removable, next, k + 1) == NeededColumns(removable, next, k) + [k]
    ensures !RoutingNeeded(removable, next, k) ==>
      NeededColumns(removable, next, k + 1) == NeededColumns(removable, next, k)
  {
    assert NeededColumns(removable, next, k) + [] == NeededColumns(removable, next, k);
  }

  function RoutingNames(names: seq<string>, columns: seq<int>): (r: seq<string>)
    requires forall i :: 0 <= i < |columns| ==> 0 <= columns[i] < |names|
    ensures |r| == |columns| && forall i :: 0 <= i < |r| ==> r[i] == names[columns[i]]
  {
    if |columns| == 0 then [] else RoutingNames(names, columns[..|columns| - 1]) + [names[columns[|columns| - 1]]]
  }

  lemma RoutingNamesAppend(names: seq<string>, columns: seq<int>, c: int)
    requires forall i :: 0 <= i < |columns| ==> 0 <= columns[i] < |names|
    requires 0 <= c < |names|
    ensures RoutingNames(names, columns + [c]) == RoutingNames(names, columns) + [names[c]]
  {
    assert (columns + [c])[..|columns|] == columns;
  }

  function Bitstreams(config: seq<PlacedModule>): (r: seq<string>)
    ensures |r| == |config| && forall i :: 0 <= i < |r| ==> r[i] == config[i].bitstream
  {
    if |config| == 0 then [] else Bitstreams(config[..|config| - 1]) + [config[|config| - 1].bitstream]
  }

  predicate HasBitstream(config: seq<PlacedModule>, bitstream: string) {
    exists m :: m in config && m.bitstream == bitstream
  }

  function StartColumn(m: PlacedModule): int { m.position.0 }

  function ReducedNext(helper: ConfigHelper, current: seq<PlacedModule>, next: seq<PlacedModule>): seq<PlacedModule> {
    helper.configCompliments(next, current).0
  }

  /** The reduced current configuration without the old routing modules. */
  function Removable(helper: ConfigHelper, current: seq<PlacedModule>, next: seq<PlacedModule>): seq<PlacedModule> {
    Without(helper.configCompliments(next, current).1, helper.oldNonOverlappingModules(next, current))
  }

  /** The modules whose columns are written: the removable ones and the
      reduced next configuration. */
  function Modified(helper: ConfigHelper, current: seq<PlacedModule>, next: seq<PlacedModule>): seq<PlacedModule> {
    Removable(helper, current, next) + ReducedNext(helper, current, next)
  }

  /** Mark the columns of `m` in the frame vector with `value`. */
  method MarkColumns(frames: array<int>, m: PlacedModule, value: int) returns (ok: bool)
    modifies frames
    ensures ok <==> (m.position.0 > m.position.1 || (0 <= m.position.0 && m.position.1 < frames.Length))
    ensures ok ==> forall c :: 0 <= c < frames.Length ==> frames[c] == if Covers(m, c) then value else old(frames[c])
  {
    var column := m.position.0;
    while column < m.position.1 + 1
      invariant m.position.0 <= column && (column > m.position.0 ==> 0 <= m.position.0 && column <= frames.Length)
      invariant column <= m.position.1 + 1 || column == m.position.0
      invariant forall c :: 0 <= c < frames.Length ==>
        frames[c] == if m.position.0 <= c < column then value else old(frames[c])
    {
      if !(0 <= column < frames.Length) {
        return false;
      }
      frames[column] := value;
      column := column + 1;
    }
    ok := true;
  }

  /** GetPRBitstreamsToLoadWithPassthroughModules: the bitstreams of the
      reduced next configuration in order, then the routing bitstream of
      every column below 31 that a removable module frees and no next
      module covers, ascending; the left-over configuration sorted by start
      column becomes the current one, each module flagged as passthrough
      unless the next configuration loads its bitstream. */
  method GetPRBitstreamsToLoadWithPassthroughModules(helper: ConfigHelper, currentConfig: seq<PlacedModule>,
                                                     nextConfig: seq<PlacedModule>, columnCount: int)
    returns (r: Result<Reconfiguration>)
    ensures columnCount < 0 ==> r == Failure("length_error")
    ensures columnCount >= 0 && !InColumns(Modified(helper, currentConfig, nextConfig), columnCount) ==>
      r == Failure("Undefined")
    ensures 0 <= columnCount < |ROUTING_BITSTREAMS| && InColumns(Modified(helper, currentConfig, nextConfig), columnCount) ==>
      r == Failure("out_of_range")
    ensures columnCount >= |ROUTING_BITSTREAMS| && InColumns(Modified(helper, currentConfig, nextConfig), columnCount) ==>
      r.Success?
    ensures r.Success? ==>
      var removable := Removable(helper, currentConfig, nextConfig);
      var reducedNext := ReducedNext(helper, currentConfig, nextConfig);
      var leftOver := helper.resultingConfig(currentConfig, removable, reducedNext);
      r.value.required ==
        Bitstreams(reducedNext) + RoutingNames(ROUTING_BITSTREAMS, NeededColumns(removable, reducedNext, |ROUTING_BITSTREAMS|)) &&
      multiset(r.value.current) == multiset(leftOver) && SortedByKey(r.value.current, StartColumn) &&
      |r.value.passthrough| == |r.value.current| &&
      forall k :: 0 <= k < |r.value.current| ==>
        r.value.passthrough[k] == (r.value.current[k].operation, !HasBitstream(nextConfig, r.value.current[k].bitstream))
  {
    if columnCount < 0 {
      return Failure("length_error");
    }
    var oldRouting := helper.oldNonOverlappingModules(nextConfig, currentConfig);
    var reducedNext := helper.configCompliments(nextConfig, currentConfig).0;
    var reducedCurrent := helper.configCompliments(nextConfig, currentConfig).1;
    var removable := RemoveOldRoutingModules(reducedCurrent, oldRouting);

    var frames := new int[columnCount](_ => 0);
    var ok := MarkFrames(frames, removable);
    if !ok {
      return Failure("Undefined");
    }
    var required;
    ok, required := ClearFrames(frames, removable, reducedNext);
    if !ok {
      return Failure("Undefined");
    }
    AllInColumns(removable, reducedNext, columnCount);
    var routing := RoutingForFrames(frames, removable, reducedNext, ROUTING_BITSTREAMS);
    if routing.Failure? {
      return Failure(routing.error);
    }

    var leftOver := helper.resultingConfig(currentConfig, removable, reducedNext);
    var sorted := SortByKey(leftOver, StartColumn);
    var passthrough := PassthroughFlags(sorted, nextConfig);
    r := Success(Reconfiguration(required + routing.value, passthrough, sorted));
  }

  /** The removable modules: the reduced current configuration without
      every module equal to an old routing module, removed once per module
      of the reduced current configuration as the nested loops do. */
  method RemoveOldRoutingModules(reducedCurrent: seq<PlacedModule>, oldRouting: seq<PlacedModule>)
    returns (removable: seq<PlacedModule>)
    ensures removable == Without(reducedCurrent, oldRouting)
  {
    removable := reducedCurrent;
    var i := 0;
    WithoutNothing(reducedCurrent);
    while i < |oldRouting|
      invariant 0 <= i <= |oldRouting|
      invariant removable == Without(reducedCurrent, oldRouting[..i])
    {
      assert oldRouting[..i + 1] == oldRouting[..i] + [oldRouting[i]];
      var j := 0;
      while j < |reducedCurrent|
        invariant 0 <= j <= |reducedCurrent|
        invariant removable == Without(reducedCurrent, if j == 0 then oldRouting[..i] else oldRouting[..i + 1])
      {
        WithoutThenRemove(reducedCurrent, if j == 0 then oldRouting[..i] else oldRouting[..i + 1], oldRouting[i]);
        if j > 0 {
          WithoutRepeated(reducedCurrent, oldRouting[..i + 1], oldRouting[i]);
        }
        removable := Without(removable, [oldRouting[i]]);
        j := j + 1;
      }
      if |reducedCurrent| == 0 {
        assert Without(reducedCurrent, oldRouting[..i + 1]) == [];
      }
      i := i + 1;
    }
    assert oldRouting[..i] == oldRouting;
  }

  /** Marks with 1 every column a removable module covers. */
  method MarkFrames(frames: array<int>, removable: seq<PlacedModule>) returns (ok: bool)
    requires forall c :: 0 <= c < frames.Length ==> frames[c] == 0
    modifies frames
    ensures ok <==> InColumns(removable, frames.Length)
    ensures ok ==> forall c :: 0 <= c < frames.Length ==> frames[c] == if CoveredBy(removable, c) then 1 else 0
  {
    var k := 0;
    assert removable[..0] == [];
    while k < |removable|
      invariant 0 <= k <= |removable| && InColumns(removable[..k], frames.Length)
      invariant forall c :: 0 <= c < frames.Length ==> frames[c] == if CoveredBy(removable[..k], c) then 1 else 0
    {
      ok := MarkColumns(frames, removable[k], 1);
      if !ok {
        assert removable[k] in removable;
        return false;
      }
      assert removable[..k + 1] == removable[..k] + [removable[k]];
      k := k + 1;
    }
    assert removable[..k] == removable;
    ok := true;
  }

  /** Clears every column a reduced-next module covers and lists the
      reduced-next bitstreams in order. */
  method ClearFrames(frames: array<int>, removable: seq<PlacedModule>, reducedNext: seq<PlacedModule>)
    returns (ok: bool, required: seq<string>)
    requires forall c :: 0 <= c < frames.Length ==> frames[c] == if CoveredBy(removable, c) then 1 else 0
    modifies frames
    ensures ok <==> InColumns(reducedNext, frames.Length)
    ensures ok ==> required == Bitstreams(reducedNext)
    ensures ok ==> forall c :: 0 <= c < frames.Length ==> frames[c] == if RoutingNeeded(removable, reducedNext, c) then 1 else 0
  {
    required := [];
    var k := 0;
    assert reducedNext[..0] == [];
    while k < |reducedNext|
      invariant 0 <= k <= |reducedNext| && InColumns(reducedNext[..k], frames.Length)
      invariant required == Bitstreams(reducedNext[..k])
      invariant forall c :: 0 <= c < frames.Length ==>
        frames[c] == if CoveredBy(removable, c) && !CoveredBy(reducedNext[..k], c) then 1 else 0
    {
      ok := MarkColumns(frames, reducedNext[k], 0);
      if !ok {
        assert reducedNext[k] in reducedNext;
        return false, required;
      }
      assert reducedNext[..k + 1] == reducedNext[..k] + [reducedNext[k]];
      required := required + [reducedNext[k].bitstream];
      k := k + 1;
    }
    assert reducedNext[..k] == reducedNext;
    ok := true;
  }

  /** The routing names of the needed columns below `k`, column by column. */
  function NeededRouting(names: seq<string>, removable: seq<PlacedModule>, next: seq<PlacedModule>, k: nat): seq<string>
    requires k <= |names|
  {
    if k == 0 then []
    else NeededRouting(names, removable, next, k - 1) + (if RoutingNeeded(removable, next, k - 1) then [names[k - 1]] else [])
  }

  /** Column by column, the routing names are those of the needed columns. */
  lemma {:induction false} NeededRoutingNames(names: seq<string>, removable: seq<PlacedModule>, next: seq<PlacedModule>, k: nat)
    requires k <= |names|
    ensures NeededRouting(names, removable, next, k) == RoutingNames(names, NeededColumns(removable, next, k))
  {
    if k > 0 {
      NeededRoutingNames(names, removable, next, k - 1);
      NeededColumnsStep(removable, next, k - 1);
      var columns := NeededColumns(removable, next, k - 1);
      if RoutingNeeded(removable, next, k - 1) {
        RoutingNamesAppend(names, columns, k - 1);
      } else {
        assert NeededRouting(names, removable, next, k - 1) + [] == NeededRouting(names, removable, next, k - 1);
      }
    }
  }

  /** The routing bitstreams of the marked columns among the first 31; the
      frame vector must reach column 30. */
  method RoutingForFrames(frames: array<int>, removable: seq<PlacedModule>, reducedNext: seq<PlacedModule>,
                          names: seq<string>)
    returns (r: Result<seq<string>>)
    requires forall c :: 0 <= c < frames.Length ==> (frames[c] != 0 <==> RoutingNeeded(removable, reducedNext, c))
    ensures r.Success? <==> frames.Length >= |names|
    ensures r.Failure? ==> r.error == "out_of_range"
    ensures r.Success? ==> r.value == RoutingNames(names, NeededColumns(removable, reducedNext, |names|))
  {
    var routing: seq<string> := [];
    var column := 0;
    while column < |names|
      invariant 0 <= column <= |names| && column <= frames.Length
      invariant routing == NeededRouting(names, removable, reducedNext, column)
    {
      if column >= frames.Length {
        return Failure("out_of_range");
      }
      if frames[column] != 0 {
        routing := routing + [names[column]];
      }
      column := column + 1;
    }
    NeededRoutingNames(names, removable, reducedNext, |names|);
    r := Success(routing);
  }

  /** One flag per left-over module, in order: passthrough unless the next
      configuration loads the same bitstream. */
  method PassthroughFlags(sorted: seq<PlacedModule>, nextConfig: seq<PlacedModule>)
    returns (passthrough: seq<(OperationType, bool)>)
    ensures |passthrough| == |sorted|
    ensures forall k :: 0 <= k < |sorted| ==>
      passthrough[k] == (sorted[k].operation, !HasBitstream(nextConfig, sorted[k].bitstream))
  {
    passthrough := [];
    var k := 0;
    while k < |sorted|
      invariant 0 <= k <= |sorted| && |passthrough| == k
      invariant forall q :: 0 <= q < k ==>
        passthrough[q] == (sorted[q].operation, !HasBitstream(nextConfig, sorted[q].bitstream))
    {
      if HasBitstream(nextConfig, sorted[k].bitstream) {
        passthrough := passthrough + [(sorted[k].operation, false)];
      } else {
        passthrough := passthrough + [(sorted[k].operation, true)];
      }
      k := k + 1;
    }
  }

  lemma {:induction false} WithoutNothing(s: seq<PlacedModule>)
    ensures Without(s, []) == s
  {
    if |s| > 0 {
      WithoutNothing(s[1..]);
    }
  }

  lemma AllInColumns(removable: seq<PlacedModule>, next: seq<PlacedModule>, columnCount: int)
    requires InColumns(removable, columnCount) && InColumns(next, columnCount)
    ensures InColumns(removable + next, columnCount)
  {
  }

  // ---------------------------------------------------------------------
  // AddQueryNodes

  /** The index of the first end-of-run marker -1, or the length. */
  function RunEnd(locations: seq<int>): (r: nat)
    ensures r <= |locations| && -1 !in locations[..r]
    ensures r < |locations| ==> locations[r] == -1
  {
    var i := IndexOf(locations, -1);
    if i == -1 then
      assert locations[..|locations|] == locations;
      |locations|
    else i
  }

  function Identity(x: int): int { x }

  /** Streams with their physical addresses dropped. */
  function WithoutAddresses(streams: seq<StreamParams>): (r: seq<StreamParams>)
    ensures |r| == |streams| &&
      forall i :: 0 <= i < |r| ==> r[i] == streams[i].(physicalAddresses := map[])
  {
    if |streams| == 0 then []
    else WithoutAddresses(streams[..|streams| - 1]) + [streams[|streams| - 1].(physicalAddresses := map[])]
  }

  /** The accelerated node for module `i` of `n` composed modules: only
      the first reads the input addresses and only the last writes the
      output addresses. */
  function ComposedNode(i: int, n: int, inputs: seq<StreamParams>, outputs: seq<StreamParams>, node: QueryNode,
                        locations: seq<int>, parameters: seq<seq<int>>): AcceleratedNode
    requires 0 <= i < |locations|
  {
    AcceleratedNode(if i == 0 then inputs else WithoutAddresses(inputs),
                    if i == n - 1 then outputs else WithoutAddresses(outputs),
                    node.operation, locations[i], locations, parameters)
  }

  /** For a non-negative offset the block bounds grow with the module
      index and stay within those of `n` blocks. */
  lemma BlockBounds(offset: int, i: int, n: int)
    requires 0 <= offset && 0 <= i < n
    ensures 0 <= offset * i <= offset * (i + 1) <= offset * n
    ensures offset * (i + 1) == offset * i + offset
  {
    MulNonnegative(offset, i);
    MulNonnegative(offset, n - i - 1);
    assert offset * (i + 1) == offset * i + offset;
    assert offset * n == offset * (i + 1) + offset * (n - i - 1);
  }

  lemma {:induction false} MulNonnegative(a: int, b: int)
    requires a >= 0 && b >= 0
    ensures a * b >= 0
    decreases b
  {
    if b > 0 {
      MulNonnegative(a, b - 1);
      assert a * b == a * (b - 1) + a;
    }
  }

  /** The parameter block of module `i` of `n` resource-elastic modules:
      the shared header followed by the module's own `offset` entries. */
  function ModuleParameters(all: seq<seq<int>>, offset: int, i: int, n: int): (r: seq<seq<int>>)
    requires 0 <= offset && 0 <= i < n && 1 + offset * n <= |all|
    ensures |r| == 1 + offset && r[0] == all[0]
    ensures forall k :: 1 <= k < |r| ==> r[k] == all[offset * i + k]
  {
    BlockBounds(offset, i, n);
    var lo := 1 + offset * i;
    [all[0]] + all[lo .. lo + offset]
  }

  /** AddQueryNodes: appends one accelerated node per module location of
      the node's current run (those before the first -1, sorted), and
      returns the index of that marker.  A single location gives one node
      with no composed locations; several give composed nodes that share
      the parameters, or a resource-elastic node whose parameter header
      must give the location count. */
  method AddQueryNodes(queryNodes: seq<AcceleratedNode>, inputs: seq<StreamParams>, outputs: seq<StreamParams>,
                       node: QueryNode)
    returns (r: Result<(seq<AcceleratedNode>, int)>)
    ensures r.Success? ==> r.value.1 == RunEnd(node.moduleLocations)
    ensures r.Success? ==> |r.value.0| >= |queryNodes| && r.value.0[..|queryNodes|] == queryNodes
    ensures var locations := SortByKey(node.moduleLocations[..RunEnd(node.moduleLocations)], Identity);
      var params := node.operationParameters;
      |locations| == 1 ==>
        r == Success((queryNodes + [AcceleratedNode(inputs, outputs, node.operation, locations[0], [], params)],
                      RunEnd(node.moduleLocations)))
    ensures var locations := SortByKey(node.moduleLocations[..RunEnd(node.moduleLocations)], Identity);
      var params := node.operationParameters;
      |locations| != 1 && |params| == 0 ==>
        r.Success? && |r.value.0| == |queryNodes| + |locations| &&
        forall i :: 0 <= i < |locations| ==>
          r.value.0[|queryNodes| + i] == ComposedNode(i, |locations|, inputs, outputs, node, locations, params)
    ensures var locations := SortByKey(node.moduleLocations[..RunEnd(node.moduleLocations)], Identity);
      var params := node.operationParameters;
      |locations| != 1 && |params| > 0 ==>
        if |params[0]| == 0 then r == Failure("out_of_range")
        else if params[0][0] != |locations| then r == Failure("Wrong parameters given!")
        else if |params[0]| == 1 then r == Failure("out_of_range")
        else if !ElasticFits(params, params[0][1], |locations|) then r == Failure("Undefined")
        else
          r.Success? && |r.value.0| == |queryNodes| + |locations| &&
          forall i :: 0 <= i < |locations| ==>
            r.value.0[|queryNodes| + i] ==
              ComposedNode(i, |locations|, inputs, outputs, node, locations,
                           ModuleParameters(params, params[0][1], i, |locations|))
  {
    var end := RunEnd(node.moduleLocations);
    var locations := SortByKey(node.moduleLocations[..end], Identity);
    var params := node.operationParameters;
    if |locations| == 1 {
      return Success((queryNodes + [AcceleratedNode(inputs, outputs, node.operation, locations[0], [], params)], end));
    } else if |params| == 0 {
      var out := AppendComposedNodes(queryNodes, inputs, outputs, node, locations);
      return Success((out, end));
    }
    if |params[0]| == 0 {
      return Failure("out_of_range");
    }
    if params[0][0] != |locations| {
      return Failure("Wrong parameters given!");
    }
    if |params[0]| == 1 {
      return Failure("out_of_range");
    }
    var out := AppendElasticNodes(queryNodes, inputs, outputs, node, locations, params[0][1]);
    if out.Failure? {
      return Failure(out.error);
    }
    r := Success((out.value, end));
  }

  /** The nodes of several composed modules that share the node's
      parameters. */
  method AppendComposedNodes(queryNodes: seq<AcceleratedNode>, inputs: seq<StreamParams>, outputs: seq<StreamParams>,
                             node: QueryNode, locations: seq<int>)
    returns (out: seq<AcceleratedNode>)
    ensures |out| == |queryNodes| + |locations| && out[..|queryNodes|] == queryNodes
    ensures forall i :: 0 <= i < |locations| ==>
      out[|queryNodes| + i] == ComposedNode(i, |locations|, inputs, outputs, node, locations, node.operationParameters)
  {
    out := queryNodes;
    var i := 0;
    while i < |locations|
      invariant 0 <= i <= |locations| && |out| == |queryNodes| + i && out[..|queryNodes|] == queryNodes
      invariant forall q :: 0 <= q < i ==>
        out[|queryNodes| + q] == ComposedNode(q, |locations|, inputs, outputs, node, locations, node.operationParameters)
    {
      var next := out + [ComposedNode(i, |locations|, inputs, outputs, node, locations, node.operationParameters)];
      assert next[..|out|] == out;
      out := next;
      i := i + 1;
    }
  }

  /** The nodes of a resource-elastic module split over several locations,
      each with the shared header and its own `offset` parameter entries.
      A block that lies outside the parameter list is undefined behaviour
      of the iterator range; the blocks grow with the index, so they all
      fit exactly when the last one does, and the check is made once. */
  method AppendElasticNodes(queryNodes: seq<AcceleratedNode>, inputs: seq<StreamParams>, outputs: seq<StreamParams>,
                            node: QueryNode, locations: seq<int>, offset: int)
    returns (r: Result<seq<AcceleratedNode>>)
    ensures r.Success? <==> ElasticFits(node.operationParameters, offset, |locations|)
    ensures r.Failure? ==> r.error == "Undefined"
    ensures r.Success? ==> |r.value| == |queryNodes| + |locations| && r.value[..|queryNodes|] == queryNodes
    ensures r.Success? ==> forall i :: 0 <= i < |locations| ==>
      r.value[|queryNodes| + i] ==
        ComposedNode(i, |locations|, inputs, outputs, node, locations,
                     ModuleParameters(node.operationParameters, offset, i, |locations|))
  {
    var params := node.operationParameters;
    if !ElasticFits(params, offset, |locations|) {
      return Failure("Undefined");
    }
    var out := queryNodes;
    var i := 0;
    while i < |locations|
      invariant 0 <= i <= |locations| && |out| == |queryNodes| + i && out[..|queryNodes|] == queryNodes
      invariant forall q :: 0 <= q < i ==>
        out[|queryNodes| + q] ==
          ComposedNode(q, |locations|, inputs, outputs, node, locations, ModuleParameters(params, offset, q, |locations|))
    {
      var next := out + [ComposedNode(i, |locations|, inputs, outputs, node, locations,
                                      ModuleParameters(params, offset, i, |locations|))];
      assert next[..|out|] == out;
      out := next;
      i := i + 1;
    }
    r := Success(out);
  }

  /** The parameter blocks of `n` modules lie inside the parameter list. */
  predicate ElasticFits(params: seq<seq<int>>, offset: int, n: int) {
    n <= 0 || (offset >= 0 && 1 + offset * n <= |params|)
  }
}
