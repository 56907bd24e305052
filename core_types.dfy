/** Data model shared by the C++ scheduler and executor: operation types,
    table metadata, the scheduling graph keyed by node name, and the query
    node graph, whose pointers become node names in an arena (a map from
    name to node record). */
module CoreTypes {
  import opened Wrappers

  /** The operation types the C++ sources name. */
  datatype OperationType =
    | Filter | Join | MergeSort | LinearSort | Addition | Multiplication | AggregationSum | BlackWhite | Sobel

  /** Shape of a data table; `sortedStatus` is the sorted-run encoding
      `{}`, `{record_count}` or `{start, count, length, stride}`. */
  datatype TableMetadata = TableMetadata(recordSize: int, recordCount: int, sortedStatus: seq<int>)

  type Tables = map<string, TableMetadata>

  /** One node of the scheduling graph: its predecessors as
      (name, stream index) pairs, its successors by name ("" for none),
      and the table bound to each input stream. */
  datatype SchedulingNode = SchedulingNode(
    operation: OperationType,
    capacity: seq<int>,
    beforeNodes: seq<(string, int)>,
    afterNodes: seq<string>,
    dataTables: seq<string>)

  type SchedulingGraph = map<string, SchedulingNode>

  /** A module committed to a run: the table summary it was placed for and
      the size of the data it processes. */
  datatype PlacedModule = PlacedModule(
    nodeName: string,
    operation: OperationType,
    bitstream: string,
    position: (int, int),
    processedTableData: seq<int>,
    tableDataSize: int)

  /** A query node of the execution graph.  Pointers to other nodes are
      their names; `None` is a null pointer.  The three parameter lists are
      the operation, input stream and output stream parts of the node's
      `NodeOperationParameters`. */
  datatype QueryNode = QueryNode(
    name: string,
    operation: OperationType,
    inputFiles: seq<string>,
    outputFiles: seq<string>,
    nextNodes: seq<Option<string>>,
    previousNodes: seq<Option<string>>,
    isChecked: seq<bool>,
    moduleLocations: seq<int>,
    operationParameters: seq<seq<int>>,
    inputStreamParameters: seq<seq<int>>,
    outputStreamParameters: seq<seq<int>>)

  type Arena = map<string, QueryNode>

  /** `kSupportedFunctions`: the operation type of each name the
      configuration may use. */
  type Supported = map<string, OperationType>

  /** `std::get` of the wrong alternative of a variant. */
  const BAD_VARIANT := "bad_variant_access"

  /** `v.at(i)`: the element, or std::out_of_range. */
  function At<T>(v: seq<T>, i: int): (r: Result<T>)
    ensures r.Success? <==> 0 <= i < |v|
    ensures r.Success? ==> r.value == v[i]
    ensures r.Failure? ==> r.error == "out_of_range"
  {
    if 0 <= i < |v| then Success(v[i]) else Failure("out_of_range")
  }

  /** C++ `/` on int: the quotient truncated toward zero. */
  function TruncDiv(a: int, b: int): int
    requires b != 0
  {
    if a >= 0 then (if b > 0 then a / b else -(a / (-b)))
    else (if b > 0 then -((-a) / b) else (-a) / (-b))
  }

  /** C++ `%` on int: the remainder takes the sign of the dividend. */
  function TruncMod(a: int, b: int): int
    requires b != 0
  {
    a - b * TruncDiv(a, b)
  }

  /** Proof helper, not a property of the system: on a non-negative
      dividend and a positive divisor the C++ operators agree with
      Euclidean division. */
  lemma TruncAgreesOnNonnegative(a: int, b: int)
    requires a >= 0 && b > 0
    ensures TruncDiv(a, b) == a / b && TruncMod(a, b) == a % b
  {
  }

  /** The index of the first occurrence of `x` in `v`, or -1. */
  function IndexOf<T(==)>(v: seq<T>, x: T): (r: int)
    ensures -1 <= r < |v|
    ensures r >= 0 ==> v[r] == x && x !in v[..r]
    ensures r == -1 <==> x !in v
  {
    if |v| == 0 then -1
    else if v[0] == x then 0
    else
      var k := IndexOf(v[1..], x);
      if k == -1 then -1 else k + 1
  }

  /** The parameters of one DMA stream; the physical address map is keyed
      by address. */
  datatype StreamParams = StreamParams(
    streamId: int,
    recordSize: int,
    recordCount: int,
    physicalAddresses: map<int, seq<int>>,
    streamSpecification: seq<int>,
    inputChunksPerRecord: int,
    maxChannelCount: int,
    smallestModuleSize: int)

  /** A node of one run as handed to the FPGA manager: its streams, its
      operation, its module location, the locations of all modules composed
      with it, and its parameters. */
  datatype AcceleratedNode = AcceleratedNode(
    inputStreams: seq<StreamParams>,
    outputStreams: seq<StreamParams>,
    operation: OperationType,
    location: int,
    composedLocations: seq<int>,
    parameters: seq<seq<int>>)

  /** `s` is in ascending order of `key`. */
  predicate SortedByKey<T>(s: seq<T>, key: T -> int) {
    forall i, j :: 0 <= i < j < |s| ==> key(s[i]) <= key(s[j])
  }

  /** Insert `x` before the first element with a larger key. */
  function InsertByKey<T(==)>(x: T, s: seq<T>, key: T -> int): (r: seq<T>)
    ensures multiset(r) == multiset(s) + multiset{x} && |r| == |s| + 1
    ensures forall y :: y in r ==> y == x || y in s
    ensures SortedByKey(s, key) ==> SortedByKey(r, key)
  {
    if |s| == 0 then [x]
    else if key(x) <= key(s[0]) then [x] + s
    else
      var tail := InsertByKey(x, s[1..], key);
      assert s == [s[0]] + s[1..];
      assert SortedByKey(s, key) ==> SortedByKey([s[0]] + tail, key) by {
        if SortedByKey(s, key) {
          HeadThenSorted(x, s, tail, key);
        }
      }
      [s[0]] + tail
  }

  /** The head of a sorted sequence stays in front of the tail it gets
      once `x`, whose key is larger, has been inserted into the rest. */
  lemma HeadThenSorted<T>(x: T, s: seq<T>, tail: seq<T>, key: T -> int)
    requires |s| > 0 && key(s[0]) < key(x) && SortedByKey(s, key) && SortedByKey(tail, key)
    requires forall y :: y in tail ==> y == x || y in s[1..]
    ensures SortedByKey([s[0]] + tail, key)
  {
    forall k | 0 <= k < |tail|
      ensures key(s[0]) <= key(tail[k])
    {
      assert tail[k] in tail;
      if tail[k] != x {
        var j :| 0 <= j < |s[1..]| && s[1..][j] == tail[k];
        assert s[1..][j] == s[j + 1];
      }
    }
    var r := [s[0]] + tail;
    forall i, j | 0 <= i < j < |r|
      ensures key(r[i]) <= key(r[j])
    {
      if i == 0 {
        assert r[j] == tail[j - 1];
      } else {
        assert r[i] == tail[i - 1] && r[j] == tail[j - 1];
      }
    }
  }

  /** An insertion sort by `key`: a sorted permutation of `s`. */
  function SortByKey<T(==)>(s: seq<T>, key: T -> int): (r: seq<T>)
    ensures multiset(r) == multiset(s) && |r| == |s|
    ensures SortedByKey(r, key)
  {
    if |s| == 0 then []
    else
      assert s == [s[0]] + s[1..];
      InsertByKey(s[0], SortByKey(s[1..], key), key)
  }

  /** No element occurs twice. */
  predicate NoDuplicates<T(==)>(s: seq<T>) {
    forall i, j :: 0 <= i < j < |s| ==> s[i] != s[j]
  }

  /** The elements of `s`, each once, in the order of their first
      occurrence. */
  function Dedup<T(==)>(s: seq<T>): (r: seq<T>)
    ensures forall i :: 0 <= i < |r| ==> r[i] in s
    ensures forall i :: 0 <= i < |s| ==> s[i] in r
    ensures NoDuplicates(r)
  {
    if |s| == 0 then []
    else
      var r := Dedup(s[..|s| - 1]);
      var x := s[|s| - 1];
      assert s == s[..|s| - 1] + [x];
      if x in r then r else r + [x]
  }

  /** Dedup keeps the order of first occurrences: an element listed
      before another first occurs in `s` before the other does. */
  lemma {:induction false} DedupKeepsFirstOccurrenceOrder<T>(s: seq<T>, a: int, b: int)
    requires 0 <= a < b < |Dedup(s)|
    ensures IndexOf(s, Dedup(s)[a]) < IndexOf(s, Dedup(s)[b])
  {
    var r := Dedup(s[..|s| - 1]);
    var x := s[|s| - 1];
    var prefix := s[..|s| - 1];
    assert s == prefix + [x];
    if b < |r| {
      DedupKeepsFirstOccurrenceOrder(prefix, a, b);
      IndexOfPrefix(prefix, x, r[a]);
      IndexOfPrefix(prefix, x, r[b]);
    } else {
      assert Dedup(s)[b] == x && x !in r && x !in prefix;
      IndexOfPrefix(prefix, x, r[a]);
      assert IndexOf(s, x) == |prefix| by { IndexOfLast(prefix, x); }
    }
  }

  lemma {:induction false} IndexOfPrefix<T>(prefix: seq<T>, x: T, y: T)
    requires y in prefix
    ensures IndexOf(prefix + [x], y) == IndexOf(prefix, y)
  {
    if prefix[0] != y {
      assert (prefix + [x])[1..] == prefix[1..] + [x];
      IndexOfPrefix(prefix[1..], x, y);
    }
  }

  lemma {:induction false} IndexOfLast<T>(prefix: seq<T>, x: T)
    requires x !in prefix
    ensures IndexOf(prefix + [x], x) == |prefix|
  {
    if |prefix| > 0 {
      assert (prefix + [x])[1..] == prefix[1..] + [x];
      IndexOfLast(prefix[1..], x);
    }
  }
}
