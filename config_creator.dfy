/** The conversions of config_creator.cpp from the parsed JSON
    configuration into the scheduler's libraries: the accelerator library
    keyed by operation sequences, the module library of parameter values
    per operation, the initial table metadata and the PR hardware library.
    A `std::map` argument is given as its entries in the map's iteration
    order, keys distinct; `kSupportedFunctions` is the `supported` map. */
module ConfigCreator {
  import opened Wrappers
  import opened CoreTypes
  import opened Folds

  /** One operation of an accelerator library key: its name in the JSON
      and its parameters. */
  type NamedOperation = (string, seq<int>)

  type OperationKey = seq<NamedOperation>

  datatype QueryOperation = QueryOperation(operationType: OperationType, operationParameters: seq<int>)

  // ---------------------------------------------------------------------
  // ConvertStringMapToQueryOperations

  /** The query operations of one key, in order; an unknown name is
      `at()` out of range. */
  function Translate(key: OperationKey, supported: Supported): (r: Result<seq<QueryOperation>>)
    ensures r.Success? <==> forall i :: 0 <= i < |key| ==> key[i].0 in supported
    ensures r.Failure? ==> r.error == "out_of_range"
    ensures r.Success? ==> |r.value| == |key|
    ensures r.Success? ==> forall i :: 0 <= i < |key| ==> r.value[i] == QueryOperation(supported[key[i].0], key[i].1)
  {
    if |key| == 0 then Success([])
    else
      match Translate(key[..|key| - 1], supported)
      case Failure(e) => Failure(e)
      case Success(prefix) =>
        var last := key[|key| - 1];
        if last.0 in supported then Success(prefix + [QueryOperation(supported[last.0], last.1)])
        else Failure("out_of_range")
  }

  method TranslateKey(key: OperationKey, supported: Supported) returns (r: Result<seq<QueryOperation>>)
    ensures r == Translate(key, supported)
  {
    var operations := [];
    for i := 0 to |key|
      invariant Translate(key[..i], supported) == Success(operations)
    {
      assert key[..i + 1][..i] == key[..i];
      if key[i].0 !in supported {
        return Failure("out_of_range");
      }
      operations := operations + [QueryOperation(supported[key[i].0], key[i].1)];
    }
    assert key[..|key|] == key;
    r := Success(operations);
  }

  /** One accelerator library entry: its key's translation and its
      value. */
  function TranslateEntry(entry: (OperationKey, string), supported: Supported): Result<(seq<QueryOperation>, string)> {
    var operations :- Translate(entry.0, supported);
    Success((operations, entry.1))
  }

  function EntryParser(supported: Supported): ((OperationKey, string)) -> Result<(seq<QueryOperation>, string)> {
    entry => TranslateEntry(entry, supported)
  }

  /** ConvertStringMapToQueryOperations: the translated keys inserted in
      order, an earlier entry winning a shared translation. */
  function QueryOperationsMap(entries: seq<(OperationKey, string)>, supported: Supported)
    : Result<map<seq<QueryOperation>, string>>
  {
    InsertAll(entries, EntryParser(supported))
  }

  /** The accelerator library is defined exactly when every name is
      supported; an unknown one is out of range. */
  lemma QueryOperationsMapDefined(entries: seq<(OperationKey, string)>, supported: Supported)
    ensures QueryOperationsMap(entries, supported).Success? <==>
      forall i :: 0 <= i < |entries| ==> forall j :: 0 <= j < |entries[i].0| ==> entries[i].0[j].0 in supported
    ensures QueryOperationsMap(entries, supported).Failure? ==> QueryOperationsMap(entries, supported).error == "out_of_range"
  {
    var parse := EntryParser(supported);
    InsertAllDefined(entries, parse);
    if QueryOperationsMap(entries, supported).Failure? {
      var i :| 0 <= i < |entries| && parse(entries[i]).Failure? && QueryOperationsMap(entries, supported).error == parse(entries[i]).error;
    }
  }

  /** Its keys are the translations of the entries' keys. */
  lemma QueryOperationsMapKeys(entries: seq<(OperationKey, string)>, supported: Supported, k: seq<QueryOperation>)
    requires QueryOperationsMap(entries, supported).Success?
    ensures k in QueryOperationsMap(entries, supported).value <==>
      exists i :: 0 <= i < |entries| && Translate(entries[i].0, supported) == Success(k)
  {
    var parse := EntryParser(supported);
    InsertAllDefined(entries, parse);
    InsertAllKeys(entries, parse, k);
    if k in QueryOperationsMap(entries, supported).value {
      var i :| 0 <= i < |entries| && KeyAt(entries, parse, i) == k;
      assert Translate(entries[i].0, supported) == Success(k);
    }
    if exists i :: 0 <= i < |entries| && Translate(entries[i].0, supported) == Success(k) {
      var i :| 0 <= i < |entries| && Translate(entries[i].0, supported) == Success(k);
      assert KeyAt(entries, parse, i) == k;
    }
  }

  /** An entry whose translation no earlier entry shares keeps its value,
      so with distinct translations every entry's value is kept. */
  lemma QueryOperationsMapValue(entries: seq<(OperationKey, string)>, supported: Supported, i: int)
    requires QueryOperationsMap(entries, supported).Success? && 0 <= i < |entries|
    requires forall j :: 0 <= j < i ==> Translate(entries[j].0, supported) != Translate(entries[i].0, supported)
    ensures Translate(entries[i].0, supported).Success?
    ensures Translate(entries[i].0, supported).value in QueryOperationsMap(entries, supported).value
    ensures QueryOperationsMap(entries, supported).value[Translate(entries[i].0, supported).value] == entries[i].1
  {
    var parse := EntryParser(supported);
    InsertAllDefined(entries, parse);
    forall j | 0 <= j < i
      ensures KeyAt(entries, parse, j) != KeyAt(entries, parse, i)
    {
      assert Translate(entries[j].0, supported) != Translate(entries[i].0, supported);
    }
    InsertAllValue(entries, parse, i);
  }

  method ConvertStringMapToQueryOperations(entries: seq<(OperationKey, string)>, supported: Supported)
    returns (r: Result<map<seq<QueryOperation>, string>>)
    ensures r == QueryOperationsMap(entries, supported)
  {
    var resulting: map<seq<QueryOperation>, string> := map[];
    for i := 0 to |entries|
      invariant InsertAll(entries[..i], EntryParser(supported)) == Success(resulting)
    {
      assert entries[..i + 1][..i] == entries[..i];
      var operations := TranslateKey(entries[i].0, supported);
      if operations.Failure? {
        InsertAllPrefixFailure(entries, EntryParser(supported), i + 1);
        return Failure(operations.error);
      }
      if operations.value !in resulting {
        resulting := resulting[operations.value := entries[i].1];
      }
    }
    assert entries[..|entries|] == entries;
    r := Success(resulting);
  }

  // ---------------------------------------------------------------------
  // ConvertAcceleratorLibraryToModuleLibrary

  /** Per operation type, one vector of the values seen per parameter. */
  type ModuleLibrary = map<OperationType, seq<seq<int>>>

  /** The operations of all keys, entry by entry. */
  function Flatten(entries: seq<(OperationKey, string)>): seq<NamedOperation> {
    if |entries| == 0 then [] else Flatten(entries[..|entries| - 1]) + entries[|entries| - 1].0
  }

  /** One vector per parameter, holding that parameter's value. */
  function Singletons(params: seq<int>): (r: seq<seq<int>>)
    ensures |r| == |params| && forall k :: 0 <= k < |params| ==> r[k] == [params[k]]
  {
    seq(|params|, k requires 0 <= k < |params| => [params[k]])
  }

  /** Parameter `k` pushed onto vector `k`, for every parameter; vectors
      past the parameters are kept. */
  function AppendParams(vectors: seq<seq<int>>, params: seq<int>): (r: seq<seq<int>>)
    requires |params| <= |vectors|
    ensures |r| == |vectors|
    ensures forall k :: 0 <= k < |vectors| ==> r[k] == if k < |params| then vectors[k] + [params[k]] else vectors[k]
  {
    seq(|vectors|, k requires 0 <= k < |vectors| => if k < |params| then vectors[k] + [params[k]] else vectors[k])
  }

  /** One operation added to the library: a known type gets its values
      pushed, an unseen one a vector per parameter.  An unknown name is
      `at()` out of range; more parameters than the first occurrence had
      index past the vectors, which is undefined. */
  function AddOperation(library: ModuleLibrary, operation: NamedOperation, supported: Supported): Result<ModuleLibrary> {
    if operation.0 !in supported then Failure("out_of_range")
    else
      var t := supported[operation.0];
      if t in library then
        if |operation.1| <= |library[t]| then Success(library[t := AppendParams(library[t], operation.1)])
        else Failure("Undefined")
      else Success(library[t := Singletons(operation.1)])
  }

  /** The library after the given operations, before sorting. */
  function Collected(operations: seq<NamedOperation>, supported: Supported): Result<ModuleLibrary> {
    if |operations| == 0 then Success(map[])
    else
      var library :- Collected(operations[..|operations| - 1], supported);
      AddOperation(library, operations[|operations| - 1], supported)
  }

  /** The type operation `i` names, for a supported name. */
  function TypeAt(operations: seq<NamedOperation>, supported: Supported, i: int): OperationType
    requires 0 <= i < |operations| && operations[i].0 in supported
  {
    supported[operations[i].0]
  }

  predicate AllSupported(operations: seq<NamedOperation>, supported: Supported) {
    forall i :: 0 <= i < |operations| ==> operations[i].0 in supported
  }

  /** Operations of the same type carry the same number of parameters. */
  predicate ConsistentCounts(operations: seq<NamedOperation>, supported: Supported)
    requires AllSupported(operations, supported)
  {
    forall i, j :: 0 <= i < j < |operations| && TypeAt(operations, supported, i) == TypeAt(operations, supported, j) ==>
      |operations[i].1| == |operations[j].1|
  }

  /** The collected library's keys are the types seen. */
  predicate KeysSeen(operations: seq<NamedOperation>, supported: Supported, library: ModuleLibrary)
    requires AllSupported(operations, supported)
  {
    forall t :: t in library <==> exists i :: 0 <= i < |operations| && TypeAt(operations, supported, i) == t
  }

  /** No occurrence has more parameters than its type has vectors. */
  predicate CountsBounded(operations: seq<NamedOperation>, supported: Supported, library: ModuleLibrary)
    requires AllSupported(operations, supported) && KeysSeen(operations, supported, library)
  {
    forall i :: 0 <= i < |operations| ==> |operations[i].1| <= |library[TypeAt(operations, supported, i)]|
  }

  /** A type has as many vectors as its first occurrence has parameters. */
  predicate FirstCounts(operations: seq<NamedOperation>, supported: Supported, library: ModuleLibrary)
    requires AllSupported(operations, supported) && KeysSeen(operations, supported, library)
  {
    forall i :: 0 <= i < |operations| ==>
      (forall j :: 0 <= j < i ==> TypeAt(operations, supported, j) != TypeAt(operations, supported, i)) ==>
      |library[TypeAt(operations, supported, i)]| == |operations[i].1|
  }

  /** `x` is seen at parameter `k` of an occurrence of type `t`. */
  ghost predicate Seen(operations: seq<NamedOperation>, supported: Supported, t: OperationType, k: int, x: int)
    requires AllSupported(operations, supported)
  {
    exists i :: 0 <= i < |operations| && TypeAt(operations, supported, i) == t && 0 <= k < |operations[i].1| &&
      operations[i].1[k] == x
  }

  /** Vector `k` of type `t` holds exactly the values seen there. */
  ghost predicate ValuesSeen(operations: seq<NamedOperation>, supported: Supported, library: ModuleLibrary)
    requires AllSupported(operations, supported)
  {
    forall t, k, x :: t in library && 0 <= k < |library[t]| ==> (x in library[t][k] <==> Seen(operations, supported, t, k, x))
  }

  /** The collected library: each seen type is a key; its vectors number
      the parameters of its first occurrence and no occurrence has more;
      vector `k` holds exactly the values seen at parameter `k`. */
  ghost predicate CollectedShape(operations: seq<NamedOperation>, supported: Supported, library: ModuleLibrary)
    requires AllSupported(operations, supported)
  {
    KeysSeen(operations, supported, library) && CountsBounded(operations, supported, library) &&
    FirstCounts(operations, supported, library) && ValuesSeen(operations, supported, library)
  }

  /** A successful collection names only supported operations and has
      the shape above; with supported names and consistent counts it
      succeeds. */
  lemma {:induction false} CollectedMeaning(operations: seq<NamedOperation>, supported: Supported)
    ensures Collected(operations, supported).Success? ==>
      AllSupported(operations, supported) && CollectedShape(operations, supported, Collected(operations, supported).value)
    ensures AllSupported(operations, supported) && ConsistentCounts(operations, supported) ==>
      Collected(operations, supported).Success?
    ensures Collected(operations, supported).Failure? ==>
      Collected(operations, supported).error in {"out_of_range", "Undefined"}
  {
    if |operations| > 0 {
      var n := |operations| - 1;
      var prefix := operations[..n];
      var op := operations[n];
      assert operations == prefix + [op];
      CollectedMeaning(prefix, supported);
      CollectedMeaningStep(prefix, op, supported);
    }
  }

  /** The three facts above carry over from `prefix` to `prefix + [op]`. */
  lemma CollectedMeaningStep(prefix: seq<NamedOperation>, op: NamedOperation, supported: Supported)
    requires Collected(prefix, supported).Success? ==>
      AllSupported(prefix, supported) && CollectedShape(prefix, supported, Collected(prefix, supported).value)
    requires AllSupported(prefix, supported) && ConsistentCounts(prefix, supported) ==>
      Collected(prefix, supported).Success?
    requires Collected(prefix, supported).Failure? ==>
      Collected(prefix, supported).error in {"out_of_range", "Undefined"}
    ensures var operations := prefix + [op];
      Collected(operations, supported).Success? ==>
        AllSupported(operations, supported) && CollectedShape(operations, supported, Collected(operations, supported).value)
    ensures var operations := prefix + [op];
      AllSupported(operations, supported) && ConsistentCounts(operations, supported) ==>
        Collected(operations, supported).Success?
    ensures var operations := prefix + [op];
      Collected(operations, supported).Failure? ==>
        Collected(operations, supported).error in {"out_of_range", "Undefined"}
  {
    var operations := prefix + [op];
    assert operations[..|prefix|] == prefix;
    if Collected(operations, supported).Success? {
      var library := Collected(prefix, supported).value;
      var r := Collected(operations, supported).value;
      assert AddOperation(library, op, supported) == Success(r);
      CollectedStep(prefix, op, supported, library, r);
    }
    if AllSupported(operations, supported) && ConsistentCounts(operations, supported) {
      assert AllSupported(prefix, supported) by {
        assert forall i :: 0 <= i < |prefix| ==> prefix[i] == operations[i];
      }
      assert ConsistentCounts(prefix, supported) by {
        assert forall i :: 0 <= i < |prefix| ==> prefix[i] == operations[i];
      }
      ConsistentAddSucceeds(prefix, op, supported, Collected(prefix, supported).value);
    }
  }

  /** With consistent counts, adding the next operation succeeds. */
  lemma ConsistentAddSucceeds(prefix: seq<NamedOperation>, op: NamedOperation, supported: Supported, library: ModuleLibrary)
    requires AllSupported(prefix + [op], supported) && ConsistentCounts(prefix + [op], supported)
    requires AllSupported(prefix, supported) && CollectedShape(prefix, supported, library)
    ensures AddOperation(library, op, supported).Success?
  {
    var operations := prefix + [op];
    var n := |prefix|;
    var t := supported[op.0];
    if t in library {
      var i :| 0 <= i < n && TypeAt(prefix, supported, i) == t;
      var first := FirstOfType(prefix, supported, i);
      assert |library[t]| == |prefix[first].1|;
      assert operations[first] == prefix[first] && operations[n] == op;
      assert TypeAt(operations, supported, first) == TypeAt(operations, supported, n);
    }
  }

  /** The earliest operation of the type of operation `i`. */
  function FirstOfType(operations: seq<NamedOperation>, supported: Supported, i: int): (r: int)
    requires AllSupported(operations, supported) && 0 <= i < |operations|
    ensures 0 <= r <= i && TypeAt(operations, supported, r) == TypeAt(operations, supported, i)
    ensures forall j :: 0 <= j < r ==> TypeAt(operations, supported, j) != TypeAt(operations, supported, i)
  {
    if exists j :: 0 <= j < i && TypeAt(operations, supported, j) == TypeAt(operations, supported, i) then
      var j :| 0 <= j < i && TypeAt(operations, supported, j) == TypeAt(operations, supported, i);
      FirstOfType(operations, supported, j)
    else i
  }

  /** The shape is kept by adding one operation. */
  lemma CollectedStep(prefix: seq<NamedOperation>, op: NamedOperation, supported: Supported, library: ModuleLibrary,
                      r: ModuleLibrary)
    requires AllSupported(prefix, supported) && CollectedShape(prefix, supported, library)
    requires AddOperation(library, op, supported) == Success(r)
    ensures AllSupported(prefix + [op], supported)
    ensures CollectedShape(prefix + [op], supported, r)
  {
    var operations := prefix + [op];
    assert forall i :: 0 <= i < |prefix| ==> operations[i] == prefix[i];
    assert AllSupported(operations, supported);
    assert forall i :: 0 <= i < |prefix| ==> TypeAt(prefix, supported, i) == TypeAt(operations, supported, i);
    KeysStep(prefix, op, supported, library, r);
    CountsStep(prefix, op, supported, library, r);
    FirstCountsStep(prefix, op, supported, library, r);
    forall t, k, x | t in r && 0 <= k < |r[t]|
      ensures x in r[t][k] <==> Seen(operations, supported, t, k, x)
    {
      ValuesStep(prefix, op, supported, library, r, t, k, x);
    }
  }

  lemma KeysStep(prefix: seq<NamedOperation>, op: NamedOperation, supported: Supported, library: ModuleLibrary,
                 r: ModuleLibrary)
    requires AllSupported(prefix, supported) && KeysSeen(prefix, supported, library)
    requires AddOperation(library, op, supported) == Success(r)
    requires AllSupported(prefix + [op], supported)
    ensures KeysSeen(prefix + [op], supported, r)
  {
    var operations := prefix + [op];
    var n := |prefix|;
    var t := supported[op.0];
    assert r.Keys == library.Keys + {t};
    assert operations[n] == op;
    forall u
      ensures u in r <==> exists i :: 0 <= i < |operations| && TypeAt(operations, supported, i) == u
    {
      if u in library {
        var i :| 0 <= i < n && TypeAt(prefix, supported, i) == u;
        assert operations[i] == prefix[i];
        assert TypeAt(operations, supported, i) == u;
      } else if u == t {
        assert TypeAt(operations, supported, n) == u;
      } else {
        forall i | 0 <= i < |operations|
          ensures TypeAt(operations, supported, i) != u
        {
          if i < n {
            assert operations[i] == prefix[i];
            assert TypeAt(prefix, supported, i) != u;
          }
        }
      }
    }
  }

  lemma CountsStep(prefix: seq<NamedOperation>, op: NamedOperation, supported: Supported, library: ModuleLibrary,
                   r: ModuleLibrary)
    requires AllSupported(prefix, supported) && CollectedShape(prefix, supported, library)
    requires AddOperation(library, op, supported) == Success(r)
    requires AllSupported(prefix + [op], supported) && KeysSeen(prefix + [op], supported, r)
    ensures CountsBounded(prefix + [op], supported, r)
  {
    var operations := prefix + [op];
    forall i | 0 <= i < |operations|
      ensures |operations[i].1| <= |r[TypeAt(operations, supported, i)]|
    {
      CountBoundedAt(prefix, op, supported, library, r, i);
    }
  }

  lemma CountBoundedAt(prefix: seq<NamedOperation>, op: NamedOperation, supported: Supported, library: ModuleLibrary,
                       r: ModuleLibrary, i: int)
    requires AllSupported(prefix, supported) && CollectedShape(prefix, supported, library)
    requires AddOperation(library, op, supported) == Success(r)
    requires AllSupported(prefix + [op], supported) && KeysSeen(prefix + [op], supported, r)
    requires 0 <= i < |prefix| + 1
    ensures |(prefix + [op])[i].1| <= |r[TypeAt(prefix + [op], supported, i)]|
  {
    var t := supported[op.0];
    if i < |prefix| {
      assert (prefix + [op])[i] == prefix[i];
      var u := TypeAt(prefix, supported, i);
      assert u in library && |prefix[i].1| <= |library[u]|;
      assert |library[u]| == |r[u]|;
    } else {
      assert (prefix + [op])[i] == op;
    }
  }

  lemma FirstCountsStep(prefix: seq<NamedOperation>, op: NamedOperation, supported: Supported, library: ModuleLibrary,
                        r: ModuleLibrary)
    requires AllSupported(prefix, supported) && CollectedShape(prefix, supported, library)
    requires AddOperation(library, op, supported) == Success(r)
    requires AllSupported(prefix + [op], supported) && KeysSeen(prefix + [op], supported, r)
    ensures FirstCounts(prefix + [op], supported, r)
  {
    var operations := prefix + [op];
    forall i | 0 <= i < |operations| &&
        forall j :: 0 <= j < i ==> TypeAt(operations, supported, j) != TypeAt(operations, supported, i)
      ensures |r[TypeAt(operations, supported, i)]| == |operations[i].1|
    {
      FirstCountAt(prefix, op, supported, library, r, i);
    }
  }

  lemma FirstCountAt(prefix: seq<NamedOperation>, op: NamedOperation, supported: Supported, library: ModuleLibrary,
                     r: ModuleLibrary, i: int)
    requires AllSupported(prefix, supported) && CollectedShape(prefix, supported, library)
    requires AddOperation(library, op, supported) == Success(r)
    requires AllSupported(prefix + [op], supported) && KeysSeen(prefix + [op], supported, r)
    requires 0 <= i < |prefix| + 1
    requires forall j :: 0 <= j < i ==> TypeAt(prefix + [op], supported, j) != TypeAt(prefix + [op], supported, i)
    ensures |r[TypeAt(prefix + [op], supported, i)]| == |(prefix + [op])[i].1|
  {
    var operations := prefix + [op];
    var n := |prefix|;
    var t := supported[op.0];
    assert forall j :: 0 <= j < n ==> operations[j] == prefix[j];
    assert forall j :: 0 <= j < n ==> TypeAt(prefix, supported, j) == TypeAt(operations, supported, j);
    if i < n {
      var u := TypeAt(prefix, supported, i);
      assert forall j :: 0 <= j < i ==> TypeAt(prefix, supported, j) != u;
      assert u in library && |library[u]| == |prefix[i].1|;
      assert |library[u]| == |r[u]|;
    } else {
      assert operations[n] == op;
      assert forall j :: 0 <= j < n ==> TypeAt(prefix, supported, j) != t;
      assert t !in library;
    }
  }

  lemma ValuesStep(prefix: seq<NamedOperation>, op: NamedOperation, supported: Supported, library: ModuleLibrary,
                   r: ModuleLibrary, u: OperationType, k: int, x: int)
    requires AllSupported(prefix, supported) && CollectedShape(prefix, supported, library)
    requires AddOperation(library, op, supported) == Success(r)
    requires AllSupported(prefix + [op], supported)
    requires u in r && 0 <= k < |r[u]|
    ensures x in r[u][k] <==> Seen(prefix + [op], supported, u, k, x)
  {
    if u in library {
      ValuesStepKnown(prefix, op, supported, library, r, u, k, x);
    } else {
      ValuesStepNew(prefix, op, supported, library, r, u, k, x);
    }
  }

  lemma ValuesStepKnown(prefix: seq<NamedOperation>, op: NamedOperation, supported: Supported, library: ModuleLibrary,
                        r: ModuleLibrary, u: OperationType, k: int, x: int)
    requires AllSupported(prefix, supported) && ValuesSeen(prefix, supported, library)
    requires AddOperation(library, op, supported) == Success(r)
    requires AllSupported(prefix + [op], supported)
    requires u in library && u in r && 0 <= k < |r[u]|
    ensures x in r[u][k] <==> Seen(prefix + [op], supported, u, k, x)
  {
    assert |r[u]| == |library[u]|;
    assert x in library[u][k] <==> Seen(prefix, supported, u, k, x);
    if x in r[u][k] {
      KnownValueSeen(prefix, op, supported, library, r, u, k, x);
    }
    if Seen(prefix + [op], supported, u, k, x) {
      SeenKnownValue(prefix, op, supported, library, r, u, k, x);
    }
  }

  lemma KnownValueSeen(prefix: seq<NamedOperation>, op: NamedOperation, supported: Supported, library: ModuleLibrary,
                       r: ModuleLibrary, u: OperationType, k: int, x: int)
    requires AllSupported(prefix, supported) && AllSupported(prefix + [op], supported)
    requires AddOperation(library, op, supported) == Success(r)
    requires u in library && u in r && 0 <= k < |r[u]| == |library[u]|
    requires x in library[u][k] <==> Seen(prefix, supported, u, k, x)
    requires x in r[u][k]
    ensures Seen(prefix + [op], supported, u, k, x)
  {
    var operations := prefix + [op];
    var n := |prefix|;
    if x in library[u][k] {
      var i :| 0 <= i < n && TypeAt(prefix, supported, i) == u && 0 <= k < |prefix[i].1| && prefix[i].1[k] == x;
      assert operations[i] == prefix[i];
      assert TypeAt(operations, supported, i) == u;
    } else {
      assert operations[n] == op;
      assert u == supported[op.0] && k < |op.1| && x == op.1[k];
      assert TypeAt(operations, supported, n) == u;
    }
  }

  lemma SeenKnownValue(prefix: seq<NamedOperation>, op: NamedOperation, supported: Supported, library: ModuleLibrary,
                       r: ModuleLibrary, u: OperationType, k: int, x: int)
    requires AllSupported(prefix, supported) && AllSupported(prefix + [op], supported)
    requires AddOperation(library, op, supported) == Success(r)
    requires u in library && u in r && 0 <= k < |r[u]| == |library[u]|
    requires x in library[u][k] <==> Seen(prefix, supported, u, k, x)
    requires Seen(prefix + [op], supported, u, k, x)
    ensures x in r[u][k]
  {
    var operations := prefix + [op];
    var n := |prefix|;
    var i :| 0 <= i < |operations| && TypeAt(operations, supported, i) == u && 0 <= k < |operations[i].1| &&
      operations[i].1[k] == x;
    if i < n {
      assert operations[i] == prefix[i];
      assert TypeAt(prefix, supported, i) == u;
      assert Seen(prefix, supported, u, k, x);
    } else {
      assert operations[n] == op;
    }
  }

  lemma ValuesStepNew(prefix: seq<NamedOperation>, op: NamedOperation, supported: Supported, library: ModuleLibrary,
                      r: ModuleLibrary, u: OperationType, k: int, x: int)
    requires AllSupported(prefix, supported) && KeysSeen(prefix, supported, library)
    requires AddOperation(library, op, supported) == Success(r)
    requires AllSupported(prefix + [op], supported)
    requires u !in library && u in r && 0 <= k < |r[u]|
    ensures x in r[u][k] <==> Seen(prefix + [op], supported, u, k, x)
  {
    var operations := prefix + [op];
    var n := |prefix|;
    assert operations[n] == op;
    assert u == supported[op.0] && r[u] == Singletons(op.1);
    assert forall i :: 0 <= i < n ==> TypeAt(prefix, supported, i) != u;
    assert forall i :: 0 <= i < n ==> operations[i] == prefix[i];
    assert forall i :: 0 <= i < n ==> TypeAt(operations, supported, i) == TypeAt(prefix, supported, i);
    if x in r[u][k] {
      assert TypeAt(operations, supported, n) == u;
    }
  }

  // Sorting and uniquing the vectors

  predicate Ascending(s: seq<int>) {
    forall i, j :: 0 <= i < j < |s| ==> s[i] <= s[j]
  }

  predicate StrictlyAscending(s: seq<int>) {
    forall i, j :: 0 <= i < j < |s| ==> s[i] < s[j]
  }

  /** `std::unique`: each run of equal neighbours kept once. */
  function UniqueAdjacent(s: seq<int>): (r: seq<int>)
    ensures forall x :: x in r <==> x in s
    ensures |s| > 0 ==> |r| > 0 && r[|r| - 1] == s[|s| - 1]
    ensures Ascending(s) ==> StrictlyAscending(r)
  {
    if |s| <= 1 then s
    else
      var prefix := s[..|s| - 1];
      var u := UniqueAdjacent(prefix);
      assert s == prefix + [s[|s| - 1]];
      assert prefix[|prefix| - 1] == s[|s| - 2];
      assert Ascending(s) ==> Ascending(prefix);
      if s[|s| - 1] == s[|s| - 2] then u else u + [s[|s| - 1]]
  }

  /** A parameter vector after `std::sort` and `std::unique`. */
  function SortedUnique(v: seq<int>): (r: seq<int>)
    ensures StrictlyAscending(r)
    ensures forall x :: x in r <==> x in v
  {
    var sorted := SortByKey(v, x => x);
    assert Ascending(sorted);
    assert forall x :: x in sorted <==> x in multiset(sorted);
    UniqueAdjacent(sorted)
  }

  function NormaliseVectors(vectors: seq<seq<int>>): (r: seq<seq<int>>)
    ensures |r| == |vectors| && forall k :: 0 <= k < |r| ==> r[k] == SortedUnique(vectors[k])
  {
    seq(|vectors|, k requires 0 <= k < |vectors| => SortedUnique(vectors[k]))
  }

  function Normalised(library: ModuleLibrary): (r: ModuleLibrary)
    ensures r.Keys == library.Keys && forall t :: t in r ==> r[t] == NormaliseVectors(library[t])
  {
    map t | t in library :: NormaliseVectors(library[t])
  }

  /** ConvertAcceleratorLibraryToModuleLibrary: the values collected over
      every key's operations, each vector then sorted and uniqued. */
  function ModuleLibraryOf(entries: seq<(OperationKey, string)>, supported: Supported): Result<ModuleLibrary> {
    var library :- Collected(Flatten(entries), supported);
    Success(Normalised(library))
  }

  /** The module library, as promised: defined when every operation name
      is supported and each type keeps one parameter count, and then only
      with supported names; its keys are the types seen; a type has as
      many vectors as its first occurrence has parameters; and every
      vector is strictly ascending and holds exactly the values seen at
      its parameter for that type. */
  lemma ModuleLibraryMeaning(entries: seq<(OperationKey, string)>, supported: Supported)
    ensures AllSupported(Flatten(entries), supported) && ConsistentCounts(Flatten(entries), supported) ==>
      ModuleLibraryOf(entries, supported).Success?
    ensures ModuleLibraryOf(entries, supported).Success? ==>
      var operations := Flatten(entries);
      var library := ModuleLibraryOf(entries, supported).value;
      AllSupported(operations, supported) &&
      KeysSeen(operations, supported, library) &&
      FirstCounts(operations, supported, library) &&
      CountsBounded(operations, supported, library) &&
      (forall t, k :: t in library && 0 <= k < |library[t]| ==> StrictlyAscending(library[t][k])) &&
      ValuesSeen(operations, supported, library)
  {
    var operations := Flatten(entries);
    CollectedMeaning(operations, supported);
    if ModuleLibraryOf(entries, supported).Success? {
      var collected := Collected(operations, supported).value;
      var library := ModuleLibraryOf(entries, supported).value;
      assert library == Normalised(collected);
      assert forall t :: t in library ==> |library[t]| == |collected[t]|;
      forall t, k, x | t in library && 0 <= k < |library[t]|
        ensures x in library[t][k] <==> Seen(operations, supported, t, k, x)
      {
        assert library[t][k] == SortedUnique(collected[t][k]);
      }
    }
  }

  // The loops of ConvertAcceleratorLibraryToModuleLibrary

  lemma {:induction false} FlattenPrefix(entries: seq<(OperationKey, string)>, m: nat)
    requires m <= |entries|
    ensures Flatten(entries[..m]) <= Flatten(entries)
    decreases |entries| - m
  {
    if m < |entries| {
      FlattenPrefix(entries, m + 1);
      assert entries[..m + 1][..m] == entries[..m];
    } else {
      assert entries[..m] == entries;
    }
  }

  lemma {:induction false} CollectedPrefixFailure(operations: seq<NamedOperation>, prefix: seq<NamedOperation>,
                                                   supported: Supported)
    requires prefix <= operations && Collected(prefix, supported).Failure?
    ensures Collected(operations, supported) == Failure(Collected(prefix, supported).error)
  {
    if |operations| > |prefix| {
      var shorter := operations[..|operations| - 1];
      assert prefix <= shorter;
      CollectedPrefixFailure(shorter, prefix, supported);
    } else {
      assert prefix == operations;
    }
  }

  /** Recording one operation: the push_back loop for a known type, the
      vector-per-parameter loop for a new one. */
  method RecordOperation(library: ModuleLibrary, operation: NamedOperation, supported: Supported)
    returns (r: Result<ModuleLibrary>)
    ensures r == AddOperation(library, operation, supported)
  {
    if operation.0 !in supported {
      return Failure("out_of_range");
    }
    var t := supported[operation.0];
    if t in library {
      var vectors := library[t];
      for k := 0 to |operation.1|
        invariant |vectors| == |library[t]|
        invariant k <= |vectors|
        invariant forall m :: 0 <= m < |vectors| ==>
          vectors[m] == if m < k then library[t][m] + [operation.1[m]] else library[t][m]
      {
        if k >= |vectors| {
          return Failure("Undefined");
        }
        vectors := vectors[k := vectors[k] + [operation.1[k]]];
      }
      assert vectors == AppendParams(library[t], operation.1);
      r := Success(library[t := vectors]);
    } else {
      var params := [];
      for k := 0 to |operation.1|
        invariant params == Singletons(operation.1[..k])
      {
        params := params + [[operation.1[k]]];
      }
      assert operation.1[..|operation.1|] == operation.1;
      r := Success(library[t := params]);
    }
  }

  /** Sorts and uniques every vector of one type. */
  method NormaliseParams(vectors: seq<seq<int>>) returns (r: seq<seq<int>>)
    ensures r == NormaliseVectors(vectors)
  {
    r := vectors;
    for k := 0 to |vectors|
      invariant |r| == |vectors|
      invariant forall m :: 0 <= m < |r| ==> r[m] == if m < k then SortedUnique(vectors[m]) else vectors[m]
    {
      r := r[k := SortedUnique(r[k])];
    }
  }

  method NormaliseLibrary(library: ModuleLibrary) returns (r: ModuleLibrary)
    ensures r == Normalised(library)
  {
    r := map[];
    var remaining := library.Keys;
    while remaining != {}
      invariant remaining <= library.Keys
      invariant r.Keys == library.Keys - remaining
      invariant forall t :: t in r ==> r[t] == NormaliseVectors(library[t])
      decreases |remaining|
    {
      var t :| t in remaining;
      var vectors := NormaliseParams(library[t]);
      r := r[t := vectors];
      remaining := remaining - {t};
    }
  }

  /** The operations of one key, in order. */
  method RecordKey(library: ModuleLibrary, key: OperationKey, supported: Supported, ghost done: seq<NamedOperation>)
    returns (r: Result<ModuleLibrary>)
    requires Collected(done, supported) == Success(library)
    ensures r == Collected(done + key, supported)
  {
    var current := library;
    assert done + key[..0] == done;
    for j := 0 to |key|
      invariant Collected(done + key[..j], supported) == Success(current)
    {
      var step := RecordOperation(current, key[j], supported);
      ghost var next := done + key[..j + 1];
      assert next[..|next| - 1] == done + key[..j] && next[|next| - 1] == key[j];
      if step.Failure? {
        assert next <= done + key;
        CollectedPrefixFailure(done + key, next, supported);
        return Failure(step.error);
      }
      current := step.value;
    }
    assert key[..|key|] == key;
    r := Success(current);
  }

  method ConvertAcceleratorLibraryToModuleLibrary(entries: seq<(OperationKey, string)>, supported: Supported)
    returns (r: Result<ModuleLibrary>)
    ensures r == ModuleLibraryOf(entries, supported)
  {
    var library: ModuleLibrary := map[];
    ghost var done: seq<NamedOperation> := [];
    for i := 0 to |entries|
      invariant done == Flatten(entries[..i])
      invariant Collected(done, supported) == Success(library)
    {
      var key := entries[i].0;
      var step := RecordKey(library, key, supported, done);
      assert entries[..i + 1][..i] == entries[..i];
      assert done + key == Flatten(entries[..i + 1]);
      if step.Failure? {
        FlattenPrefix(entries, i + 1);
        CollectedPrefixFailure(Flatten(entries), done + key, supported);
        return Failure(step.error);
      }
      library := step.value;
      done := done + key;
    }
    assert entries[..|entries|] == entries;
    var normalised := NormaliseLibrary(library);
    r := Success(normalised);
  }

  // ---------------------------------------------------------------------
  // CreateTablesData

  /** A field of a table's JSON object: the alternatives of its variant. */
  datatype TableField = TableText(text: string) | TableNumber(number: int) | TableLists(lists: seq<seq<int>>)

  type TableObject = map<string, TableField>

  /** A sorted run of a table: where it starts and how many records. */
  datatype SortedSequence = SortedSequence(startPosition: int, length: int)

  /** The table metadata config_creator.cpp builds: its sorted status is
      a list of sorted runs. */
  datatype ConfiguredTable = ConfiguredTable(recordSize: int, recordCount: int, sortedStatus: seq<SortedSequence>)

  function TextOf(t: TableObject, field: string): (r: Result<string>)
    ensures r.Success? <==> field in t && t[field].TableText?
    ensures r.Success? ==> r.value == t[field].text
    ensures r.Failure? ==> r.error == (if field in t then BAD_VARIANT else "out_of_range")
  {
    if field !in t then Failure("out_of_range")
    else if !t[field].TableText? then Failure(BAD_VARIANT)
    else Success(t[field].text)
  }

  function NumberOf(t: TableObject, field: string): (r: Result<int>)
    ensures r.Success? <==> field in t && t[field].TableNumber?
    ensures r.Success? ==> r.value == t[field].number
    ensures r.Failure? ==> r.error == (if field in t then BAD_VARIANT else "out_of_range")
  {
    if field !in t then Failure("out_of_range")
    else if !t[field].TableNumber? then Failure(BAD_VARIANT)
    else Success(t[field].number)
  }

  function ListsOf(t: TableObject, field: string): (r: Result<seq<seq<int>>>)
    ensures r.Success? <==> field in t && t[field].TableLists?
    ensures r.Success? ==> r.value == t[field].lists
    ensures r.Failure? ==> r.error == (if field in t then BAD_VARIANT else "out_of_range")
  {
    if field !in t then Failure("out_of_range")
    else if !t[field].TableLists? then Failure(BAD_VARIANT)
    else Success(t[field].lists)
  }

  /** A sorted run from its pair: `at(0)` is the start, `at(1)` the
      length. */
  function SortedSequenceOf(pair: seq<int>): (r: Result<SortedSequence>)
    ensures r.Success? <==> |pair| >= 2
    ensures r.Success? ==> r.value == SortedSequence(pair[0], pair[1])
    ensures r.Failure? ==> r.error == "out_of_range"
  {
    if |pair| < 2 then Failure("out_of_range") else Success(SortedSequence(pair[0], pair[1]))
  }

  /** The sorted runs of the pairs, the first short pair failing. */
  function SortedSequences(pairs: seq<seq<int>>): Result<seq<SortedSequence>> {
    MapAll(pairs, SortedSequenceOf)
  }

  /** Every pair holds a start and a length, and then run `i` is pair `i`;
      otherwise the read is out of range. */
  lemma SortedSequencesMeaning(pairs: seq<seq<int>>)
    ensures SortedSequences(pairs).Success? <==> forall i :: 0 <= i < |pairs| ==> |pairs[i]| >= 2
    ensures SortedSequences(pairs).Failure? ==> SortedSequences(pairs).error == "out_of_range"
    ensures SortedSequences(pairs).Success? ==>
      |SortedSequences(pairs).value| == |pairs| &&
      forall i :: 0 <= i < |pairs| ==> SortedSequences(pairs).value[i] == SortedSequence(pairs[i][0], pairs[i][1])
  {
    MapAllMeaning(pairs, SortedSequenceOf);
    if SortedSequences(pairs).Failure? {
      var i :| 0 <= i < |pairs| && SortedSequenceOf(pairs[i]).Failure? && SortedSequences(pairs).error == SortedSequenceOf(pairs[i]).error;
    }
  }

  /** One table's name and metadata, its fields read in the order
      filename, record count, record size, sorted status. */
  function TableOf(t: TableObject): Result<(string, ConfiguredTable)> {
    var filename :- TextOf(t, "filename");
    var recordCount :- NumberOf(t, "record_count");
    var recordSize :- NumberOf(t, "record_size");
    var pairs :- ListsOf(t, "sorted_status");
    var runs :- SortedSequences(pairs);
    Success((filename, ConfiguredTable(recordSize, recordCount, runs)))
  }

  /** A table object holds every field with the alternative it is read
      as, and every sorted run has a start and a length. */
  predicate WellFormedTable(t: TableObject) {
    "filename" in t && t["filename"].TableText? &&
    "record_count" in t && t["record_count"].TableNumber? &&
    "record_size" in t && t["record_size"].TableNumber? &&
    "sorted_status" in t && t["sorted_status"].TableLists? &&
    forall i :: 0 <= i < |t["sorted_status"].lists| ==> |t["sorted_status"].lists[i]| >= 2
  }

  /** A table is read exactly when it is well formed, and then its fields
      are copied unchanged; a missing field is out of range and one of the
      wrong alternative a bad variant access, the filename's error first. */
  lemma TableOfMeaning(t: TableObject)
    ensures TableOf(t).Success? <==> WellFormedTable(t)
    ensures TableOf(t).Success? ==>
      var (name, table) := TableOf(t).value;
      var pairs := t["sorted_status"].lists;
      name == t["filename"].text && table.recordCount == t["record_count"].number &&
      table.recordSize == t["record_size"].number && |table.sortedStatus| == |pairs| &&
      forall i :: 0 <= i < |pairs| ==> table.sortedStatus[i] == SortedSequence(pairs[i][0], pairs[i][1])
    ensures TableOf(t).Failure? ==> TableOf(t).error in {"out_of_range", BAD_VARIANT}
    ensures "filename" !in t ==> TableOf(t) == Failure("out_of_range")
    ensures "filename" in t && !t["filename"].TableText? ==> TableOf(t) == Failure(BAD_VARIANT)
  {
    if "sorted_status" in t && t["sorted_status"].TableLists? {
      SortedSequencesMeaning(t["sorted_status"].lists);
    }
  }

  /** CreateTablesData: the tables keyed by filename, the first table of
      a filename winning. */
  function TablesData(tables: seq<TableObject>): Result<map<string, ConfiguredTable>> {
    InsertAll(tables, TableOf)
  }

  /** The tables are read exactly when each is well formed; otherwise the
      error is out of range or a bad variant access. */
  lemma TablesDataDefined(tables: seq<TableObject>)
    ensures TablesData(tables).Success? <==> forall i :: 0 <= i < |tables| ==> WellFormedTable(tables[i])
    ensures TablesData(tables).Failure? ==> TablesData(tables).error in {"out_of_range", BAD_VARIANT}
  {
    InsertAllDefined(tables, TableOf);
    forall i | 0 <= i < |tables|
      ensures TableOf(tables[i]).Success? <==> WellFormedTable(tables[i])
    {
      TableOfMeaning(tables[i]);
    }
    if TablesData(tables).Failure? {
      var i :| 0 <= i < |tables| && TableOf(tables[i]).Failure? && TablesData(tables).error == TableOf(tables[i]).error;
      TableOfMeaning(tables[i]);
    }
  }

  /** The keys are the tables' filenames, and the first table of a
      filename is the one kept. */
  lemma TablesDataValue(tables: seq<TableObject>, i: int)
    requires TablesData(tables).Success? && 0 <= i < |tables|
    requires forall j :: 0 <= j < i ==> TextOf(tables[j], "filename") != TextOf(tables[i], "filename")
    ensures "filename" in tables[i] && tables[i]["filename"].TableText? && TableOf(tables[i]).Success?
    ensures tables[i]["filename"].text in TablesData(tables).value
    ensures TablesData(tables).value[tables[i]["filename"].text] == TableOf(tables[i]).value.1
  {
    InsertAllDefined(tables, TableOf);
    TableOfMeaning(tables[i]);
    forall j | 0 <= j < i
      ensures KeyAt(tables, TableOf, j) != KeyAt(tables, TableOf, i)
    {
      TableOfMeaning(tables[j]);
    }
    InsertAllValue(tables, TableOf, i);
  }

  lemma TablesDataKeys(tables: seq<TableObject>, name: string)
    requires TablesData(tables).Success?
    ensures name in TablesData(tables).value <==> exists i :: 0 <= i < |tables| && TextOf(tables[i], "filename") == Success(name)
  {
    InsertAllDefined(tables, TableOf);
    InsertAllKeys(tables, TableOf, name);
    if name in TablesData(tables).value {
      var i :| 0 <= i < |tables| && KeyAt(tables, TableOf, i) == name;
      TableOfMeaning(tables[i]);
    }
    if exists i :: 0 <= i < |tables| && TextOf(tables[i], "filename") == Success(name) {
      var i :| 0 <= i < |tables| && TextOf(tables[i], "filename") == Success(name);
      TableOfMeaning(tables[i]);
      assert KeyAt(tables, TableOf, i) == name;
    }
  }

  method ReadSortedStatus(pairs: seq<seq<int>>) returns (r: Result<seq<SortedSequence>>)
    ensures r == SortedSequences(pairs)
  {
    var runs: seq<SortedSequence> := [];
    for i := 0 to |pairs|
      invariant MapAll(pairs[..i], SortedSequenceOf) == Success(runs)
    {
      assert pairs[..i + 1][..i] == pairs[..i];
      if |pairs[i]| < 2 {
        SortedSequencesMeaning(pairs);
        return Failure("out_of_range");
      }
      runs := runs + [SortedSequence(pairs[i][0], pairs[i][1])];
    }
    assert pairs[..|pairs|] == pairs;
    r := Success(runs);
  }

  method ReadTable(t: TableObject) returns (r: Result<(string, ConfiguredTable)>)
    ensures r == TableOf(t)
  {
    var filename :- TextOf(t, "filename");
    var recordCount :- NumberOf(t, "record_count");
    var recordSize :- NumberOf(t, "record_size");
    var pairs :- ListsOf(t, "sorted_status");
    var runs :- ReadSortedStatus(pairs);
    r := Success((filename, ConfiguredTable(recordSize, recordCount, runs)));
  }

  method CreateTablesData(tables: seq<TableObject>) returns (r: Result<map<string, ConfiguredTable>>)
    ensures r == TablesData(tables)
  {
    var resulting: map<string, ConfiguredTable> := map[];
    for i := 0 to |tables|
      invariant InsertAll(tables[..i], TableOf) == Success(resulting)
    {
      assert tables[..i + 1][..i] == tables[..i];
      var entry := ReadTable(tables[i]);
      if entry.Failure? {
        InsertAllPrefixFailure(tables, TableOf, i + 1);
        return Failure(entry.error);
      }
      if entry.value.0 !in resulting {
        resulting := resulting[entry.value.0 := entry.value.1];
      }
    }
    assert tables[..|tables|] == tables;
    r := Success(resulting);
  }

  // ---------------------------------------------------------------------
  // CreateHWLibrary

  /** A field of a bitstream's parameters: the alternatives of its
      variant. */
  datatype ModuleField = ModuleList(values: seq<int>) | ModuleNumber(number: int) | ModuleText(text: string)

  type ModuleObject = map<string, ModuleField>

  /** One bitstream of a PR module. */
  datatype PRModuleData = PRModuleData(capacity: seq<int>, fittingLocations: seq<int>, isBackwards: int,
                                       length: int, resourceString: string)

  /** The bitstreams of one operation and the locations its modules may
      start at. */
  datatype OperationPRModules = OperationPRModules(bitstreamMap: map<string, PRModuleData>,
                                                   startingLocations: seq<seq<string>>)

  /** One operation's entry: its bitstreams, by name in key order, and
      its starting locations. */
  type OperationEntry = (string, (seq<(string, ModuleObject)>, seq<seq<string>>))

  function ListField(p: ModuleObject, field: string): (r: Result<seq<int>>)
    ensures r.Success? <==> field in p && p[field].ModuleList?
    ensures r.Success? ==> r.value == p[field].values
    ensures r.Failure? ==> r.error == (if field in p then BAD_VARIANT else "out_of_range")
  {
    if field !in p then Failure("out_of_range")
    else if !p[field].ModuleList? then Failure(BAD_VARIANT)
    else Success(p[field].values)
  }

  function NumberField(p: ModuleObject, field: string): (r: Result<int>)
    ensures r.Success? <==> field in p && p[field].ModuleNumber?
    ensures r.Success? ==> r.value == p[field].number
    ensures r.Failure? ==> r.error == (if field in p then BAD_VARIANT else "out_of_range")
  {
    if field !in p then Failure("out_of_range")
    else if !p[field].ModuleNumber? then Failure(BAD_VARIANT)
    else Success(p[field].number)
  }

  function TextField(p: ModuleObject, field: string): (r: Result<string>)
    ensures r.Success? <==> field in p && p[field].ModuleText?
    ensures r.Success? ==> r.value == p[field].text
    ensures r.Failure? ==> r.error == (if field in p then BAD_VARIANT else "out_of_range")
  {
    if field !in p then Failure("out_of_range")
    else if !p[field].ModuleText? then Failure(BAD_VARIANT)
    else Success(p[field].text)
  }

  /** One bitstream, its fields read in the order capacity, locations,
      is_backwards, length, string. */
  function ModuleOf(p: ModuleObject): Result<PRModuleData> {
    var capacity :- ListField(p, "capacity");
    var locations :- ListField(p, "locations");
    var isBackwards :- NumberField(p, "is_backwards");
    var length :- NumberField(p, "length");
    var resources :- TextField(p, "string");
    Success(PRModuleData(capacity, locations, isBackwards, length, resources))
  }

  predicate WellFormedModule(p: ModuleObject) {
    "capacity" in p && p["capacity"].ModuleList? &&
    "locations" in p && p["locations"].ModuleList? &&
    "is_backwards" in p && p["is_backwards"].ModuleNumber? &&
    "length" in p && p["length"].ModuleNumber? &&
    "string" in p && p["string"].ModuleText?
  }

  /** A bitstream is read exactly when it is well formed, its fields
      copied unchanged; a missing field is out of range, a field of the
      wrong alternative a bad variant access, the capacity's error first. */
  lemma ModuleOfMeaning(p: ModuleObject)
    ensures ModuleOf(p).Success? <==> WellFormedModule(p)
    ensures ModuleOf(p).Success? ==>
      ModuleOf(p).value == PRModuleData(p["capacity"].values, p["locations"].values, p["is_backwards"].number,
                                        p["length"].number, p["string"].text)
    ensures ModuleOf(p).Failure? ==> ModuleOf(p).error in {"out_of_range", BAD_VARIANT}
    ensures "capacity" !in p ==> ModuleOf(p) == Failure("out_of_range")
    ensures "capacity" in p && !p["capacity"].ModuleList? ==> ModuleOf(p) == Failure(BAD_VARIANT)
  {
  }

  function BitstreamOf(bitstream: (string, ModuleObject)): Result<(string, PRModuleData)> {
    var prModule :- ModuleOf(bitstream.1);
    Success((bitstream.0, prModule))
  }

  function HwEntryOf(entry: OperationEntry, supported: Supported): Result<(OperationType, OperationPRModules)> {
    var bitstreams :- InsertAll(entry.1.0, BitstreamOf);
    var operation :- if entry.0 in supported then Success(supported[entry.0]) else Failure("out_of_range");
    Success((operation, OperationPRModules(bitstreams, entry.1.1)))
  }

  function HwEntryParser(supported: Supported): OperationEntry -> Result<(OperationType, OperationPRModules)> {
    entry => HwEntryOf(entry, supported)
  }

  /** CreateHWLibrary: each operation's bitstreams and starting locations
      keyed by its operation type, the first entry of a type winning. */
  function HwLibrary(entries: seq<OperationEntry>, supported: Supported): Result<map<OperationType, OperationPRModules>> {
    InsertAll(entries, HwEntryParser(supported))
  }

  /** An operation entry is read when all its bitstreams are well formed
      and its name is supported. */
  predicate WellFormedEntry(entry: OperationEntry, supported: Supported) {
    (forall i :: 0 <= i < |entry.1.0| ==> WellFormedModule(entry.1.0[i].1)) && entry.0 in supported
  }

  /** One operation entry is read exactly when it is well formed; then its
      starting locations are kept and its bitstream map holds each named
      bitstream, read field by field. */
  lemma HwEntryMeaning(entry: OperationEntry, supported: Supported)
    ensures HwEntryOf(entry, supported).Success? <==> WellFormedEntry(entry, supported)
    ensures HwEntryOf(entry, supported).Failure? ==> HwEntryOf(entry, supported).error in {"out_of_range", BAD_VARIANT}
    ensures HwEntryOf(entry, supported).Success? ==>
      var (operation, modules) := HwEntryOf(entry, supported).value;
      operation == supported[entry.0] && modules.startingLocations == entry.1.1 &&
      forall name :: name in modules.bitstreamMap <==> exists i :: 0 <= i < |entry.1.0| && entry.1.0[i].0 == name
  {
    var bitstreams := entry.1.0;
    InsertAllDefined(bitstreams, BitstreamOf);
    forall i | 0 <= i < |bitstreams|
      ensures BitstreamOf(bitstreams[i]).Success? <==> WellFormedModule(bitstreams[i].1)
    {
      ModuleOfMeaning(bitstreams[i].1);
    }
    var built := InsertAll(bitstreams, BitstreamOf);
    if built.Failure? {
      var i :| 0 <= i < |bitstreams| && BitstreamOf(bitstreams[i]).Failure? && built.error == BitstreamOf(bitstreams[i]).error;
      ModuleOfMeaning(bitstreams[i].1);
    } else {
      forall name
        ensures name in built.value <==> exists i :: 0 <= i < |bitstreams| && bitstreams[i].0 == name
      {
        InsertAllKeys(bitstreams, BitstreamOf, name);
        if exists i :: 0 <= i < |bitstreams| && bitstreams[i].0 == name {
          var i :| 0 <= i < |bitstreams| && bitstreams[i].0 == name;
          assert KeyAt(bitstreams, BitstreamOf, i) == name;
        }
      }
    }
  }

  /** A bitstream no earlier one of its operation shares a name with is
      kept with its fields. */
  lemma HwEntryBitstream(entry: OperationEntry, supported: Supported, i: int)
    requires HwEntryOf(entry, supported).Success? && 0 <= i < |entry.1.0|
    requires forall j :: 0 <= j < i ==> entry.1.0[j].0 != entry.1.0[i].0
    ensures entry.1.0[i].0 in HwEntryOf(entry, supported).value.1.bitstreamMap
    ensures ModuleOf(entry.1.0[i].1).Success?
    ensures HwEntryOf(entry, supported).value.1.bitstreamMap[entry.1.0[i].0] == ModuleOf(entry.1.0[i].1).value
  {
    var bitstreams := entry.1.0;
    InsertAllDefined(bitstreams, BitstreamOf);
    InsertAllValue(bitstreams, BitstreamOf, i);
  }

  /** The library is read exactly when every entry is well formed;
      otherwise the error is out of range or a bad variant access. */
  lemma HwLibraryDefined(entries: seq<OperationEntry>, supported: Supported)
    ensures HwLibrary(entries, supported).Success? <==> forall i :: 0 <= i < |entries| ==> WellFormedEntry(entries[i], supported)
    ensures HwLibrary(entries, supported).Failure? ==> HwLibrary(entries, supported).error in {"out_of_range", BAD_VARIANT}
  {
    var parse := HwEntryParser(supported);
    InsertAllDefined(entries, parse);
    forall i | 0 <= i < |entries|
      ensures parse(entries[i]).Success? <==> WellFormedEntry(entries[i], supported)
    {
      HwEntryMeaning(entries[i], supported);
    }
    if HwLibrary(entries, supported).Failure? {
      var i :| 0 <= i < |entries| && parse(entries[i]).Failure? && HwLibrary(entries, supported).error == parse(entries[i]).error;
      HwEntryMeaning(entries[i], supported);
    }
  }

  /** The keys are the operation types of the entries' names. */
  lemma HwLibraryKeys(entries: seq<OperationEntry>, supported: Supported, t: OperationType)
    requires HwLibrary(entries, supported).Success?
    ensures t in HwLibrary(entries, supported).value <==>
      exists i :: 0 <= i < |entries| && entries[i].0 in supported && supported[entries[i].0] == t
  {
    var parse := HwEntryParser(supported);
    InsertAllDefined(entries, parse);
    InsertAllKeys(entries, parse, t);
    if t in HwLibrary(entries, supported).value {
      var i :| 0 <= i < |entries| && KeyAt(entries, parse, i) == t;
      HwEntryMeaning(entries[i], supported);
    }
    if exists i :: 0 <= i < |entries| && entries[i].0 in supported && supported[entries[i].0] == t {
      var i :| 0 <= i < |entries| && entries[i].0 in supported && supported[entries[i].0] == t;
      HwEntryMeaning(entries[i], supported);
      assert KeyAt(entries, parse, i) == t;
    }
  }

  /** An entry whose operation type no earlier entry shares is the one
      kept for that type. */
  lemma HwLibraryValue(entries: seq<OperationEntry>, supported: Supported, i: int)
    requires HwLibrary(entries, supported).Success? && 0 <= i < |entries|
    requires forall j :: 0 <= j < i ==> entries[j].0 in supported && entries[i].0 in supported ==>
      supported[entries[j].0] != supported[entries[i].0]
    ensures entries[i].0 in supported && supported[entries[i].0] in HwLibrary(entries, supported).value
    ensures HwEntryOf(entries[i], supported).Success?
    ensures HwLibrary(entries, supported).value[supported[entries[i].0]] == HwEntryOf(entries[i], supported).value.1
  {
    var parse := HwEntryParser(supported);
    InsertAllDefined(entries, parse);
    HwEntryMeaning(entries[i], supported);
    forall j | 0 <= j < i
      ensures KeyAt(entries, parse, j) != KeyAt(entries, parse, i)
    {
      HwEntryMeaning(entries[j], supported);
    }
    InsertAllValue(entries, parse, i);
  }

  method ReadModule(p: ModuleObject) returns (r: Result<PRModuleData>)
    ensures r == ModuleOf(p)
  {
    var capacity :- ListField(p, "capacity");
    var locations :- ListField(p, "locations");
    var isBackwards :- NumberField(p, "is_backwards");
    var length :- NumberField(p, "length");
    var resources :- TextField(p, "string");
    r := Success(PRModuleData(capacity, locations, isBackwards, length, resources));
  }

  method ReadBitstreams(bitstreams: seq<(string, ModuleObject)>) returns (r: Result<map<string, PRModuleData>>)
    ensures r == InsertAll(bitstreams, BitstreamOf)
  {
    var bitstreamMap: map<string, PRModuleData> := map[];
    for i := 0 to |bitstreams|
      invariant InsertAll(bitstreams[..i], BitstreamOf) == Success(bitstreamMap)
    {
      assert bitstreams[..i + 1][..i] == bitstreams[..i];
      var prModule := ReadModule(bitstreams[i].1);
      if prModule.Failure? {
        InsertAllPrefixFailure(bitstreams, BitstreamOf, i + 1);
        return Failure(prModule.error);
      }
      if bitstreams[i].0 !in bitstreamMap {
        bitstreamMap := bitstreamMap[bitstreams[i].0 := prModule.value];
      }
    }
    assert bitstreams[..|bitstreams|] == bitstreams;
    r := Success(bitstreamMap);
  }

  method CreateHwLibrary(entries: seq<OperationEntry>, supported: Supported)
    returns (r: Result<map<OperationType, OperationPRModules>>)
    ensures r == HwLibrary(entries, supported)
  {
    var resulting: map<OperationType, OperationPRModules> := map[];
    for i := 0 to |entries|
      invariant InsertAll(entries[..i], HwEntryParser(supported)) == Success(resulting)
    {
      assert entries[..i + 1][..i] == entries[..i];
      var bitstreams := ReadBitstreams(entries[i].1.0);
      if bitstreams.Failure? || entries[i].0 !in supported {
        InsertAllPrefixFailure(entries, HwEntryParser(supported), i + 1);
        return Failure(if bitstreams.Failure? then bitstreams.error else "out_of_range");
      }
      var operation := supported[entries[i].0];
      if operation !in resulting {
        resulting := resulting[operation := OperationPRModules(bitstreams.value, entries[i].1.1)];
      }
    }
    assert entries[..|entries|] == entries;
    r := Success(resulting);
  }
}
