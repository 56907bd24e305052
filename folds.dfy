/** Folds that build a collection from a sequence of items, stopping at
    the first item that cannot be read: the C++ loops that insert into a
    `std::map` or push onto a `std::vector` and let an exception escape. */
module Folds {
  import opened Wrappers

  // ---------------------------------------------------------------------
  // Maps built by `insert`, which keeps the first value of a key

  /** The map after parsing each item into a key and a value and
      inserting them in order; the first failing parse is the error. */
  function InsertAll<A, K(==), V>(items: seq<A>, parse: A -> Result<(K, V)>): Result<map<K, V>> {
    if |items| == 0 then Success(map[])
    else
      var m :- InsertAll(items[..|items| - 1], parse);
      var entry :- parse(items[|items| - 1]);
      Success(if entry.0 in m then m else m[entry.0 := entry.1])
  }

  /** The key item `i` parses to. */
  function KeyAt<A, K, V>(items: seq<A>, parse: A -> Result<(K, V)>, i: int): K
    requires 0 <= i < |items| && parse(items[i]).Success?
  {
    parse(items[i]).value.0
  }

  predicate AllParse<A, K, V>(items: seq<A>, parse: A -> Result<(K, V)>) {
    forall i :: 0 <= i < |items| ==> parse(items[i]).Success?
  }

  /** Defined exactly when every item parses; otherwise the error of the
      first item that does not. */
  lemma {:induction false} InsertAllDefined<A, K, V>(items: seq<A>, parse: A -> Result<(K, V)>)
    ensures InsertAll(items, parse).Success? <==> AllParse(items, parse)
    ensures InsertAll(items, parse).Failure? ==>
      exists i :: 0 <= i < |items| && parse(items[i]).Failure? && InsertAll(items, parse).error == parse(items[i]).error &&
        forall j :: 0 <= j < i ==> parse(items[j]).Success?
  {
    if |items| > 0 {
      var prefix := items[..|items| - 1];
      InsertAllDefined(prefix, parse);
      assert forall i :: 0 <= i < |prefix| ==> prefix[i] == items[i];
      if InsertAll(prefix, parse).Failure? {
        var i :| 0 <= i < |prefix| && parse(prefix[i]).Failure? && InsertAll(prefix, parse).error == parse(prefix[i]).error &&
          forall j :: 0 <= j < i ==> parse(prefix[j]).Success?;
        assert parse(items[i]).Failure?;
      } else if InsertAll(items, parse).Failure? {
        assert parse(items[|items| - 1]).Failure?;
      }
    }
  }

  /** A failing prefix makes the whole build fail the same way. */
  lemma {:induction false} InsertAllPrefixFailure<A, K, V>(items: seq<A>, parse: A -> Result<(K, V)>, n: nat)
    requires n <= |items| && InsertAll(items[..n], parse).Failure?
    ensures InsertAll(items, parse) == Failure(InsertAll(items[..n], parse).error)
    decreases |items| - n
  {
    if n < |items| {
      assert items[..n + 1][..n] == items[..n];
      InsertAllPrefixFailure(items, parse, n + 1);
    } else {
      assert items[..n] == items;
    }
  }

  /** Its keys are exactly the parsed keys. */
  lemma {:induction false} InsertAllKeys<A, K, V>(items: seq<A>, parse: A -> Result<(K, V)>, k: K)
    requires AllParse(items, parse)
    ensures InsertAll(items, parse).Success?
    ensures k in InsertAll(items, parse).value <==> exists i :: 0 <= i < |items| && KeyAt(items, parse, i) == k
  {
    InsertAllDefined(items, parse);
    if |items| > 0 {
      var n := |items| - 1;
      var prefix := items[..n];
      assert forall i :: 0 <= i < n ==> prefix[i] == items[i];
      assert AllParse(prefix, parse);
      InsertAllKeys(prefix, parse, k);
      var m := InsertAll(prefix, parse).value;
      var entry := parse(items[n]).value;
      assert InsertAll(items, parse).value == if entry.0 in m then m else m[entry.0 := entry.1];
      if k in m {
        var i :| 0 <= i < n && KeyAt(prefix, parse, i) == k;
        assert KeyAt(items, parse, i) == k;
      } else if k == entry.0 {
        assert KeyAt(items, parse, n) == k;
      }
      if exists i :: 0 <= i < |items| && KeyAt(items, parse, i) == k {
        var i :| 0 <= i < |items| && KeyAt(items, parse, i) == k;
        if i < n {
          assert KeyAt(prefix, parse, i) == k;
          assert k in m;
        } else {
          assert entry.0 == k;
        }
      }
    }
  }

  /** An item whose key no earlier item shares keeps its value. */
  lemma {:induction false} InsertAllValue<A, K, V>(items: seq<A>, parse: A -> Result<(K, V)>, i: int)
    requires AllParse(items, parse) && 0 <= i < |items|
    requires forall j :: 0 <= j < i ==> KeyAt(items, parse, j) != KeyAt(items, parse, i)
    ensures InsertAll(items, parse).Success?
    ensures KeyAt(items, parse, i) in InsertAll(items, parse).value
    ensures InsertAll(items, parse).value[KeyAt(items, parse, i)] == parse(items[i]).value.1
  {
    InsertAllDefined(items, parse);
    var n := |items| - 1;
    var prefix := items[..n];
    assert forall j :: 0 <= j < n ==> prefix[j] == items[j];
    assert AllParse(prefix, parse);
    InsertAllDefined(prefix, parse);
    var m := InsertAll(prefix, parse).value;
    var key := KeyAt(items, parse, n);
    if i < n {
      assert forall j :: 0 <= j <= i ==> KeyAt(prefix, parse, j) == KeyAt(items, parse, j);
      InsertAllValue(prefix, parse, i);
    } else {
      InsertAllKeys(prefix, parse, key);
      assert forall j :: 0 <= j < n ==> KeyAt(prefix, parse, j) == KeyAt(items, parse, j);
      assert key !in m;
    }
  }

  // ---------------------------------------------------------------------
  // Vectors built by `push_back`

  /** The results of reading each item in order; the first failing read is
      the error. */
  function MapAll<A, B>(items: seq<A>, read: A -> Result<B>): Result<seq<B>> {
    if |items| == 0 then Success([])
    else
      var done :- MapAll(items[..|items| - 1], read);
      var last :- read(items[|items| - 1]);
      Success(done + [last])
  }

  /** Defined exactly when every item reads, and then element `i` is the
      reading of item `i`; otherwise the error of the first item that does
      not read. */
  lemma {:induction false} MapAllMeaning<A, B>(items: seq<A>, read: A -> Result<B>)
    ensures MapAll(items, read).Success? <==> forall i :: 0 <= i < |items| ==> read(items[i]).Success?
    ensures MapAll(items, read).Success? ==>
      |MapAll(items, read).value| == |items| &&
      forall i :: 0 <= i < |items| ==> MapAll(items, read).value[i] == read(items[i]).value
    ensures MapAll(items, read).Failure? ==>
      exists i :: 0 <= i < |items| && read(items[i]).Failure? && MapAll(items, read).error == read(items[i]).error &&
        forall j :: 0 <= j < i ==> read(items[j]).Success?
  {
    if |items| > 0 {
      var prefix := items[..|items| - 1];
      MapAllMeaning(prefix, read);
      assert forall i :: 0 <= i < |prefix| ==> prefix[i] == items[i];
      if MapAll(prefix, read).Failure? {
        var i :| 0 <= i < |prefix| && read(prefix[i]).Failure? && MapAll(prefix, read).error == read(prefix[i]).error &&
          forall j :: 0 <= j < i ==> read(prefix[j]).Success?;
        assert read(items[i]).Failure?;
      } else if MapAll(items, read).Failure? {
        assert read(items[|items| - 1]).Failure?;
      }
    }
  }

  /** A failing prefix makes the whole read fail the same way. */
  lemma {:induction false} MapAllPrefixFailure<A, B>(items: seq<A>, read: A -> Result<B>, n: nat)
    requires n <= |items| && MapAll(items[..n], read).Failure?
    ensures MapAll(items, read) == Failure(MapAll(items[..n], read).error)
    decreases |items| - n
  {
    if n < |items| {
      assert items[..n + 1][..n] == items[..n];
      MapAllPrefixFailure(items, read, n + 1);
    } else {
      assert items[..n] == items;
    }
  }
}
