/**
 * The in-memory reader used in place of the store-backed one (db/mock.go):
 * a map from keys to values that its methods only read. Keys are not
 * tagged here, and the prefix query walks the map in Go's unspecified
 * iteration order, which the model takes as a parameter.
 */
module MockReader {
  import opened Bytes
  import opened Wrappers
  import opened OperationLog

  /** The keys of `order` that start with `prefix`, in that order. */
  function Matching(order: seq<Bytes>, prefix: Bytes): (r: seq<Bytes>)
    ensures forall k :: k in r <==> k in order && IsPrefix(prefix, k)
    ensures |r| <= |order|
  {
    if order == [] then []
    else (if IsPrefix(prefix, order[0]) then [order[0]] else []) + Matching(order[1..], prefix)
  }

  /** An order that lists every key of `m` exactly once. */
  ghost predicate Enumerates(order: seq<Bytes>, m: map<Bytes, Bytes>) {
    (forall k :: k in order <==> k in m)
    && forall i, j :: 0 <= i < j < |order| ==> order[i] != order[j]
  }

  class MockDB {
    const kv: map<Bytes, Bytes>

    constructor (kv: map<Bytes, Bytes>)
      ensures this.kv == kv
    {
      this.kv := kv;
    }

    /** The stored value of `key`, or not-found. */
    function Get(key: Bytes): (r: Result<Bytes, DbError>)
      reads this
      ensures r.Success? <==> key in kv
      ensures r.Success? ==> r.value == kv[key]
      ensures r.Failure? ==> r.error == KeyNotFound
    {
      if key in kv then Success(kv[key]) else Failure(KeyNotFound)
    }

    /**
     * The values of `keys` in order; the first missing key ends the call
     * with not-found and no values. An empty key list is no error.
     */
    method GetMany(keys: seq<Bytes>) returns (values: seq<Bytes>, err: Option<DbError>)
      ensures (forall i :: 0 <= i < |keys| ==> keys[i] in kv) ==>
        err == None && |values| == |keys| && forall i :: 0 <= i < |keys| ==> values[i] == kv[keys[i]]
      ensures !(forall i :: 0 <= i < |keys| ==> keys[i] in kv) ==> values == [] && err == Some(KeyNotFound)
    {
      values := [];
      for i := 0 to |keys|
        invariant |values| == i && forall j :: 0 <= j < i ==> keys[j] in kv && values[j] == kv[keys[j]]
      {
        var v := Get(keys[i]);
        if v.Failure? {
          return [], Some(v.error);
        }
        values := values + [v.value];
      }
      err := None;
    }

    /**
     * The entries whose key starts with `prefix`, visited in `order`.
     * With a positive limit the walk stops as soon as that many were
     * taken and reports the limit as reached, whether or not another
     * entry matches; with any other limit it takes every match.
     */
    method GetByPrefix(prefix: Bytes, limit: int, order: seq<Bytes>) returns (values: seq<KV>, limitReached: bool, err: Option<DbError>)
      requires Enumerates(order, kv)
      ensures var found := Matching(order, prefix);
        var n := if 0 < limit < |found| then limit else |found|;
        (n == 0 ==> values == [] && !limitReached && err == Some(KeyNotFound))
        && (n > 0 ==>
              err == None && limitReached == (0 < limit <= |found|) && |values| == n
              && forall i :: 0 <= i < n ==> values[i] == KV(found[i], kv[found[i]]))
    {
      values, limitReached := TakeMatching(prefix, limit, order);
      if |values| == 0 {
        return [], false, Some(KeyNotFound);
      }
      err := None;
    }

    /** The walk of `GetByPrefix`: collect matches until a positive limit is hit. */
    method TakeMatching(prefix: Bytes, limit: int, order: seq<Bytes>) returns (values: seq<KV>, limitReached: bool)
      requires Enumerates(order, kv)
      ensures var found := Matching(order, prefix);
        |values| <= |found| && values == Entries(found[..|values|])
        && (limitReached <==> 0 < limit <= |found|)
        && (limitReached ==> |values| == limit)
        && (!limitReached ==> |values| == |found|)
    {
      values, limitReached := [], false;
      var i := 0;
      while i < |order|
        invariant 0 <= i <= |order| && !limitReached
        invariant values == Entries(Matching(order[..i], prefix))
        invariant limit > 0 ==> |values| < limit
      {
        TakeNext(order, i, prefix);
        var k := order[i];
        i := i + 1;
        if IsPrefix(prefix, k) {
          values := values + [KV(k, kv[k])];
          if |values| == limit {
            limitReached := true;
            break;
          }
        }
      }
      MatchingOfPrefix(order, i, prefix);
    }

    /** One more key of the walk: it is taken exactly when it matches. */
    lemma TakeNext(order: seq<Bytes>, i: nat, prefix: Bytes)
      requires Enumerates(order, kv) && i < |order|
      ensures IsPrefix(prefix, order[i]) ==>
        order[i] in kv
        && Entries(Matching(order[..i + 1], prefix)) == Entries(Matching(order[..i], prefix)) + [KV(order[i], kv[order[i]])]
      ensures !IsPrefix(prefix, order[i]) ==> Matching(order[..i + 1], prefix) == Matching(order[..i], prefix)
    {
      MatchingStep(order, i, prefix);
      var pre := Matching(order[..i], prefix);
      if IsPrefix(prefix, order[i]) {
        assert order[i] in order;
        EntriesSnoc(pre, order[i]);
      } else {
        assert pre + [] == pre;
      }
    }

    lemma EntriesSnoc(keys: seq<Bytes>, k: Bytes)
      requires forall x :: x in keys ==> x in kv
      requires k in kv
      ensures Entries(keys + [k]) == Entries(keys) + [KV(k, kv[k])]
    {
      assert forall x :: x in keys + [k] ==> x in keys || x == k;
    }

    /** The entries of the listed keys, in order. */
    function Entries(keys: seq<Bytes>): (r: seq<KV>)
      reads this
      requires forall k :: k in keys ==> k in kv
      ensures |r| == |keys| && forall i :: 0 <= i < |keys| ==> r[i] == KV(keys[i], kv[keys[i]])
    {
      seq(|keys|, i requires 0 <= i < |keys| => KV(keys[i], kv[keys[i]]))
    }
  }

  lemma {:induction false} MatchingConcat(a: seq<Bytes>, b: seq<Bytes>, prefix: Bytes)
    ensures Matching(a + b, prefix) == Matching(a, prefix) + Matching(b, prefix)
  {
    if a == [] {
      assert a + b == b;
    } else {
      assert (a + b)[0] == a[0] && (a + b)[1..] == a[1..] + b;
      MatchingConcat(a[1..], b, prefix);
    }
  }

  /** The matches among the first `i` keys open the list of all matches. */
  lemma MatchingOfPrefix(order: seq<Bytes>, i: nat, prefix: Bytes)
    requires i <= |order|
    ensures var pre, found := Matching(order[..i], prefix), Matching(order, prefix);
      |pre| <= |found| && found[..|pre|] == pre && (i == |order| ==> pre == found)
  {
    assert order == order[..i] + order[i..];
    MatchingConcat(order[..i], order[i..], prefix);
  }

  /** Splitting the walk after position `i` splits the matches the same way. */
  lemma MatchingStep(order: seq<Bytes>, i: nat, prefix: Bytes)
    requires i < |order|
    ensures Matching(order, prefix) == Matching(order[..i], prefix) + Matching(order[i..], prefix)
    ensures Matching(order[..i + 1], prefix) == Matching(order[..i], prefix) + (if IsPrefix(prefix, order[i]) then [order[i]] else [])
    ensures Matching(order[i..], prefix) == (if IsPrefix(prefix, order[i]) then [order[i]] else []) + Matching(order[i + 1..], prefix)
  {
    assert order == order[..i] + order[i..];
    MatchingConcat(order[..i], order[i..], prefix);
    assert order[..i + 1] == order[..i] + [order[i]];
    MatchingConcat(order[..i], [order[i]], prefix);
    var one: seq<Bytes> := [order[i]];
    assert one[1..] == [];
    assert order[i..][1..] == order[i + 1..];
  }
}
