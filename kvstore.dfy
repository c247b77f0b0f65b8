/**
 * The backing key-value store (kvdb's store.KVStore), which the log only
 * consumes. It is modelled as an ordered map: a list of entries kept
 * strictly increasing by key, so that range and prefix scans yield keys in
 * the store's lexicographic order. A backend that is not `available`
 * answers every call with an I/O error and changes nothing.
 */
module KvStore {
  import opened Bytes
  import opened Wrappers

  datatype Entry = Entry(key: Bytes, value: Bytes)

  datatype StoreError = NotFound | IOError

  ghost predicate Sorted(es: seq<Entry>) {
    forall i, j :: 0 <= i < j < |es| ==> Less(es[i].key, es[j].key)
  }

  /** The map an entry list stands for; an earlier entry wins over a later one with the same key. */
  ghost function MapOf(es: seq<Entry>): map<Bytes, Bytes> {
    if es == [] then map[] else MapOf(es[1..])[es[0].key := es[0].value]
  }

  function Lookup(es: seq<Entry>, key: Bytes): (r: Option<Bytes>)
    ensures r == if key in MapOf(es) then Some(MapOf(es)[key]) else None
  {
    if es == [] then None
    else if es[0].key == key then Some(es[0].value)
    else Lookup(es[1..], key)
  }

  function Filter(es: seq<Entry>, keep: Entry -> bool): (r: seq<Entry>)
    ensures forall e :: e in r <==> e in es && keep(e)
    ensures |r| <= |es|
  {
    if es == [] then []
    else (if keep(es[0]) then [es[0]] else []) + Filter(es[1..], keep)
  }

  /** The entries whose key lies in [lo, hi). */
  function RangeOf(es: seq<Entry>, lo: Bytes, hi: Bytes): seq<Entry> {
    Filter(es, (e: Entry) => InRange(e.key, lo, hi))
  }

  /** The entries whose key starts with `prefix`. */
  function PrefixOf(es: seq<Entry>, prefix: Bytes): seq<Entry> {
    Filter(es, (e: Entry) => IsPrefix(prefix, e.key))
  }

  /** The entries whose key is not in `keys`. */
  function Without(es: seq<Entry>, keys: set<Bytes>): seq<Entry> {
    Filter(es, (e: Entry) => e.key !in keys)
  }

  /** The first `limit` items, or all of them when `limit` is 0 (kvdb's "no limit"). */
  function Take(es: seq<Entry>, limit: nat): (r: seq<Entry>)
    ensures limit == 0 || |es| <= limit ==> r == es
    ensures 0 < limit < |es| ==> r == es[..limit]
  {
    if limit == 0 || |es| <= limit then es else es[..limit]
  }

  function Insert(es: seq<Entry>, key: Bytes, value: Bytes): seq<Entry> {
    if es == [] then [Entry(key, value)]
    else if es[0].key == key then [Entry(key, value)] + es[1..]
    else if Less(key, es[0].key) then [Entry(key, value)] + es
    else [es[0]] + Insert(es[1..], key, value)
  }

  lemma {:induction false} SortedTail(es: seq<Entry>)
    requires Sorted(es) && es != []
    ensures Sorted(es[1..])
    ensures forall e :: e in es[1..] ==> Less(es[0].key, e.key)
  {
  }

  lemma {:induction false} FilterSorted(es: seq<Entry>, keep: Entry -> bool)
    requires Sorted(es)
    ensures Sorted(Filter(es, keep))
  {
    if es != [] {
      SortedTail(es);
      FilterSorted(es[1..], keep);
      var rest := Filter(es[1..], keep);
      assert forall e :: e in rest ==> Less(es[0].key, e.key);
    }
  }

  /** In a sorted list an entry is present exactly when the map says so. */
  lemma {:induction false} EntryInMap(es: seq<Entry>, e: Entry)
    requires Sorted(es)
    ensures e in es <==> e.key in MapOf(es) && MapOf(es)[e.key] == e.value
  {
    if es != [] {
      SortedTail(es);
      EntryInMap(es[1..], e);
      if e.key == es[0].key && e in es[1..] {
        LessIrreflexive(e.key);
      }
    }
  }

  lemma {:induction false} KeysOfMap(es: seq<Entry>, k: Bytes)
    ensures k in MapOf(es) <==> exists e :: e in es && e.key == k
  {
    if es != [] {
      KeysOfMap(es[1..], k);
    }
  }

  lemma {:induction false} InsertKeys(es: seq<Entry>, key: Bytes, value: Bytes)
    ensures forall e :: e in Insert(es, key, value) ==> e.key == key || e in es
  {
    if es != [] && es[0].key != key && !Less(key, es[0].key) {
      InsertKeys(es[1..], key, value);
    }
  }

  lemma {:induction false} InsertMap(es: seq<Entry>, key: Bytes, value: Bytes)
    ensures MapOf(Insert(es, key, value)) == MapOf(es)[key := value]
  {
    if es != [] {
      var r := Insert(es, key, value);
      if es[0].key == key {
        assert r[1..] == es[1..];
      } else if Less(key, es[0].key) {
        assert r[1..] == es;
      } else {
        InsertMap(es[1..], key, value);
        assert r[1..] == Insert(es[1..], key, value);
      }
    }
  }

  lemma {:induction false} InsertSorted(es: seq<Entry>, key: Bytes, value: Bytes)
    requires Sorted(es)
    ensures Sorted(Insert(es, key, value))
  {
    if es != [] {
      SortedTail(es);
      var r := Insert(es, key, value);
      if es[0].key == key {
        assert r[1..] == es[1..];
      } else if Less(key, es[0].key) {
        assert r[1..] == es;
        forall e | e in es ensures Less(key, e.key) {
          if e != es[0] {
            LessTransitive(key, es[0].key, e.key);
          }
        }
      } else {
        LessTotal(key, es[0].key);
        InsertSorted(es[1..], key, value);
        InsertKeys(es[1..], key, value);
        assert r[1..] == Insert(es[1..], key, value);
        assert forall e :: e in r[1..] ==> Less(es[0].key, e.key);
      }
    }
  }

  lemma {:induction false} RemoveCorrect(es: seq<Entry>, keys: set<Bytes>)
    ensures MapOf(Without(es, keys)) == MapOf(es) - keys
  {
    if es != [] {
      RemoveCorrect(es[1..], keys);
      var rest := Without(es[1..], keys);
      if es[0].key in keys {
        assert Without(es, keys) == rest;
      } else {
        assert Without(es, keys) == [es[0]] + rest;
        assert ([es[0]] + rest)[1..] == rest;
      }
    }
  }

  /** What a batched get yields: values of the leading present keys, then NotFound at the first absent one. */
  ghost function BatchGetOf(m: map<Bytes, Bytes>, keys: seq<Bytes>): (seq<Bytes>, Option<StoreError>) {
    if keys == [] then ([], None)
    else if keys[0] !in m then ([], Some(NotFound))
    else
      var rest := BatchGetOf(m, keys[1..]);
      ([m[keys[0]]] + rest.0, rest.1)
  }

  class KVStore {
    var entries: seq<Entry>
    var available: bool

    ghost predicate Valid()
      reads this
    {
      Sorted(entries)
    }

    ghost function Contents(): map<Bytes, Bytes>
      reads this
    {
      MapOf(entries)
    }

    constructor (available: bool)
      ensures Valid() && entries == [] && Contents() == map[] && this.available == available
    {
      entries := [];
      this.available := available;
    }

    method Get(key: Bytes) returns (r: Result<Bytes, StoreError>)
      ensures !available ==> r == Failure(IOError)
      ensures available ==> r == if key in Contents() then Success(Contents()[key]) else Failure(NotFound)
    {
      if !available {
        return Failure(IOError);
      }
      var found := Lookup(entries, key);
      r := if found.Some? then Success(found.value) else Failure(NotFound);
    }

    method Put(key: Bytes, value: Bytes) returns (err: Option<StoreError>)
      requires Valid()
      modifies this
      ensures Valid() && available == old(available)
      ensures err == if available then None else Some(IOError)
      ensures Contents() == if available then old(Contents())[key := value] else old(Contents())
    {
      if !available {
        return Some(IOError);
      }
      InsertSorted(entries, key, value);
      InsertMap(entries, key, value);
      entries := Insert(entries, key, value);
      err := None;
    }

    /** Commits buffered puts; in this model puts are visible at once, so only the failure remains. */
    method FlushPuts() returns (err: Option<StoreError>)
      ensures err == if available then None else Some(IOError)
    {
      err := if available then None else Some(IOError);
    }

    method BatchDelete(keys: seq<Bytes>) returns (err: Option<StoreError>)
      requires Valid()
      modifies this
      ensures Valid() && available == old(available)
      ensures err == if available then None else Some(IOError)
      ensures Contents() == if available then old(Contents()) - (set k | k in keys) else old(Contents())
    {
      if !available {
        return Some(IOError);
      }
      var doomed := set k | k in keys;
      FilterSorted(entries, (e: Entry) => e.key !in doomed);
      RemoveCorrect(entries, doomed);
      entries := Without(entries, doomed);
      err := None;
    }

    method BatchGet(keys: seq<Bytes>) returns (values: seq<Bytes>, err: Option<StoreError>)
      ensures !available ==> values == [] && err == Some(IOError)
      ensures available ==> (values, err) == BatchGetOf(Contents(), keys)
    {
      if !available {
        return [], Some(IOError);
      }
      ghost var m := Contents();
      values, err := [], None;
      var i := 0;
      assert keys[i..] == keys;
      assert values + BatchGetOf(m, keys).0 == BatchGetOf(m, keys).0;
      while i < |keys|
        invariant 0 <= i <= |keys|
        invariant BatchGetOf(m, keys).0 == values + BatchGetOf(m, keys[i..]).0
        invariant BatchGetOf(m, keys).1 == BatchGetOf(m, keys[i..]).1
      {
        var found := Lookup(entries, keys[i]);
        assert keys[i..][0] == keys[i] && keys[i..][1..] == keys[i + 1..];
        if found.None? {
          assert BatchGetOf(m, keys[i..]) == ([], Some(NotFound));
          assert values + [] == values;
          return values, Some(NotFound);
        }
        assert BatchGetOf(m, keys[i..]).0 == [found.value] + BatchGetOf(m, keys[i + 1..]).0;
        assert values + BatchGetOf(m, keys[i..]).0 == (values + [found.value]) + BatchGetOf(m, keys[i + 1..]).0;
        values := values + [found.value];
        i := i + 1;
      }
      assert keys[i..] == [];
      assert values + [] == values;
    }

    method Scan(start: Bytes, exclusiveEnd: Bytes, limit: nat) returns (items: seq<Entry>, err: Option<StoreError>)
      ensures !available ==> items == [] && err == Some(IOError)
      ensures available ==> err == None && items == Take(RangeOf(entries, start, exclusiveEnd), limit)
    {
      if !available {
        return [], Some(IOError);
      }
      items := Take(RangeOf(entries, start, exclusiveEnd), limit);
      err := None;
    }

    method Prefix(prefix: Bytes, limit: nat) returns (items: seq<Entry>, err: Option<StoreError>)
      ensures !available ==> items == [] && err == Some(IOError)
      ensures available ==> err == None && items == Take(PrefixOf(entries, prefix), limit)
    {
      if !available {
        return [], Some(IOError);
      }
      items := Take(PrefixOf(entries, prefix), limit);
      err := None;
    }
  }
}
