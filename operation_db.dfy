/**
 * The reorg-aware operation log (db/db.go, db/cursor.go): a buffer of
 * pending operations in front of the backing store, the per-block undo
 * records, and the checkpoint cursor.
 */
module OperationLog {
  import opened Bytes
  import opened Keys
  import opened Wrappers
  import opened KvStore
  import opened Operations
  import opened Codec
  import opened Cursors

  datatype DbError =
    | StoreFailure(cause: StoreError)
    | KeyNotFound
    | InvalidArguments
    | CursorNotFound
    | MalformedCursor
    | InvalidOperationType(opType: nat)
    | Undecodable(reason: CodecError)

  /** A store error as the operation log reports it. */
  function Wrap(e: Option<StoreError>): Option<DbError> {
    match e
    case None => None
    case Some(cause) => Some(StoreFailure(cause))
  }

  /** The fork step a block arrives with. */
  datatype Step = StepNew | StepUndo | StepIrreversible | StepNewIrreversible

  /** A key/value pair returned by the read path, with the user-key tag removed. */
  datatype KV = KV(key: Bytes, value: Bytes)

  predicate DistinctKeys(ops: seq<KVOperation>) {
    forall i, j :: 0 <= i < j < |ops| ==> ops[i].key != ops[j].key
  }

  predicate Distinct(xs: seq<Bytes>) {
    forall i, j :: 0 <= i < j < |xs| ==> xs[i] != xs[j]
  }

  /** The last operation on `k` exists and is a Set or a Delete. */
  predicate EffectiveOn(ops: seq<KVOperation>, k: Bytes) {
    LastOn(ops, k).Some? && Recognised(LastOn(ops, k).value)
  }

  /** The keys a flush writes or deletes. */
  function EffectiveKeys(ops: seq<KVOperation>): set<Bytes> {
    set k | k in KeysOf(ops) && EffectiveOn(ops, k)
  }

  /** The puts applied one after another. */
  function PutAll(s: map<Bytes, Bytes>, puts: seq<KVOperation>): map<Bytes, Bytes> {
    if puts == [] then s
    else PutAll(s, puts[..|puts| - 1])[UserKey(puts[|puts| - 1].key) := puts[|puts| - 1].value]
  }

  lemma {:induction false} PutAllCell(s: map<Bytes, Bytes>, puts: seq<KVOperation>, x: Bytes)
    requires DistinctKeys(puts)
    ensures forall p :: p in puts && UserKey(p.key) == x ==> CellOf(PutAll(s, puts), x) == Some(p.value)
    ensures (forall p :: p in puts ==> UserKey(p.key) != x) ==> CellOf(PutAll(s, puts), x) == CellOf(s, x)
  {
    if puts != [] {
      var init, last := puts[..|puts| - 1], puts[|puts| - 1];
      assert puts == init + [last];
      PutAllCell(s, init, x);
      if UserKey(last.key) == x {
        forall p | p in init ensures UserKey(p.key) != x {
          PutBeforeLast(puts, p);
        }
      }
    }
  }

  /** No put before the last one shares its user key. */
  lemma PutBeforeLast(puts: seq<KVOperation>, p: KVOperation)
    requires DistinctKeys(puts) && puts != [] && p in puts[..|puts| - 1]
    ensures UserKey(p.key) != UserKey(puts[|puts| - 1].key)
  {
    var i :| 0 <= i < |puts| - 1 && puts[i] == p;
    assert UserKey(p.key)[1..] == p.key;
  }

  /** Every cell after the puts and the deletes is the cell the last-write-wins commit gives. */
  lemma FlushCell(s: map<Bytes, Bytes>, ops: seq<KVOperation>, puts: seq<KVOperation>, deletes: seq<Bytes>, x: Bytes)
    requires forall p :: p in puts <==> p in ops && p.opType == SET && LastOn(ops, p.key) == Some(p)
    requires forall k :: UserKey(k) in deletes <==> LastOn(ops, k).Some? && LastOn(ops, k).value.opType == DELETE
    requires forall d :: d in deletes ==> InUserSpace(d)
    requires DistinctKeys(puts)
    ensures CellOf(PutAll(s, puts) - (set d | d in deletes), x) == CellOf(Commit(s, ops), x)
  {
    CommitCell(s, ops, x);
    PutAllCell(s, puts, x);
    if InUserSpace(x) {
      var k := x[1..];
      assert UserKey(k) == x;
      match LastOn(ops, k)
      case None =>
        assert forall p :: p in puts ==> UserKey(p.key) != x;
      case Some(o) =>
        if o.opType == SET {
          assert o in puts;
        } else {
          assert forall p :: p in puts ==> UserKey(p.key) != x;
        }
    } else {
      assert forall p :: p in puts ==> UserKey(p.key) != x;
    }
  }

  /** The keys among `keys` that a flush of `ops` writes or deletes. */
  function EffectiveAmong(ops: seq<KVOperation>, keys: seq<Bytes>): set<Bytes> {
    set k | k in keys && EffectiveOn(ops, k)
  }

  lemma EffectiveAmongStep(ops: seq<KVOperation>, keys: seq<Bytes>, j: nat)
    requires j < |keys| && Distinct(keys)
    ensures keys[j] !in keys[..j]
    ensures |EffectiveAmong(ops, keys[..j + 1])| == |EffectiveAmong(ops, keys[..j])| + if EffectiveOn(ops, keys[j]) then 1 else 0
  {
    assert keys[..j + 1] == keys[..j] + [keys[j]];
    if EffectiveOn(ops, keys[j]) {
      assert EffectiveAmong(ops, keys[..j + 1]) == EffectiveAmong(ops, keys[..j]) + {keys[j]};
    } else {
      assert EffectiveAmong(ops, keys[..j + 1]) == EffectiveAmong(ops, keys[..j]);
    }
  }

  /** The keys of one more operation are the keys before it and its own. */
  lemma KeysOfSnoc(ops: seq<KVOperation>, i: nat)
    requires i < |ops|
    ensures KeysOf(ops[..i + 1]) == KeysOf(ops[..i]) + {ops[i].key}
  {
    assert ops[..i + 1] == ops[..i] + [ops[i]];
    assert ops[i] in ops[..i + 1];
    forall o | o in ops[..i] ensures o in ops[..i + 1] {
    }
  }

  /** The last operation on a key, once `ops[i]` is appended. */
  lemma LastOnSnoc(ops: seq<KVOperation>, i: nat, k: Bytes)
    requires i < |ops|
    ensures LastOn(ops[..i + 1], k) == if ops[i].key == k then Some(ops[i]) else LastOn(ops[..i], k)
  {
    assert ops[..i + 1] == ops[..i] + [ops[i]];
    LastOnConcat(ops[..i], [ops[i]], k);
    assert [ops[i]][..0] == [];
  }

  /** One step of the grouping loop: appending `ops[i]` to its key's group keeps the groups' last operations right. */
  lemma GroupStep(ops: seq<KVOperation>, i: nat, before: map<Bytes, seq<KVOperation>>, after: map<Bytes, seq<KVOperation>>)
    requires i < |ops|
    requires before.Keys == KeysOf(ops[..i])
    requires forall k :: k in before ==> before[k] != [] && LastOn(ops[..i], k) == Some(before[k][|before[k]| - 1])
    requires after == before[ops[i].key := (if ops[i].key in before then before[ops[i].key] else []) + [ops[i]]]
    ensures after.Keys == KeysOf(ops[..i + 1])
    ensures forall k :: k in after ==> after[k] != [] && LastOn(ops[..i + 1], k) == Some(after[k][|after[k]| - 1])
  {
    KeysOfSnoc(ops, i);
    var key := ops[i].key;
    forall k | k in after ensures after[k] != [] && LastOn(ops[..i + 1], k) == Some(after[k][|after[k]| - 1]) {
      LastOnSnoc(ops, i, k);
      if k == key {
        var g := after[k];
        assert g[|g| - 1] == ops[i];
      } else {
        assert after[k] == before[k];
      }
    }
  }

  /** What the selection loop of `LastOperationPerKey` has produced after the first `j` keys. */
  ghost predicate SelectedUpTo(ops: seq<KVOperation>, order: seq<Bytes>, j: nat, puts: seq<KVOperation>, deletes: seq<Bytes>)
    requires j <= |order|
  {
    && (forall p :: p in puts <==> p.key in order[..j] && p.opType == SET && LastOn(ops, p.key) == Some(p))
    && (forall k :: UserKey(k) in deletes <==> k in order[..j] && LastOn(ops, k).Some? && LastOn(ops, k).value.opType == DELETE)
    && (forall d :: d in deletes ==> InUserSpace(d) && d[1..] in order[..j])
    && DistinctKeys(puts) && Distinct(deletes)
    && |puts| + |deletes| == |EffectiveAmong(ops, order[..j])|
  }

  /** Before the selection loop nothing is selected. */
  lemma SelectedNone(ops: seq<KVOperation>, order: seq<Bytes>)
    ensures SelectedUpTo(ops, order, 0, [], [])
  {
    assert order[..0] == [];
    assert EffectiveAmong(ops, []) == {};
  }

  /** The selection loop keeps a key whose last operation is a Set as a put. */
  lemma SelectSet(ops: seq<KVOperation>, order: seq<Bytes>, j: nat, puts: seq<KVOperation>, deletes: seq<Bytes>)
    requires j < |order| && Distinct(order) && SelectedUpTo(ops, order, j, puts, deletes)
    requires LastOn(ops, order[j]).Some? && LastOn(ops, order[j]).value.opType == SET
    ensures SelectedUpTo(ops, order, j + 1, puts + [LastOn(ops, order[j]).value], deletes)
  {
    var key, o := order[j], LastOn(ops, order[j]).value;
    LastOnIsLast(ops, key);
    EffectiveAmongStep(ops, order, j);
    assert order[..j + 1] == order[..j] + [key];
    forall i | 0 <= i < |puts| ensures puts[i].key != key {
      assert puts[i] in puts;
    }
  }

  /** The selection loop keeps a key whose last operation is a Delete as a user key to delete. */
  lemma SelectDelete(ops: seq<KVOperation>, order: seq<Bytes>, j: nat, puts: seq<KVOperation>, deletes: seq<Bytes>)
    requires j < |order| && Distinct(order) && SelectedUpTo(ops, order, j, puts, deletes)
    requires LastOn(ops, order[j]).Some? && LastOn(ops, order[j]).value.opType == DELETE
    ensures SelectedUpTo(ops, order, j + 1, puts, deletes + [UserKey(order[j])])
  {
    var key := order[j];
    EffectiveAmongStep(ops, order, j);
    assert order[..j + 1] == order[..j] + [key];
    assert UserKey(key)[1..] == key;
    forall k | UserKey(k) == UserKey(key) ensures k == key {
      assert UserKey(k)[1..] == k;
    }
    forall i | 0 <= i < |deletes| ensures deletes[i] != UserKey(key) {
      assert deletes[i] in deletes;
    }
  }

  /** The selection loop drops a key whose last operation is neither a Set nor a Delete. */
  lemma SelectOther(ops: seq<KVOperation>, order: seq<Bytes>, j: nat, puts: seq<KVOperation>, deletes: seq<Bytes>)
    requires j < |order| && Distinct(order) && SelectedUpTo(ops, order, j, puts, deletes)
    requires LastOn(ops, order[j]).Some? && !Recognised(LastOn(ops, order[j]).value)
    ensures SelectedUpTo(ops, order, j + 1, puts, deletes)
  {
    var key := order[j];
    EffectiveAmongStep(ops, order, j);
    assert order[..j + 1] == order[..j] + [key];
  }

  lemma SelectedAll(ops: seq<KVOperation>, order: seq<Bytes>, puts: seq<KVOperation>, deletes: seq<Bytes>)
    requires forall k :: k in order <==> k in KeysOf(ops)
    requires SelectedUpTo(ops, order, |order|, puts, deletes)
    ensures forall p :: p in puts <==> p in ops && p.opType == SET && LastOn(ops, p.key) == Some(p)
    ensures forall k :: UserKey(k) in deletes <==> LastOn(ops, k).Some? && LastOn(ops, k).value.opType == DELETE
    ensures forall d :: d in deletes ==> InUserSpace(d)
    ensures DistinctKeys(puts) && Distinct(deletes)
    ensures |puts| + |deletes| == |EffectiveKeys(ops)|
  {
    assert order[..|order|] == order;
    forall k ensures LastOn(ops, k).Some? ==> k in order {
      LastOnIsLast(ops, k);
    }
    forall p | p in ops ensures p.key in order {
      assert p.key in KeysOf(ops);
    }
    assert EffectiveAmong(ops, order) == EffectiveKeys(ops);
  }

  /** The position of the first operation that is neither a Set nor a Delete. */
  function FirstUnrecognised(ops: seq<KVOperation>): (i: nat)
    requires !AllRecognised(ops)
    ensures i < |ops| && !Recognised(ops[i]) && AllRecognised(ops[..i])
  {
    if !Recognised(ops[0]) then 0
    else
      var j := FirstUnrecognised(ops[1..]);
      assert forall o :: o in ops[..j + 1] ==> o == ops[0] || o in ops[1..][..j];
      j + 1
  }

  lemma FirstUnrecognisedUnique(ops: seq<KVOperation>, i: nat)
    requires i < |ops| && !Recognised(ops[i]) && AllRecognised(ops[..i])
    ensures !AllRecognised(ops) && FirstUnrecognised(ops) == i
  {
    assert ops[i] in ops;
  }

  /**
   * The undo batch of a block against the committed store `s`: the inverse
   * of every operation, newest first, or the type of the first operation
   * that has no inverse.
   */
  function UndoOperations(s: map<Bytes, Bytes>, ops: seq<KVOperation>): Result<seq<KVOperation>, DbError> {
    if AllRecognised(ops) then Success(InverseBatch(s, ops))
    else Failure(InvalidOperationType(ops[FirstUnrecognised(ops)].opType))
  }

  /** A sequence that holds the inverse of each operation in reverse order is the inverse batch. */
  lemma InverseBatchIndexed(s: map<Bytes, Bytes>, ops: seq<KVOperation>, undo: seq<KVOperation>)
    requires AllRecognised(ops) && |undo| == |ops|
    requires forall j :: 0 <= j < |ops| ==> undo[|ops| - 1 - j] == InverseOf(ops[j], CellOf(s, UserKey(ops[j].key)))
    ensures undo == InverseBatch(s, ops)
  {
    var r := InverseBatch(s, ops);
    InverseBatchAt(s, ops);
    forall t | 0 <= t < |r| ensures undo[t] == r[t] {
      var j := |ops| - 1 - t;
      assert undo[|ops| - 1 - j] == InverseOf(ops[j], CellOf(s, UserKey(ops[j].key)));
      assert r[|ops| - 1 - j] == InverseOf(ops[j], CellOf(s, UserKey(ops[j].key)));
    }
  }

  /**
   * generateUndoOperations as written: every lookup error ends the
   * generation, the not-found error of a fresh key included, so a key is
   * only ever treated as present.
   */
  function UndoOperationsAsWritten(s: map<Bytes, Bytes>, ops: seq<KVOperation>): (r: Result<seq<KVOperation>, DbError>)
    ensures r.Success? ==> forall o :: o in ops ==> UserKey(o.key) in s
    ensures r.Success? ==> forall u :: u in r.value ==> u.opType == SET
  {
    if ops == [] then Success([])
    else if UserKey(ops[0].key) !in s then Failure(StoreFailure(KvStore.NotFound))
    else if !Recognised(ops[0]) then Failure(InvalidOperationType(ops[0].opType))
    else
      match UndoOperationsAsWritten(s, ops[1..])
      case Failure(e) => Failure(e)
      case Success(rest) =>
        assert forall o :: o in ops ==> o == ops[0] || o in ops[1..];
        Success(rest + [InverseOf(ops[0], Some(s[UserKey(ops[0].key)]))])
  }

  /** A Set of a fresh key: the written generation fails where the intended one yields the Delete that undoes it. */
  lemma FreshSetHasNoUndo()
    ensures var op := KVOperation([1], [2], 0, SET);
            UndoOperationsAsWritten(map[], [op]) == Failure(StoreFailure(KvStore.NotFound))
            && UndoOperations(map[], [op]) == Success([KVOperation([1], [2], 0, DELETE)])
  {
    var op := KVOperation([1], [2], 0, SET);
    assert CellOf(map[], UserKey([1])) == None;
    var r := InverseBatch(map[], [op]);
    assert |r| == 1 && r[0] == InverseOf(op, None);
    assert r == [r[0]];
  }

  /** The keys "key.2" and "key.3" and the values "value.2", "value.3" and "value.4", as bytes. */
  const Key2: Bytes := [107, 101, 121, 46, 50]
  const Value2: Bytes := [118, 97, 108, 117, 101, 46, 50]
  const Key3: Bytes := [107, 101, 121, 46, 51]
  const Value3: Bytes := [118, 97, 108, 117, 101, 46, 51]
  const Value4: Bytes := [118, 97, 108, 117, 101, 46, 52]

  /** The undo batch of a one-operation block is the inverse of that operation against its committed cell. */
  lemma UndoOfSingle(s: map<Bytes, Bytes>, op: KVOperation)
    requires Recognised(op)
    ensures UndoOperations(s, [op]) == Success([InverseOf(op, CellOf(s, UserKey(op.key)))])
  {
    assert AllRecognised([op]);
    var r := InverseBatch(s, [op]);
    assert [op][1..] == [];
    assert r == InverseBatch(s, []) + [InverseOf(op, CellOf(s, UserKey(op.key)))];
    assert r == [InverseOf(op, CellOf(s, UserKey(op.key)))];
  }

  /** A flush of a single Set leaves its value in the key's cell. */
  lemma CommitSingleSet(s0: map<Bytes, Bytes>, k: Bytes, v: Bytes)
    ensures CellOf(Commit(s0, [KVOperation(k, v, 0, SET)]), UserKey(k)) == Some(v)
  {
    var prev := [KVOperation(k, v, 0, SET)];
    CommitCell(s0, prev, UserKey(k));
    UserKeyRoundTrip(k);
    assert UserKey(k)[1..] == k;
    assert LastOn(prev, k) == Some(prev[0]);
  }

  /**
   * The "sunny path" case: a Set of key.3 on a store that does not hold
   * key.3 stores a Delete carrying value.3, as these twenty bytes.
   */
  lemma StoredInverseOfFreshSet(s: map<Bytes, Bytes>)
    requires UserKey(Key3) !in s
    ensures var u := UndoOperations(s, [KVOperation(Key3, Value3, 0, SET)]);
            u == Success([KVOperation(Key3, Value3, 0, DELETE)])
            && EncodeOperations(u.value)
               == [10, 18, 10, 5, 107, 101, 121, 46, 51, 18, 7, 118, 97, 108, 117, 101, 46, 51, 32, 2]
  {
    UndoOfSingle(s, KVOperation(Key3, Value3, 0, SET));
    EncodeSingle(KVOperation(Key3, Value3, 0, DELETE));
    SingleLayout(Key3, Value3, DELETE);
  }

  /**
   * A Set of key.3 after a flush that set key.3 to value.4 stores a Set
   * restoring value.4, as these twenty bytes.
   */
  lemma StoredInverseOfOverwrite(s0: map<Bytes, Bytes>)
    ensures var u := UndoOperations(Commit(s0, [KVOperation(Key3, Value4, 0, SET)]), [KVOperation(Key3, Value3, 0, SET)]);
            u == Success([KVOperation(Key3, Value4, 0, SET)])
            && EncodeOperations(u.value)
               == [10, 18, 10, 5, 107, 101, 121, 46, 51, 18, 7, 118, 97, 108, 117, 101, 46, 52, 32, 1]
  {
    var s := Commit(s0, [KVOperation(Key3, Value4, 0, SET)]);
    CommitSingleSet(s0, Key3, Value4);
    UndoOfSingle(s, KVOperation(Key3, Value3, 0, SET));
    EncodeSingle(KVOperation(Key3, Value4, 0, SET));
    SingleLayout(Key3, Value4, SET);
  }

  /** A Delete of key.2 on a store that does not hold key.2 stores one empty entry, the bytes 10 0. */
  lemma StoredInverseOfAbsentDelete(s: map<Bytes, Bytes>)
    requires UserKey(Key2) !in s
    ensures var u := UndoOperations(s, [KVOperation(Key2, Value2, 0, DELETE)]);
            u == Success([EmptyOp]) && EncodeOperations(u.value) == [10, 0]
  {
    UndoOfSingle(s, KVOperation(Key2, Value2, 0, DELETE));
    assert EncodeOperation(EmptyOp) == [];
    assert [EmptyOp][1..] == [];
  }

  /**
   * A Delete of key.3 after a flush that set key.3 to value.3 stores a Set
   * of the value the Delete carries, as these twenty bytes.
   */
  lemma StoredInverseOfDelete(s0: map<Bytes, Bytes>)
    ensures var u := UndoOperations(Commit(s0, [KVOperation(Key3, Value3, 0, SET)]), [KVOperation(Key3, Value3, 0, DELETE)]);
            u == Success([KVOperation(Key3, Value3, 0, SET)])
            && EncodeOperations(u.value)
               == [10, 18, 10, 5, 107, 101, 121, 46, 51, 18, 7, 118, 97, 108, 117, 101, 46, 51, 32, 1]
  {
    var s := Commit(s0, [KVOperation(Key3, Value3, 0, SET)]);
    CommitSingleSet(s0, Key3, Value3);
    UndoOfSingle(s, KVOperation(Key3, Value3, 0, DELETE));
    EncodeSingle(KVOperation(Key3, Value3, 0, SET));
    SingleLayout(Key3, Value3, SET);
  }

  /** The store keys in [lo, hi). */
  function RangeKeys(m: map<Bytes, Bytes>, lo: Bytes, hi: Bytes): set<Bytes> {
    set x | x in m && InRange(x, lo, hi)
  }

  lemma RangeOfKeys(es: seq<Entry>, lo: Bytes, hi: Bytes)
    requires Sorted(es)
    ensures (set e | e in RangeOf(es, lo, hi) :: e.key) == RangeKeys(MapOf(es), lo, hi)
  {
    forall x ensures x in (set e | e in RangeOf(es, lo, hi) :: e.key) <==> x in RangeKeys(MapOf(es), lo, hi) {
      KeysOfMap(es, x);
      if x in MapOf(es) && InRange(x, lo, hi) {
        EntryInMap(es, Entry(x, MapOf(es)[x]));
        assert Entry(x, MapOf(es)[x]) in RangeOf(es, lo, hi);
      }
    }
  }

  /** The store once the undo records of blocks 1 to `finalBlockHeight` are removed. */
  function Purged(m: map<Bytes, Bytes>, finalBlockHeight: uint64): map<Bytes, Bytes> {
    m - RangeKeys(m, UndoKey(finalBlockHeight), UndoKey(0))
  }

  /**
   * On a store of well-formed keys, purging removes exactly the undo
   * records of blocks 1 to `finalBlockHeight`; user data, cursors and the
   * record of block 0 stay.
   */
  lemma PurgeCorrect(m: map<Bytes, Bytes>, finalBlockHeight: uint64, x: Bytes)
    requires forall y :: y in m ==> WellFormedKey(y)
    ensures x in Purged(m, finalBlockHeight) <==>
      x in m && !(IsUndoKey(x) && 1 <= UndoBlock(x) <= finalBlockHeight)
    ensures x in Purged(m, finalBlockHeight) ==> Purged(m, finalBlockHeight)[x] == m[x]
  {
    if x in m && IsUndoKey(x) {
      UndoKeyOfUndoBlock(x);
      PurgeRange(finalBlockHeight, UndoBlock(x));
    }
    if x in m && InRange(x, UndoKey(finalBlockHeight), UndoKey(0)) {
      UndoRangeHoldsOnlyUndoKeys(x, finalBlockHeight, 0);
    }
  }

  /** How a stored or emitted operations message is unmarshalled. */
  type Unmarshal = Bytes -> Result<seq<KVOperation>, CodecError>

  /** Every undo record decoded. */
  function Batches(items: seq<Entry>, unmarshal: Unmarshal): (r: seq<Result<seq<KVOperation>, CodecError>>)
    ensures |r| == |items|
  {
    seq(|items|, i requires 0 <= i < |items| => unmarshal(items[i].value))
  }

  /**
   * The operations decoded batches add when replayed in order, and the
   * decoding error that stops the replay, if any; batches after a failed
   * one are not read.
   */
  function ReplayBatches(batches: seq<Result<seq<KVOperation>, CodecError>>): (seq<KVOperation>, Option<CodecError>) {
    if batches == [] then ([], None)
    else
      var prev := ReplayBatches(batches[..|batches| - 1]);
      if prev.1.Some? then prev
      else match batches[|batches| - 1]
        case Failure(e) => (prev.0, Some(e))
        case Success(ops) => (prev.0 + ops, None)
  }

  /** The replay of the scanned undo records. */
  function ReplayOf(items: seq<Entry>): (seq<KVOperation>, Option<CodecError>) {
    ReplayBatches(Batches(items, DecodeOperations))
  }

  lemma ReplayBatchStep(batches: seq<Result<seq<KVOperation>, CodecError>>, i: nat)
    requires i < |batches| && ReplayBatches(batches[..i]).1 == None
    ensures batches[i].Success? ==>
      ReplayBatches(batches[..i + 1]) == (ReplayBatches(batches[..i]).0 + batches[i].value, None)
    ensures batches[i].Failure? ==>
      ReplayBatches(batches[..i + 1]) == (ReplayBatches(batches[..i]).0, Some(batches[i].error))
  {
    assert batches[..i + 1][..i] == batches[..i];
  }

  lemma ReplayOfLast(items: seq<Entry>)
    requires items != []
    ensures var prev := ReplayOf(items[..|items| - 1]);
      ReplayOf(items) ==
        if prev.1.Some? then prev
        else match DecodeOperations(items[|items| - 1].value)
          case Failure(e) => (prev.0, Some(e))
          case Success(ops) => (prev.0 + ops, None)
  {
    assert Batches(items, DecodeOperations)[..|items| - 1] == Batches(items[..|items| - 1], DecodeOperations);
  }

  lemma {:induction false} ReplayErrorSticks(batches: seq<Result<seq<KVOperation>, CodecError>>, n: nat)
    requires n <= |batches| && ReplayBatches(batches[..n]).1.Some?
    ensures ReplayBatches(batches) == ReplayBatches(batches[..n])
    decreases |batches| - n
  {
    if n < |batches| {
      assert batches[..n + 1][..n] == batches[..n];
      ReplayErrorSticks(batches, n + 1);
    } else {
      assert batches[..n] == batches;
    }
  }

  /**
   * The scan of the replay range on a store of well-formed keys yields
   * exactly the undo records of the blocks after `lastValidBlock`, newest
   * block first.
   */
  lemma ReplayFeedsNewestFirst(es: seq<Entry>, lastValidBlock: uint64)
    requires Sorted(es) && forall e :: e in es ==> WellFormedKey(e.key)
    ensures var items := RangeOf(es, UndoKey(MaxUint64), UndoKey(lastValidBlock));
      && (forall e :: e in items ==> IsUndoKey(e.key) && UndoBlock(e.key) > lastValidBlock)
      && (forall e :: e in es && IsUndoKey(e.key) && UndoBlock(e.key) > lastValidBlock ==> e in items)
      && (forall i, j :: 0 <= i < j < |items| ==> UndoBlock(items[i].key) > UndoBlock(items[j].key))
  {
    var items := RangeOf(es, UndoKey(MaxUint64), UndoKey(lastValidBlock));
    forall e | e in items ensures IsUndoKey(e.key) && UndoBlock(e.key) > lastValidBlock {
      UndoRangeHoldsOnlyUndoKeys(e.key, MaxUint64, lastValidBlock);
      UndoKeyOfUndoBlock(e.key);
      ReplayRange(lastValidBlock, UndoBlock(e.key));
    }
    forall e | e in es && IsUndoKey(e.key) && UndoBlock(e.key) > lastValidBlock ensures e in items {
      UndoKeyOfUndoBlock(e.key);
      ReplayRange(lastValidBlock, UndoBlock(e.key));
    }
    FilterSorted(es, (e: Entry) => InRange(e.key, UndoKey(MaxUint64), UndoKey(lastValidBlock)));
    forall i, j | 0 <= i < j < |items| ensures UndoBlock(items[i].key) > UndoBlock(items[j].key) {
      assert items[i] in items && items[j] in items;
      UndoKeyOfUndoBlock(items[i].key);
      UndoKeyOfUndoBlock(items[j].key);
      UndoKeyOrder(UndoBlock(items[i].key), UndoBlock(items[j].key));
    }
  }

  /**
   * The undo records a sequence of blocks leaves behind, newest block first:
   * each block's inverse batch against the store it was applied to,
   * encoded.
   */
  function Records(s: map<Bytes, Bytes>, blocks: seq<seq<KVOperation>>): (r: seq<Bytes>)
    requires forall b :: b in blocks ==> AllRecognised(b)
    ensures |r| == |blocks|
    decreases |blocks|
  {
    if blocks == [] then []
    else
      assert forall b :: b in blocks[1..] ==> b in blocks;
      Records(Commit(s, blocks[0]), blocks[1..]) + [EncodeOperations(InverseBatch(s, blocks[0]))]
  }

  /** The scanned entries hold the records of the sequence, in scan order. */
  predicate RecordsOf(s: map<Bytes, Bytes>, blocks: seq<seq<KVOperation>>, items: seq<Entry>)
    requires forall b :: b in blocks ==> AllRecognised(b)
  {
    |items| == |blocks| && forall i :: 0 <= i < |items| ==> items[i].value == Records(s, blocks)[i]
  }

  lemma RecordsOfSplit(s: map<Bytes, Bytes>, blocks: seq<seq<KVOperation>>, items: seq<Entry>)
    requires blocks != [] && forall b :: b in blocks ==> AllRecognised(b)
    requires RecordsOf(s, blocks, items)
    ensures forall b :: b in blocks[1..] ==> AllRecognised(b)
    ensures RecordsOf(Commit(s, blocks[0]), blocks[1..], items[..|items| - 1])
    ensures items[|items| - 1].value == EncodeOperations(InverseBatch(s, blocks[0]))
  {
    var n := |blocks|;
    assert forall b :: b in blocks[1..] ==> b in blocks;
    var older := Records(Commit(s, blocks[0]), blocks[1..]);
    assert Records(s, blocks) == older + [EncodeOperations(InverseBatch(s, blocks[0]))];
    assert forall i :: 0 <= i < n - 1 ==> items[..n - 1][i].value == older[i];
  }

  /** Replaying the records a sequence of blocks stored, newest block first, yields the chain's undo log. */
  lemma {:induction false} ReplayedUndoLog(s: map<Bytes, Bytes>, blocks: seq<seq<KVOperation>>, items: seq<Entry>)
    requires ValidChain(s, blocks)
    requires forall b :: b in blocks ==> AllRecognised(b)
    requires RecordsOf(s, blocks, items)
    ensures ReplayOf(items) == (UndoLog(s, blocks), None)
    decreases |blocks|
  {
    if blocks != [] {
      var n := |blocks|;
      RecordsOfSplit(s, blocks, items);
      ReplayedUndoLog(Commit(s, blocks[0]), blocks[1..], items[..n - 1]);
      OperationsRoundTrip(InverseBatch(s, blocks[0]));
      ReplayOfLast(items);
    }
  }

  /** Replaying those records after the sequence takes the store back to where it started. */
  lemma ReplayRestores(s: map<Bytes, Bytes>, blocks: seq<seq<KVOperation>>, items: seq<Entry>)
    requires ValidChain(s, blocks)
    requires forall b :: b in blocks ==> AllRecognised(b)
    requires RecordsOf(s, blocks, items)
    ensures ReplayOf(items).1 == None
    ensures Commit(After(s, blocks), ReplayOf(items).0) == s
  {
    ReplayedUndoLog(s, blocks, items);
    ReorgRestores(s, blocks);
  }

  /** A stored user entry as the read path returns it: the key without its tag. */
  function KVOf(e: Entry): KV
    requires |e.key| >= 1
  {
    KV(FromUserKey(e.key), e.value)
  }

  predicate AllKeyed(es: seq<Entry>) {
    forall e :: e in es ==> |e.key| >= 1
  }

  function AsKVs(es: seq<Entry>): (r: seq<KV>)
    requires AllKeyed(es)
    ensures |r| == |es| && forall i :: 0 <= i < |es| ==> r[i] == KVOf(es[i])
  {
    if es == [] then [] else [KVOf(es[0])] + AsKVs(es[1..])
  }

  function Min(a: int, b: int): int {
    if a <= b then a else b
  }

  predicate IsUserEntry(e: Entry) {
    IsUserKey(e.key)
  }

  /** The entries whose key is a user key. */
  function UserEntries(es: seq<Entry>): (r: seq<Entry>)
    ensures AllKeyed(r)
  {
    Filter(es, IsUserEntry)
  }

  lemma {:induction false} FilterConcat(a: seq<Entry>, b: seq<Entry>, keep: Entry -> bool)
    ensures Filter(a + b, keep) == Filter(a, keep) + Filter(b, keep)
  {
    if a == [] {
      assert a + b == b;
    } else {
      assert (a + b)[0] == a[0] && (a + b)[1..] == a[1..] + b;
      FilterConcat(a[1..], b, keep);
    }
  }

  lemma UserEntriesStep(es: seq<Entry>, i: nat)
    requires i < |es|
    ensures UserEntries(es[..i + 1]) == UserEntries(es[..i]) + if IsUserKey(es[i].key) then [es[i]] else []
  {
    assert es[..i + 1] == es[..i] + [es[i]];
    FilterConcat(es[..i], [es[i]], IsUserEntry);
    assert [es[i]][1..] == [];
  }

  lemma UserEntriesPrefix(es: seq<Entry>, i: nat)
    requires i <= |es|
    ensures UserEntries(es) == UserEntries(es[..i]) + UserEntries(es[i..])
  {
    assert es == es[..i] + es[i..];
    FilterConcat(es[..i], es[i..], IsUserEntry);
  }

  /**
   * What the scan loop returns from the entries the store handed it: the
   * user entries, at most `limit` of them, and whether a further user
   * entry came after them.
   */
  function ScanResult(items: seq<Entry>, limit: nat): (seq<KV>, bool) {
    (AsKVs(UserEntries(items)[..Min(|UserEntries(items)|, limit)]), |UserEntries(items)| > limit)
  }

  /** Every non-user entry comes after every user entry. */
  predicate UsersFirst(es: seq<Entry>) {
    forall i, j :: 0 <= i < j < |es| && IsUserKey(es[j].key) ==> IsUserKey(es[i].key)
  }

  /** When user entries come first, the user entries among the first `m` entries are the first user entries. */
  lemma UsersFirstTake(es: seq<Entry>, m: nat)
    requires UsersFirst(es) && m <= |es|
    ensures UserEntries(es[..m]) == UserEntries(es)[..Min(|UserEntries(es)|, m)]
  {
    UserEntriesPrefix(es, m);
    if m < |es| && IsUserKey(es[m].key) {
      UsersBefore(es, m);
    } else if forall j :: 0 <= j < m ==> IsUserKey(es[j].key) {
      AllUsersUpTo(es, m);
      NoUsersFrom(es, m);
    } else {
      var j :| 0 <= j < m && !IsUserKey(es[j].key);
      NoUsersFrom(es, j);
      UserEntriesPrefix(es, j);
      UserEntriesPrefix(es[..m], j);
      assert es[..m][..j] == es[..j];
      assert es[..m][j..] == es[j..m];
      NoUsersBetween(es, j, m);
    }
  }

  /** Before a user entry every entry is a user entry. */
  lemma UsersBefore(es: seq<Entry>, m: nat)
    requires UsersFirst(es) && m < |es| && IsUserKey(es[m].key)
    ensures UserEntries(es[..m]) == es[..m]
  {
    AllUsersUpTo(es, m);
  }

  lemma AllUsersUpTo(es: seq<Entry>, m: nat)
    requires m <= |es| && forall j :: 0 <= j < m ==> IsUserKey(es[j].key)
    ensures UserEntries(es[..m]) == es[..m]
  {
    forall e | e in es[..m] ensures IsUserEntry(e) {
      var k :| 0 <= k < m && es[..m][k] == e;
      assert es[k] == e;
    }
    FilterAll(es[..m], IsUserEntry);
  }

  /** From an entry that is not a user entry on, no user entry follows. */
  lemma NoUsersFrom(es: seq<Entry>, m: nat)
    requires UsersFirst(es) && m <= |es| && (m < |es| ==> !IsUserKey(es[m].key))
    ensures UserEntries(es[m..]) == []
  {
    NoUsersBetween(es, m, |es|);
    assert es[m..|es|] == es[m..];
  }

  lemma NoUsersBetween(es: seq<Entry>, j: nat, m: nat)
    requires UsersFirst(es) && j <= m <= |es| && (j < m ==> !IsUserKey(es[j].key))
    ensures UserEntries(es[j..m]) == []
  {
    forall e | e in es[j..m] ensures !IsUserEntry(e) {
      var k :| 0 <= k < m - j && es[j..m][k] == e;
      assert es[j + k] == e;
    }
    FilterNone(es[j..m], IsUserEntry);
  }

  lemma FilterNone(es: seq<Entry>, keep: Entry -> bool)
    requires forall e :: e in es ==> !keep(e)
    ensures Filter(es, keep) == []
  {
  }

  lemma {:induction false} FilterAll(es: seq<Entry>, keep: Entry -> bool)
    requires forall e :: e in es ==> keep(e)
    ensures Filter(es, keep) == es
  {
    if es != [] {
      assert forall e :: e in es[1..] ==> e in es;
      FilterAll(es[1..], keep);
    }
  }

  /**
   * A range starting at a user key holds its user entries first, unless
   * the bare tag byte "k" (the user key of the empty string) is stored.
   */
  lemma RangeUsersFirst(es: seq<Entry>, begin: Bytes, end: Bytes)
    requires Sorted(es)
    requires forall e :: e in es ==> e.key != [UserKeyPrefix]
    requires end == InfiniteEndBytes || (|end| >= 1 && end[0] == UserKeyPrefix)
    ensures UsersFirst(RangeOf(es, UserKey(begin), end))
  {
    var r := RangeOf(es, UserKey(begin), end);
    FilterSorted(es, (e: Entry) => InRange(e.key, UserKey(begin), end));
    forall i, j | 0 <= i < j < |r| && IsUserKey(r[j].key) ensures IsUserKey(r[i].key) {
      var a, b := r[i].key, r[j].key;
      assert r[i] in r && r[i] in es;
      assert Less(a, b);
      assert !Less(a, UserKey(begin));
      assert |a| >= 1 && a[0] >= UserKeyPrefix;
      assert a[0] <= b[0];
    }
  }

  /**
   * With no bare "k" key stored, the scan's limit flag is exact: it is set
   * exactly when the range holds more user keys than the limit, and the
   * values are the first user entries of the range.
   */
  lemma ScanLimitExact(es: seq<Entry>, begin: Bytes, end: Bytes, limit: nat)
    requires Sorted(es)
    requires forall e :: e in es ==> e.key != [UserKeyPrefix]
    requires end == InfiniteEndBytes || (|end| >= 1 && end[0] == UserKeyPrefix)
    ensures var users := UserEntries(RangeOf(es, UserKey(begin), end));
      ScanResult(Take(RangeOf(es, UserKey(begin), end), limit + 1), limit)
        == (AsKVs(users[..Min(|users|, limit)]), |users| > limit)
  {
    var r := RangeOf(es, UserKey(begin), end);
    var users := UserEntries(r);
    RangeUsersFirst(es, begin, end);
    if |r| > limit + 1 {
      UsersFirstTake(r, limit + 1);
      var taken := UserEntries(r[..limit + 1]);
      assert taken == users[..Min(|users|, limit + 1)];
      assert taken[..Min(|taken|, limit)] == users[..Min(|users|, limit)];
    }
  }

  /** A store holding the bare "k" key and two user keys. */
  const BareTagStore: seq<Entry> :=
    [Entry([UserKeyPrefix], [0]), Entry([UserKeyPrefix, 1], [1]), Entry([UserKeyPrefix, 2], [2])]

  lemma BareTagStoreRange()
    ensures Sorted(BareTagStore)
    ensures RangeOf(BareTagStore, UserKey([]), InfiniteEndBytes) == BareTagStore
  {
    var es := BareTagStore;
    assert Less(es[0].key, es[1].key) && Less(es[1].key, es[2].key) && Less(es[0].key, es[2].key);
    assert UserKey([]) == [UserKeyPrefix];
    forall e | e in es ensures InRange(e.key, UserKey([]), InfiniteEndBytes) {
      assert InfiniteEndBytes[0] == 255;
      assert e.key == es[0].key || Less(es[0].key, e.key);
      LessIrreflexive(e.key);
      LessAsymmetric(es[0].key, e.key);
    }
    FilterAll(es, (e: Entry) => InRange(e.key, UserKey([]), InfiniteEndBytes));
  }

  lemma BareTagStoreUsers()
    ensures UserEntries(BareTagStore) == BareTagStore[1..]
    ensures UserEntries(BareTagStore[..2]) == [BareTagStore[1]]
  {
    var es := BareTagStore;
    assert !IsUserEntry(es[0]) && IsUserEntry(es[1]) && IsUserEntry(es[2]);
    assert es[1..][1..] == [es[2]];
    assert es[1..][1..][1..] == [];
    assert Filter(es[1..][1..], IsUserEntry) == [es[2]];
    assert Filter(es[1..], IsUserEntry) == [es[1], es[2]] == es[1..];
    assert Filter(es, IsUserEntry) == [] + Filter(es[1..], IsUserEntry);
    var two := es[..2];
    assert two[1..] == [es[1]];
    assert two[1..][1..] == [];
    assert Filter(two[1..], IsUserEntry) == [es[1]];
  }

  /** With a bare "k" key stored, a scan from the empty key can miss that the limit was reached. */
  lemma ScanLimitMissed()
    ensures Sorted(BareTagStore)
    ensures |UserEntries(RangeOf(BareTagStore, UserKey([]), InfiniteEndBytes))| == 2
    ensures ScanResult(Take(RangeOf(BareTagStore, UserKey([]), InfiniteEndBytes), 2), 1) == ([KV([1], [1])], false)
  {
    BareTagStoreRange();
    BareTagStoreUsers();
    var taken := Take(BareTagStore, 2);
    assert taken == BareTagStore[..2];
    var users := UserEntries(taken);
    assert users[..1] == [BareTagStore[1]];
    assert FromUserKey(BareTagStore[1].key) == [1];
    assert AsKVs(users[..1]) == [KV([1], [1])];
  }

  /**
   * Every entry a prefix query can return is a stored user entry whose key
   * (without the tag) starts with the prefix, and every such stored entry
   * is among them, in ascending key order.
   */
  lemma PrefixMatches(es: seq<Entry>, prefix: Bytes)
    requires Sorted(es)
    ensures var found := PrefixOf(es, UserKey(prefix));
      && Sorted(found) && AllKeyed(found)
      && (forall e :: e in found ==> IsPrefix(prefix, FromUserKey(e.key)) && e.key in MapOf(es) && MapOf(es)[e.key] == e.value)
      && (forall k :: UserKey(k) in MapOf(es) && IsPrefix(prefix, k) ==> Entry(UserKey(k), MapOf(es)[UserKey(k)]) in found)
  {
    var found := PrefixOf(es, UserKey(prefix));
    FilterSorted(es, (e: Entry) => IsPrefix(UserKey(prefix), e.key));
    forall e | e in found ensures |e.key| >= 1 && IsPrefix(prefix, FromUserKey(e.key)) && e.key in MapOf(es) && MapOf(es)[e.key] == e.value {
      EntryInMap(es, e);
      assert e.key[1..][..|prefix|] == e.key[..|prefix| + 1][1..];
    }
    forall k | UserKey(k) in MapOf(es) && IsPrefix(prefix, k) ensures Entry(UserKey(k), MapOf(es)[UserKey(k)]) in found {
      EntryInMap(es, Entry(UserKey(k), MapOf(es)[UserKey(k)]));
      assert UserKey(k)[..|UserKey(prefix)|] == UserKey(prefix);
    }
  }

  /** The stored values of `keys`, in order. */
  function ValuesOf(m: map<Bytes, Bytes>, keys: seq<Bytes>): (r: seq<Bytes>)
    requires forall k :: k in keys ==> k in m
    ensures |r| == |keys| && forall i :: 0 <= i < |keys| ==> r[i] == m[keys[i]]
  {
    if keys == [] then [] else [m[keys[0]]] + ValuesOf(m, keys[1..])
  }

  /** A batched get over keys that are all stored yields their values in order; otherwise it reports not-found. */
  lemma {:induction false} BatchGetOfAll(m: map<Bytes, Bytes>, keys: seq<Bytes>)
    ensures (forall k :: k in keys ==> k in m) ==> BatchGetOf(m, keys) == (ValuesOf(m, keys), None)
    ensures !(forall k :: k in keys ==> k in m) ==> BatchGetOf(m, keys).1 == Some(KvStore.NotFound)
  {
    if keys != [] {
      BatchGetOfAll(m, keys[1..]);
      assert forall k :: k in keys ==> k == keys[0] || k in keys[1..];
    }
  }

  /** The scan loop stops at a user entry once `limit` of them were taken: more than `limit` follow. */
  lemma ScanStopsAtLimit(items: seq<Entry>, i: nat, limit: nat)
    requires i < |items| && IsUserKey(items[i].key) && |UserEntries(items[..i])| == limit
    ensures ScanResult(items, limit) == (AsKVs(UserEntries(items[..i])), true)
  {
    UserEntriesPrefix(items, i);
    var rest := items[i..];
    assert rest[0] == items[i];
    var u := UserEntries(items);
    assert u[..limit] == UserEntries(items[..i]);
  }

  /** A scan that never reached its limit returns every user entry. */
  lemma ScanTakesAll(items: seq<Entry>, limit: nat)
    requires |UserEntries(items)| <= limit
    ensures ScanResult(items, limit) == (AsKVs(UserEntries(items)), false)
  {
    var u := UserEntries(items);
    assert u[..|u|] == u;
  }

  lemma AsKVsSnoc(es: seq<Entry>, e: Entry)
    requires AllKeyed(es) && |e.key| >= 1
    ensures AllKeyed(es + [e]) && AsKVs(es + [e]) == AsKVs(es) + [KVOf(e)]
  {
  }

  class OperationDB {
    const store: KVStore
    const queryRowsLimit: int
    var pendingOperations: seq<KVOperation>

    ghost predicate Valid()
      reads this, store
    {
      store.Valid()
    }

    constructor (store: KVStore, queryRowsLimit: int)
      requires store.Valid()
      ensures Valid() && this.store == store && this.queryRowsLimit == queryRowsLimit
      ensures pendingOperations == []
    {
      this.store := store;
      this.queryRowsLimit := queryRowsLimit;
      pendingOperations := [];
    }

    method AddOperation(op: KVOperation)
      modifies this
      ensures pendingOperations == old(pendingOperations) + [op]
    {
      pendingOperations := pendingOperations + [op];
    }

    method AddOperations(ops: seq<KVOperation>)
      modifies this
      ensures pendingOperations == old(pendingOperations) + ops
    {
      for i := 0 to |ops|
        invariant pendingOperations == old(pendingOperations) + ops[..i]
      {
        AddOperation(ops[i]);
        assert ops[..i + 1] == ops[..i] + [ops[i]];
      }
    }

    method Reset()
      modifies this
      ensures pendingOperations == []
    {
      pendingOperations := [];
    }

    /**
     * The grouping half of `LastOperationPerKey`: the operations of each key
     * in arrival order, and the keys in first-seen order.
     */
    static method GroupByKey(ops: seq<KVOperation>) returns (opsPerKey: map<Bytes, seq<KVOperation>>, order: seq<Bytes>)
      ensures opsPerKey.Keys == KeysOf(ops)
      ensures forall k :: k in order <==> k in opsPerKey
      ensures Distinct(order)
      ensures forall k :: k in opsPerKey ==> opsPerKey[k] != [] && LastOn(ops, k) == Some(opsPerKey[k][|opsPerKey[k]| - 1])
    {
      opsPerKey, order := map[], [];
      for i := 0 to |ops|
        invariant opsPerKey.Keys == KeysOf(ops[..i])
        invariant forall k :: k in order <==> k in opsPerKey
        invariant Distinct(order)
        invariant forall k :: k in opsPerKey ==> opsPerKey[k] != [] && LastOn(ops[..i], k) == Some(opsPerKey[k][|opsPerKey[k]| - 1])
      {
        var op := ops[i];
        ghost var before := opsPerKey;
        if op.key !in opsPerKey {
          order := order + [op.key];
        }
        var group := if op.key in opsPerKey then opsPerKey[op.key] else [];
        opsPerKey := opsPerKey[op.key := group + [op]];
        GroupStep(ops, i, before, opsPerKey);
      }
      assert ops[..|ops|] == ops;
    }

    /**
     * Groups the operations by key and keeps the last one of each group:
     * Sets become puts, Deletes become user keys to delete, any other type
     * is dropped. Groups are visited in first-seen key order.
     */
    static method LastOperationPerKey(ops: seq<KVOperation>) returns (puts: seq<KVOperation>, deletes: seq<Bytes>)
      ensures forall p :: p in puts <==> p in ops && p.opType == SET && LastOn(ops, p.key) == Some(p)
      ensures forall k :: UserKey(k) in deletes <==> LastOn(ops, k).Some? && LastOn(ops, k).value.opType == DELETE
      ensures forall d :: d in deletes ==> InUserSpace(d)
      ensures DistinctKeys(puts) && Distinct(deletes)
      ensures |puts| + |deletes| == |EffectiveKeys(ops)|
    {
      var opsPerKey, order := GroupByKey(ops);
      puts, deletes := [], [];
      SelectedNone(ops, order);
      for j := 0 to |order|
        invariant SelectedUpTo(ops, order, j, puts, deletes)
      {
        var group := opsPerKey[order[j]];
        var lastOp := group[|group| - 1];
        if lastOp.opType == SET {
          SelectSet(ops, order, j, puts, deletes);
          puts := puts + [lastOp];
        } else if lastOp.opType == DELETE {
          SelectDelete(ops, order, j, puts, deletes);
          deletes := deletes + [UserKey(lastOp.key)];
        } else {
          SelectOther(ops, order, j, puts, deletes);
        }
      }
      SelectedAll(ops, order, puts, deletes);
    }

    method WriteCursor(moduleHash: Bytes, c: Cursor) returns (err: Option<DbError>)
      requires Valid()
      modifies store
      ensures Valid() && store.available == old(store.available)
      ensures old(store.available) ==> err == None && store.Contents() == old(store.Contents())[CursorKey(moduleHash) := CursorToBytes(c)]
      ensures !old(store.available) ==> err == Some(StoreFailure(IOError)) && store.Contents() == old(store.Contents())
    {
      var e := store.Put(CursorKey(moduleHash), CursorToBytes(c));
      if e.None? {
        e := store.FlushPuts();
      }
      err := Wrap(e);
    }

    method GetCursor(moduleHash: Bytes) returns (r: Result<Cursor, DbError>)
      ensures !store.available ==> r == Failure(StoreFailure(IOError))
      ensures store.available && CursorKey(moduleHash) !in store.Contents() ==> r == Failure(CursorNotFound)
      ensures store.available && CursorKey(moduleHash) in store.Contents() ==>
        match CursorFromBytes(store.Contents()[CursorKey(moduleHash)])
        case Success(c) => r == Success(c)
        case Failure(_) => r == Failure(MalformedCursor)
    {
      var got := store.Get(CursorKey(moduleHash));
      if got.Failure? {
        return if got.error == KvStore.NotFound then Failure(CursorNotFound) else Failure(StoreFailure(got.error));
      }
      var parsed := CursorFromBytes(got.value);
      r := if parsed.Success? then Success(parsed.value) else Failure(MalformedCursor);
    }

    /**
     * Commits the pending operations (last write per key wins) and the
     * cursor, clears the buffer and returns the number of keys written or
     * deleted; on a store failure nothing changes and the count is 0.
     */
    method Flush(moduleHash: Bytes, c: Cursor) returns (count: int, err: Option<DbError>)
      requires Valid()
      modifies this, store
      ensures Valid() && store.available == old(store.available)
      ensures old(store.available) ==>
        err == None && pendingOperations == [] && count == |EffectiveKeys(old(pendingOperations))|
        && store.Contents() == Commit(old(store.Contents()), old(pendingOperations))[CursorKey(moduleHash) := CursorToBytes(c)]
      ensures !old(store.available) ==>
        err == Some(StoreFailure(IOError)) && count == 0
        && pendingOperations == old(pendingOperations) && store.Contents() == old(store.Contents())
    {
      var puts, deletes := LastOperationPerKey(pendingOperations);
      for i := 0 to |puts|
        invariant Valid() && store.available == old(store.available)
        invariant store.Contents() == PutAll(old(store.Contents()), puts[..i])
        invariant i > 0 ==> store.available
        invariant pendingOperations == old(pendingOperations)
      {
        var e := store.Put(UserKey(puts[i].key), puts[i].value);
        if e.Some? {
          return 0, Some(StoreFailure(e.value));
        }
        assert puts[..i + 1][..i] == puts[..i];
      }
      assert puts[..|puts|] == puts;
      var e := store.BatchDelete(deletes);
      if e.Some? {
        return 0, Some(StoreFailure(e.value));
      }
      forall x ensures CellOf(store.Contents(), x) == CellOf(Commit(old(store.Contents()), old(pendingOperations)), x) {
        FlushCell(old(store.Contents()), old(pendingOperations), puts, deletes, x);
      }
      MapsAgree(store.Contents(), Commit(old(store.Contents()), old(pendingOperations)));
      err := WriteCursor(moduleHash, c);
      Reset();
      count := |puts| + |deletes|;
    }

    /**
     * The undo batch of a block, read against the committed store (pending
     * operations are not seen): a lookup error other than not-found ends
     * it, and so does an operation that is neither a Set nor a Delete.
     */
    method GenerateUndoOperations(ops: seq<KVOperation>) returns (r: Result<seq<KVOperation>, DbError>)
      ensures ops != [] && !store.available ==> r == Failure(StoreFailure(IOError))
      ensures ops == [] || store.available ==> r == UndoOperations(store.Contents(), ops)
    {
      var undo: seq<KVOperation> := [];
      for i := 0 to |ops|
        invariant AllRecognised(ops[..i])
        invariant |undo| == i
        invariant forall j :: 0 <= j < i ==> undo[i - 1 - j] == InverseOf(ops[j], CellOf(store.Contents(), UserKey(ops[j].key)))
        invariant i > 0 ==> store.available
      {
        var op := ops[i];
        var got := store.Get(UserKey(op.key));
        if got.Failure? && got.error != KvStore.NotFound {
          return Failure(StoreFailure(got.error));
        }
        if !Recognised(op) {
          FirstUnrecognisedUnique(ops, i);
          return Failure(InvalidOperationType(op.opType));
        }
        var previous := if got.Success? then Some(got.value) else None;
        assert forall o :: o in ops[..i + 1] ==> o in ops[..i] || o == op;
        undo := [InverseOf(op, previous)] + undo;
      }
      assert ops[..|ops|] == ops;
      InverseBatchIndexed(store.Contents(), ops, undo);
      return Success(undo);
    }

    /** Stores the encoded undo batch of `blockNumber` under its undo key. */
    method StoreUndoOperations(blockNumber: uint64, ops: seq<KVOperation>) returns (err: Option<DbError>)
      requires Valid()
      modifies store
      ensures Valid() && store.available == old(store.available)
      ensures !old(store.available) ==> err == Some(StoreFailure(IOError)) && store.Contents() == old(store.Contents())
      ensures old(store.available) ==>
        match UndoOperations(old(store.Contents()), ops)
        case Success(undo) =>
          err == None && store.Contents() == old(store.Contents())[UndoKey(blockNumber) := EncodeOperations(undo)]
        case Failure(e) =>
          err == Some(e) && store.Contents() == old(store.Contents())
    {
      var undo := GenerateUndoOperations(ops);
      if undo.Failure? {
        return Some(undo.error);
      }
      var e := store.Put(UndoKey(blockNumber), EncodeOperations(undo.value));
      if e.None? {
        e := store.FlushPuts();
      }
      err := Wrap(e);
    }

    /** Removes the undo records of blocks 1 to `finalBlockHeight`, which can no longer be forked away. */
    method DeleteLIBUndoOperations(finalBlockHeight: uint64) returns (err: Option<DbError>)
      requires Valid()
      modifies store
      ensures Valid() && store.available == old(store.available)
      ensures old(store.available) ==> err == None && store.Contents() == Purged(old(store.Contents()), finalBlockHeight)
      ensures !old(store.available) ==> err == Some(StoreFailure(IOError)) && store.Contents() == old(store.Contents())
    {
      var items, e := store.Scan(UndoKey(finalBlockHeight), UndoKey(0), 0);
      if e.Some? {
        return Some(StoreFailure(e.value));
      }
      var keys: seq<Bytes> := [];
      for i := 0 to |items|
        invariant |keys| == i && forall j :: 0 <= j < i ==> keys[j] == items[j].key
      {
        keys := keys + [items[i].key];
      }
      RangeOfKeys(store.entries, UndoKey(finalBlockHeight), UndoKey(0));
      assert (set k | k in keys) == (set it | it in items :: it.key) by {
        forall k | k in keys ensures k in (set it | it in items :: it.key) {
          var j :| 0 <= j < |keys| && keys[j] == k;
          assert items[j] in items;
        }
        forall it | it in items ensures it.key in keys {
          var j :| 0 <= j < |items| && items[j] == it;
          assert keys[j] == it.key;
        }
      }
      e := store.BatchDelete(keys);
      err := Wrap(e);
    }

    /**
     * On a new block: purge the undo records made final, store the block's
     * undo batch; in every case buffer the block's operations.
     */
    method HandleOperations(blockNumber: uint64, finalBlockHeight: uint64, step: Step, ops: seq<KVOperation>)
      returns (err: Option<DbError>)
      requires Valid()
      modifies this, store
      ensures Valid() && store.available == old(store.available)
      ensures step != StepNew ==>
        err == None && pendingOperations == old(pendingOperations) + ops && store.Contents() == old(store.Contents())
      ensures step == StepNew && !old(store.available) ==>
        err == Some(StoreFailure(IOError)) && pendingOperations == old(pendingOperations) && store.Contents() == old(store.Contents())
      ensures step == StepNew && old(store.available) ==>
        var purged := Purged(old(store.Contents()), finalBlockHeight);
        match UndoOperations(purged, ops)
        case Success(undo) =>
          err == None && pendingOperations == old(pendingOperations) + ops
          && store.Contents() == purged[UndoKey(blockNumber) := EncodeOperations(undo)]
        case Failure(e) =>
          err == Some(e) && pendingOperations == old(pendingOperations) && store.Contents() == purged
    {
      if step == StepNew {
        err := DeleteLIBUndoOperations(finalBlockHeight);
        if err.Some? {
          return;
        }
        err := StoreUndoOperations(blockNumber, ops);
        if err.Some? {
          return;
        }
      }
      AddOperations(ops);
      err := None;
    }

    /**
     * On a fork: replays the undo records of every block after
     * `lastValidBlock`, newest first, into the pending operations; a record
     * that does not decode stops the replay with the records before it
     * already added.
     */
    method HandleBlockUndo(lastValidBlock: uint64) returns (err: Option<DbError>)
      modifies this
      ensures !store.available ==> err == Some(StoreFailure(IOError)) && pendingOperations == old(pendingOperations)
      ensures store.available ==>
        var replay := ReplayOf(RangeOf(store.entries, UndoKey(MaxUint64), UndoKey(lastValidBlock)));
        pendingOperations == old(pendingOperations) + replay.0
        && err == if replay.1.Some? then Some(Undecodable(replay.1.value)) else None
    {
      var items, e := store.Scan(UndoKey(MaxUint64), UndoKey(lastValidBlock), 0);
      if e.Some? {
        return Wrap(e);
      }
      err := AddUndoRecords(items, DecodeOperations);
    }

    /** The loop of `HandleBlockUndo`: decode each record and buffer its operations. */
    method AddUndoRecords(items: seq<Entry>, unmarshal: Unmarshal) returns (err: Option<DbError>)
      modifies this
      ensures var replay := ReplayBatches(Batches(items, unmarshal));
        pendingOperations == old(pendingOperations) + replay.0
        && err == if replay.1.Some? then Some(Undecodable(replay.1.value)) else None
    {
      ghost var batches := Batches(items, unmarshal);
      for i := 0 to |items|
        invariant ReplayBatches(batches[..i]).1 == None
        invariant pendingOperations == old(pendingOperations) + ReplayBatches(batches[..i]).0
      {
        var decoded := unmarshal(items[i].value);
        assert batches[i] == decoded;
        ReplayBatchStep(batches, i);
        if decoded.Failure? {
          ReplayErrorSticks(batches, i + 1);
          return Some(Undecodable(decoded.error));
        }
        AddOperations(decoded.value);
      }
      assert batches[..|items|] == batches;
      err := None;
    }

    method DeleteUndoKeys(keys: seq<Bytes>) returns (err: Option<DbError>)
      requires Valid()
      modifies store
      ensures Valid() && store.available == old(store.available)
      ensures old(store.available) ==> err == None && store.Contents() == old(store.Contents()) - (set k | k in keys)
      ensures !old(store.available) ==> err == Some(StoreFailure(IOError)) && store.Contents() == old(store.Contents())
    {
      var e := store.BatchDelete(keys);
      err := Wrap(e);
    }

    /** The value stored under the user key of `key`. */
    method Get(key: Bytes) returns (r: Result<Bytes, DbError>)
      ensures !store.available ==> r == Failure(StoreFailure(IOError))
      ensures store.available && UserKey(key) in store.Contents() ==> r == Success(store.Contents()[UserKey(key)])
      ensures store.available && UserKey(key) !in store.Contents() ==> r == Failure(KeyNotFound)
    {
      var found := store.Get(UserKey(key));
      if found.Success? {
        r := Success(found.value);
      } else if found.error == KvStore.NotFound {
        r := Failure(KeyNotFound);
      } else {
        r := Failure(StoreFailure(found.error));
      }
    }

    /**
     * The values of several keys, in order, or not-found when one of them
     * is missing. A store failure other than not-found is dropped: the
     * values read so far come back with no error.
     */
    method GetMany(keys: seq<Bytes>) returns (values: seq<Bytes>, err: Option<DbError>)
      ensures keys == [] ==> values == [] && err == Some(InvalidArguments)
      ensures keys != [] && !store.available ==> values == [] && err == None
      ensures keys != [] && store.available && (forall i :: 0 <= i < |keys| ==> UserKey(keys[i]) in store.Contents()) ==>
        err == None && |values| == |keys|
        && forall i :: 0 <= i < |keys| ==> values[i] == store.Contents()[UserKey(keys[i])]
      ensures keys != [] && store.available && !(forall i :: 0 <= i < |keys| ==> UserKey(keys[i]) in store.Contents()) ==>
        values == [] && err == Some(KeyNotFound)
    {
      if keys == [] {
        return [], Some(InvalidArguments);
      }
      var userKeys: seq<Bytes> := [];
      for i := 0 to |keys|
        invariant |userKeys| == i
        invariant forall j :: 0 <= j < i ==> userKeys[j] == UserKey(keys[j])
      {
        userKeys := userKeys + [UserKey(keys[i])];
      }
      var e;
      values, e := store.BatchGet(userKeys);
      BatchGetOfAll(store.Contents(), userKeys);
      assert (forall k :: k in userKeys ==> k in store.Contents())
          <==> (forall i :: 0 <= i < |keys| ==> UserKey(keys[i]) in store.Contents()) by {
        assert forall i :: 0 <= i < |keys| ==> userKeys[i] in userKeys;
      }
      if e == Some(KvStore.NotFound) {
        return [], Some(KeyNotFound);
      }
      if e.Some? {
        values := [];
      }
      err := None;
    }

    /**
     * Up to `limit` entries (the configured row limit when `limit` is 0)
     * whose key starts with `prefix`, in key order, and whether more
     * matched.
     */
    method GetByPrefix(prefix: Bytes, limit: int) returns (values: seq<KV>, limitReached: bool, err: Option<DbError>)
      requires Valid()
      ensures var lim := if limit == 0 then queryRowsLimit else limit;
        lim < 0 || lim > queryRowsLimit || prefix == [] ==>
          values == [] && !limitReached && err == Some(InvalidArguments)
      ensures var lim := if limit == 0 then queryRowsLimit else limit;
        0 <= lim <= queryRowsLimit && prefix != [] && !store.available ==>
          values == [] && !limitReached && err == Some(StoreFailure(IOError))
      ensures var lim := if limit == 0 then queryRowsLimit else limit;
        var found := PrefixOf(store.entries, UserKey(prefix));
        0 <= lim <= queryRowsLimit && prefix != [] && store.available ==>
          AllKeyed(found)
          && (Min(|found|, lim) == 0 ==> values == [] && !limitReached && err == Some(KeyNotFound))
          && (Min(|found|, lim) > 0 ==>
                values == AsKVs(found[..Min(|found|, lim)]) && limitReached == (|found| > lim) && err == None)
    {
      var lim := if limit == 0 then queryRowsLimit else limit;
      if lim < 0 || lim > queryRowsLimit || prefix == [] {
        return [], false, Some(InvalidArguments);
      }
      var items, e := store.Prefix(UserKey(prefix), lim + 1);
      if e.Some? {
        return [], false, Wrap(e);
      }
      ghost var found := PrefixOf(store.entries, UserKey(prefix));
      PrefixMatches(store.entries, prefix);
      assert forall e :: e in items ==> e in found;
      values, limitReached := TakeEntries(items, lim);
      assert items[..Min(|items|, lim)] == found[..Min(|found|, lim)];
      if |values| == 0 {
        return [], false, Some(KeyNotFound);
      }
      err := None;
    }

    /**
     * Up to `limit` entries (the configured row limit when `limit` is 0)
     * from the user key of `begin` up to that of `exclusiveEnd` (to the end
     * of the key space when it is empty), skipping keys that are not user
     * keys, and whether a further user key was seen.
     */
    method Scan(begin: Bytes, exclusiveEnd: Bytes, limit: int) returns (values: seq<KV>, limitReached: bool, err: Option<DbError>)
      ensures var lim := if limit == 0 then queryRowsLimit else limit;
        lim < 0 || lim > queryRowsLimit ==>
          values == [] && !limitReached && err == Some(InvalidArguments)
      ensures var lim := if limit == 0 then queryRowsLimit else limit;
        0 <= lim <= queryRowsLimit && !store.available ==>
          values == [] && !limitReached && err == Some(StoreFailure(IOError))
      ensures var lim := if limit == 0 then queryRowsLimit else limit;
        0 <= lim <= queryRowsLimit && store.available ==>
          var end := if exclusiveEnd == [] then InfiniteEndBytes else UserKey(exclusiveEnd);
          var result := ScanResult(Take(RangeOf(store.entries, UserKey(begin), end), lim + 1), lim);
          (result.0 == [] ==> values == [] && !limitReached && err == Some(KeyNotFound))
          && (result.0 != [] ==> (values, limitReached) == result && err == None)
    {
      var lim := if limit == 0 then queryRowsLimit else limit;
      if lim < 0 || lim > queryRowsLimit {
        return [], false, Some(InvalidArguments);
      }
      var end := if exclusiveEnd == [] then InfiniteEndBytes else UserKey(exclusiveEnd);
      var items, e := store.Scan(UserKey(begin), end, lim + 1);
      if e.Some? {
        return [], false, Wrap(e);
      }
      values, limitReached, err := ScanAnswer(items, lim);
    }

    /** The answer of `Scan` from the entries the store returned: not-found when no user entry is among them. */
    static method ScanAnswer(items: seq<Entry>, lim: nat) returns (values: seq<KV>, limitReached: bool, err: Option<DbError>)
      ensures var result := ScanResult(items, lim);
        (result.0 == [] ==> values == [] && !limitReached && err == Some(KeyNotFound))
        && (result.0 != [] ==> (values, limitReached) == result && err == None)
    {
      values, limitReached := ScanUserEntries(items, lim);
      if values == [] {
        return [], false, Some(KeyNotFound);
      }
      err := None;
    }

    /** The loop of `GetByPrefix`: take entries until `lim` of them are taken and another one follows. */
    static method TakeEntries(items: seq<Entry>, lim: nat) returns (values: seq<KV>, limitReached: bool)
      requires AllKeyed(items)
      ensures values == AsKVs(items[..Min(|items|, lim)]) && limitReached == (|items| > lim)
    {
      values, limitReached := [], false;
      var i := 0;
      while i < |items|
        invariant i <= |items| && i <= lim && !limitReached
        invariant values == AsKVs(items[..i])
      {
        if |values| == lim {
          limitReached := true;
          break;
        }
        assert items[..i + 1] == items[..i] + [items[i]];
        values := values + [KVOf(items[i])];
        i := i + 1;
      }
    }

    /** The loop of `Scan`: keep the user entries, stopping at the first one past the limit. */
    static method ScanUserEntries(items: seq<Entry>, lim: nat) returns (values: seq<KV>, limitReached: bool)
      ensures (values, limitReached) == ScanResult(items, lim)
    {
      values, limitReached := [], false;
      ghost var taken: seq<Entry> := [];
      var i := 0;
      while i < |items|
        invariant i <= |items| && !limitReached
        invariant taken == UserEntries(items[..i]) && |taken| <= lim
        invariant values == AsKVs(taken)
      {
        UserEntriesStep(items, i);
        if IsUserKey(items[i].key) {
          if |values| == lim {
            ScanStopsAtLimit(items, i, lim);
            return values, true;
          }
          AsKVsSnoc(taken, items[i]);
          values := values + [KVOf(items[i])];
          taken := taken + [items[i]];
        } else {
          assert taken + [] == taken;
        }
        i := i + 1;
      }
      assert items[..i] == items;
      ScanTakesAll(items, lim);
    }
  }
}
