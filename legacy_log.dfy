/**
 * The older variant of the operation log (db/ops.go). It records every
 * block's inverse operations without looking at the fork step, never
 * purges final blocks, flushes every `batchModulo` blocks, and decides
 * whether a key was present from whether the lookup failed, whatever the
 * failure. The operations it shares unchanged with db/db.go (buffering,
 * flush, undo replay, the read path) are those of `OperationLog`.
 */
module LegacyLog {
  import opened Bytes
  import opened Keys
  import opened Wrappers
  import opened KvStore
  import opened Operations
  import opened Codec
  import opened Cursors
  import opened OperationLog

  /**
   * The inverse of one operation given the lookup of its key (None: the
   * lookup failed). An UNSET operation panics (None); a type the switch
   * does not name leaves the nil entry.
   */
  function ReverseOperation(op: KVOperation, previous: Option<Bytes>): (r: Option<KVOperation>)
    ensures r.None? <==> op.opType == UNSET
    ensures Recognised(op) ==> r == Some(InverseOf(op, previous))
    ensures !Recognised(op) && op.opType != UNSET ==> r == Some(EmptyOp)
  {
    if op.opType == SET then
      if previous.None? then Some(KVOperation(op.key, op.value, 0, DELETE))
      else Some(KVOperation(op.key, previous.value, 0, SET))
    else if op.opType == DELETE then
      if previous.None? then Some(EmptyOp)
      else Some(KVOperation(op.key, op.value, 0, SET))
    else if op.opType == UNSET then None
    else Some(EmptyOp)
  }

  predicate HasUnset(ops: seq<KVOperation>) {
    exists o :: o in ops && o.opType == UNSET
  }

  /**
   * The reversed batch of a block read against the cells of `s`: the
   * reverse of every operation, each prepended; None when one is UNSET.
   */
  function ReverseBatch(s: map<Bytes, Bytes>, ops: seq<KVOperation>): (r: Option<seq<KVOperation>>)
    ensures r.None? <==> HasUnset(ops)
    ensures r.Some? ==> |r.value| == |ops|
    ensures r.Some? ==> forall i :: 0 <= i < |ops| ==>
      Some(r.value[|ops| - 1 - i]) == ReverseOperation(ops[i], CellOf(s, UserKey(ops[i].key)))
  {
    if ops == [] then Some([])
    else
      var head := ReverseOperation(ops[0], CellOf(s, UserKey(ops[0].key)));
      var rest := ReverseBatch(s, ops[1..]);
      assert forall o :: o in ops <==> o == ops[0] || o in ops[1..];
      if head.None? || rest.None? then None
      else
        var r := rest.value + [head.value];
        assert forall i :: 1 <= i < |ops| ==> r[|ops| - 1 - i] == rest.value[|ops[1..]| - 1 - (i - 1)] && ops[i] == ops[1..][i - 1];
        Some(r)
  }

  /** On Set and Delete operations both variants record the same undo batch. */
  lemma ReverseBatchIsInverseBatch(s: map<Bytes, Bytes>, ops: seq<KVOperation>)
    requires AllRecognised(ops)
    ensures ReverseBatch(s, ops) == Some(InverseBatch(s, ops))
  {
    assert !HasUnset(ops);
    var r := ReverseBatch(s, ops).value;
    var inv := InverseBatch(s, ops);
    InverseBatchAt(s, ops);
    forall t | 0 <= t < |ops| ensures r[t] == inv[t] {
      var i := |ops| - 1 - t;
      assert ops[i] in ops;
      assert Some(r[|ops| - 1 - i]) == ReverseOperation(ops[i], CellOf(s, UserKey(ops[i].key)));
      assert inv[|ops| - 1 - i] == InverseOf(ops[i], CellOf(s, UserKey(ops[i].key)));
    }
  }

  /** A type other than Set, Delete and UNSET is recorded as the empty entry, where db/db.go rejects it. */
  lemma UnknownTypeRecordsEmptyEntry()
    ensures ReverseBatch(map[], [KVOperation([1], [2], 0, 3)]) == Some([EmptyOp])
    ensures UndoOperations(map[], [KVOperation([1], [2], 0, 3)]) == Failure(InvalidOperationType(3))
  {
    var ops := [KVOperation([1], [2], 0, 3)];
    assert !Recognised(ops[0]) && ops[0] in ops;
    assert !HasUnset(ops);
    var i := FirstUnrecognised(ops);
    assert i == 0;
    var rb := ReverseBatch(map[], ops);
    assert Some(rb.value[0]) == ReverseOperation(ops[0], CellOf(map[], UserKey(ops[0].key))) == Some(EmptyOp);
    assert rb.value == [EmptyOp];
  }

  /**
   * reverseOperations: looks up every key and prepends its reverse. A
   * failed lookup counts as an absent key, so an unreachable store makes
   * every key look absent.
   */
  method ReverseOperations(db: OperationDB, ops: seq<KVOperation>) returns (r: Option<seq<KVOperation>>)
    ensures r == ReverseBatch(if db.store.available then db.store.Contents() else map[], ops)
  {
    ghost var s := if db.store.available then db.store.Contents() else map[];
    var reversed: seq<KVOperation> := [];
    for i := 0 to |ops|
      invariant !HasUnset(ops[..i])
      invariant |reversed| == i
      invariant forall j :: 0 <= j < i ==>
        Some(reversed[i - 1 - j]) == ReverseOperation(ops[j], CellOf(s, UserKey(ops[j].key)))
    {
      var op := ops[i];
      var got := db.store.Get(UserKey(op.key));
      var previous := if got.Success? then Some(got.value) else None;
      assert previous == CellOf(s, UserKey(op.key));
      var reverse := ReverseOperation(op, previous);
      if reverse.None? {
        assert ops[i] in ops;
        return None;
      }
      assert forall o :: o in ops[..i + 1] ==> o in ops[..i] || o == op;
      reversed := [reverse.value] + reversed;
    }
    assert ops[..|ops|] == ops;
    ReverseBatchIndexed(s, ops, reversed);
    r := Some(reversed);
  }

  lemma ReverseBatchIndexed(s: map<Bytes, Bytes>, ops: seq<KVOperation>, reversed: seq<KVOperation>)
    requires !HasUnset(ops) && |reversed| == |ops|
    requires forall j :: 0 <= j < |ops| ==>
      Some(reversed[|ops| - 1 - j]) == ReverseOperation(ops[j], CellOf(s, UserKey(ops[j].key)))
    ensures ReverseBatch(s, ops) == Some(reversed)
  {
    var r := ReverseBatch(s, ops).value;
    forall t | 0 <= t < |r| ensures reversed[t] == r[t] {
      var j := |ops| - 1 - t;
      var rv := ReverseOperation(ops[j], CellOf(s, UserKey(ops[j].key)));
      assert Some(r[|ops| - 1 - j]) == rv;
      assert Some(reversed[|ops| - 1 - j]) == rv;
    }
    assert reversed == r;
  }

  /** StoreReverseOperations: puts the encoded reversed batch under the block's undo key. */
  method StoreReverseOperations(db: OperationDB, blockNumber: uint64, ops: seq<KVOperation>) returns (err: Option<DbError>)
    requires db.Valid()
    modifies db.store
    ensures db.Valid() && db.store.available == old(db.store.available)
    ensures HasUnset(ops) ==> err == Some(InvalidOperationType(UNSET)) && db.store.Contents() == old(db.store.Contents())
    ensures !HasUnset(ops) && !old(db.store.available) ==>
      err == Some(StoreFailure(IOError)) && db.store.Contents() == old(db.store.Contents())
    ensures !HasUnset(ops) && old(db.store.available) ==>
      err == None
      && db.store.Contents() == old(db.store.Contents())[LegacyUndoKey(blockNumber) := EncodeOperations(ReverseBatch(old(db.store.Contents()), ops).value)]
  {
    var reversed := ReverseOperations(db, ops);
    if reversed.None? {
      return Some(InvalidOperationType(UNSET));
    }
    var e := db.store.Put(LegacyUndoKey(blockNumber), EncodeOperations(reversed.value));
    err := Wrap(e);
  }

  /** Whether the block closes a flush batch; `batchModulo` must not be zero. */
  predicate FlushesAt(c: Cursor, batchModulo: uint64)
    requires batchModulo > 0
  {
    c.blockNum % batchModulo == 0
  }

  /**
   * HandleOperations of the older log: store the block's reversed batch,
   * buffer its operations, and flush when the cursor's block number is a
   * multiple of `batchModulo`.
   */
  method HandleOperationsBatched(db: OperationDB, blockNumber: uint64, ops: seq<KVOperation>, c: Cursor,
                                 batchModulo: uint64, moduleHash: Bytes)
    returns (flushDone: bool, err: Option<DbError>)
    requires db.Valid() && batchModulo > 0
    modifies db, db.store
    ensures db.Valid() && db.store.available == old(db.store.available)
    ensures HasUnset(ops) ==>
      !flushDone && err == Some(InvalidOperationType(UNSET))
      && db.pendingOperations == old(db.pendingOperations) && db.store.Contents() == old(db.store.Contents())
    ensures !HasUnset(ops) && !old(db.store.available) ==>
      !flushDone && err == Some(StoreFailure(IOError))
      && db.pendingOperations == old(db.pendingOperations) && db.store.Contents() == old(db.store.Contents())
    ensures !HasUnset(ops) && old(db.store.available) ==>
      var recorded := old(db.store.Contents())[LegacyUndoKey(blockNumber) := EncodeOperations(ReverseBatch(old(db.store.Contents()), ops).value)];
      var pending := old(db.pendingOperations) + ops;
      err == None && flushDone == FlushesAt(c, batchModulo)
      && (flushDone ==>
            db.pendingOperations == [] && db.store.Contents() == Commit(recorded, pending)[CursorKey(moduleHash) := CursorToBytes(c)])
      && (!flushDone ==> db.pendingOperations == pending && db.store.Contents() == recorded)
  {
    err := StoreReverseOperations(db, blockNumber, ops);
    if err.Some? {
      return false, err;
    }
    db.AddOperations(ops);
    if c.blockNum % batchModulo == 0 {
      var count;
      count, err := db.Flush(moduleHash, c);
      if err.Some? {
        return false, err;
      }
      flushDone := true;
    } else {
      flushDone := false;
    }
  }
}
