/**
 * Key/value operations, the effect of a flushed batch on the store, and the
 * inverse ("undo") operations recorded for every block.
 *
 * A flush does not replay the pending operations one by one: it keeps, for
 * every key, only the LAST pending operation on that key (last write wins)
 * and applies that one. `Commit` is that meaning, stated key by key on the
 * physical key-space of the store (user records live under 'k' . key).
 */
module Operations {
  import opened Bytes
  import opened Keys
  import opened Wrappers

  /** Operation type codes of the KVOperation message. */
  const UNSET: nat := 0
  const SET: nat := 1
  const DELETE: nat := 2

  datatype KVOperation = KVOperation(key: Bytes, value: Bytes, ordinal: uint64, opType: nat)

  /** What a nil operation becomes once marshalled and read back: every field at its default. */
  const EmptyOp: KVOperation := KVOperation([], [], 0, UNSET)

  predicate Recognised(op: KVOperation) {
    op.opType == SET || op.opType == DELETE
  }

  predicate AllRecognised(ops: seq<KVOperation>) {
    forall o :: o in ops ==> Recognised(o)
  }

  function KeysOf(ops: seq<KVOperation>): set<Bytes> {
    set o | o in ops :: o.key
  }

  /** The content of one store cell: the value, or None when the key is absent. */
  function CellOf(m: map<Bytes, Bytes>, x: Bytes): Option<Bytes> {
    if x in m then Some(m[x]) else None
  }

  /** What an operation makes of a cell: Set writes, Delete clears, any other type leaves it. */
  function Effect(op: KVOperation, c: Option<Bytes>): Option<Bytes> {
    if op.opType == SET then Some(op.value)
    else if op.opType == DELETE then None
    else c
  }

  /** The last operation of the list on key `k`. */
  function LastOn(ops: seq<KVOperation>, k: Bytes): (r: Option<KVOperation>)
    ensures r.Some? ==> r.value.key == k && r.value in ops
  {
    if ops == [] then None
    else if ops[|ops| - 1].key == k then Some(ops[|ops| - 1])
    else LastOn(ops[..|ops| - 1], k)
  }

  /** `LastOn` finds nothing exactly when no operation has the key, and otherwise the last one that has it. */
  lemma {:induction false} LastOnIsLast(ops: seq<KVOperation>, k: Bytes)
    ensures LastOn(ops, k).None? <==> k !in KeysOf(ops)
    ensures LastOn(ops, k).Some? ==>
      exists i :: 0 <= i < |ops| && ops[i] == LastOn(ops, k).value && forall j :: i < j < |ops| ==> ops[j].key != k
  {
    if ops != [] {
      var init := ops[..|ops| - 1];
      assert ops == init + [ops[|ops| - 1]];
      LastOnIsLast(init, k);
      if ops[|ops| - 1].key != k && LastOn(init, k).Some? {
        var i :| 0 <= i < |init| && init[i] == LastOn(init, k).value && forall j :: i < j < |init| ==> init[j].key != k;
        assert ops[i] == LastOn(ops, k).value;
      }
    }
  }

  /** The cell of user key `k` after committing `ops`, starting from cell `c`. */
  function FinalCell(c: Option<Bytes>, ops: seq<KVOperation>, k: Bytes): Option<Bytes> {
    match LastOn(ops, k)
    case None => c
    case Some(o) => Effect(o, c)
  }

  predicate InUserSpace(x: Bytes) {
    |x| >= 1 && x[0] == UserKeyPrefix
  }

  function StoreCell(s: map<Bytes, Bytes>, ops: seq<KVOperation>, x: Bytes): Option<Bytes> {
    if InUserSpace(x) then FinalCell(CellOf(s, x), ops, x[1..]) else CellOf(s, x)
  }

  function TouchedKeys(ops: seq<KVOperation>): set<Bytes> {
    set o | o in ops :: UserKey(o.key)
  }

  /** The store after a flush of `ops`: each user key takes the effect of its last pending operation. */
  function Commit(s: map<Bytes, Bytes>, ops: seq<KVOperation>): map<Bytes, Bytes> {
    map x | x in s.Keys + TouchedKeys(ops) && StoreCell(s, ops, x).Some? :: StoreCell(s, ops, x).value
  }

  /** Every cell of the committed store is the effect of the last operation on its key. */
  lemma CommitCell(s: map<Bytes, Bytes>, ops: seq<KVOperation>, x: Bytes)
    ensures CellOf(Commit(s, ops), x) == StoreCell(s, ops, x)
  {
    if InUserSpace(x) && x !in s && LastOn(ops, x[1..]).Some? {
      var o := LastOn(ops, x[1..]).value;
      assert UserKey(o.key) == x;
    }
  }

  lemma MapsAgree(a: map<Bytes, Bytes>, b: map<Bytes, Bytes>)
    requires forall x :: CellOf(a, x) == CellOf(b, x)
    ensures a == b
  {
    assert forall x :: x in a <==> CellOf(a, x).Some?;
    assert a.Keys == b.Keys;
  }

  // ---------------------------------------------------------------------
  // Sequential reference semantics
  // ---------------------------------------------------------------------

  /** One operation applied on its own, as a Put or a Delete of the user key. */
  function Apply(s: map<Bytes, Bytes>, op: KVOperation): map<Bytes, Bytes> {
    if op.opType == SET then s[UserKey(op.key) := op.value]
    else if op.opType == DELETE then s - {UserKey(op.key)}
    else s
  }

  /** The operations applied one after another, in order. */
  function Replay(s: map<Bytes, Bytes>, ops: seq<KVOperation>): map<Bytes, Bytes> {
    if ops == [] then s else Apply(Replay(s, ops[..|ops| - 1]), ops[|ops| - 1])
  }

  lemma {:induction false} CommitIsReplay(s: map<Bytes, Bytes>, ops: seq<KVOperation>)
    requires AllRecognised(ops)
    ensures Commit(s, ops) == Replay(s, ops)
  {
    if ops != [] {
      var init, last := ops[..|ops| - 1], ops[|ops| - 1];
      assert ops == init + [last];
      CommitIsReplay(s, init);
      assert Replay(s, ops) == Apply(Replay(s, init), last);
      forall x ensures CellOf(Commit(s, ops), x) == CellOf(Apply(Commit(s, init), last), x) {
        CommitSnoc(s, init, last, x);
      }
      MapsAgree(Commit(s, ops), Replay(s, ops));
    }
  }

  lemma CommitSnoc(s: map<Bytes, Bytes>, init: seq<KVOperation>, last: KVOperation, x: Bytes)
    requires Recognised(last)
    ensures CellOf(Commit(s, init + [last]), x) == CellOf(Apply(Commit(s, init), last), x)
  {
    var ops := init + [last];
    assert ops[..|ops| - 1] == init;
    CommitCell(s, ops, x);
    CommitCell(s, init, x);
    if InUserSpace(x) {
      if x[1..] == last.key {
        assert x == UserKey(last.key);
      } else {
        assert x != UserKey(last.key);
      }
    }
  }

  lemma {:induction false} LastOnConcat(a: seq<KVOperation>, b: seq<KVOperation>, k: Bytes)
    ensures LastOn(a + b, k) == if LastOn(b, k).Some? then LastOn(b, k) else LastOn(a, k)
  {
    if b != [] {
      var init := b[..|b| - 1];
      assert (a + b)[..|a + b| - 1] == a + init;
      LastOnConcat(a, init, k);
    } else {
      assert a + b == a;
    }
  }

  lemma LastOnCons(o: KVOperation, rest: seq<KVOperation>, k: Bytes)
    ensures LastOn([o] + rest, k) ==
      if LastOn(rest, k).Some? then LastOn(rest, k) else if o.key == k then Some(o) else None
  {
    LastOnConcat([o], rest, k);
    assert [o][..0] == [];
  }

  /**
   * Flushing `a` and then `b` equals flushing `a + b`, unless an operation of
   * `b` that has no effect shadows an effective operation of `a` on the same key.
   */
  lemma CommitConcat(s: map<Bytes, Bytes>, a: seq<KVOperation>, b: seq<KVOperation>)
    requires forall o, p :: o in b && p in a && o.key == p.key && !Recognised(o) ==> !Recognised(p)
    ensures Commit(s, a + b) == Commit(Commit(s, a), b)
  {
    forall x ensures CellOf(Commit(s, a + b), x) == CellOf(Commit(Commit(s, a), b), x) {
      CommitConcatAt(s, a, b, x);
    }
    MapsAgree(Commit(s, a + b), Commit(Commit(s, a), b));
  }

  lemma CommitConcatAt(s: map<Bytes, Bytes>, a: seq<KVOperation>, b: seq<KVOperation>, x: Bytes)
    requires forall o, p :: o in b && p in a && o.key == p.key && !Recognised(o) ==> !Recognised(p)
    ensures CellOf(Commit(s, a + b), x) == CellOf(Commit(Commit(s, a), b), x)
  {
    CommitCell(s, a + b, x);
    CommitCell(s, a, x);
    CommitCell(Commit(s, a), b, x);
    if InUserSpace(x) {
      var k := x[1..];
      LastOnConcat(a, b, k);
      if LastOn(b, k).Some? && LastOn(a, k).Some? {
        var o, p := LastOn(b, k).value, LastOn(a, k).value;
        assert !Recognised(o) ==> !Recognised(p);
      }
    }
  }

  // ---------------------------------------------------------------------
  // Inverse operations
  // ---------------------------------------------------------------------

  /**
   * The inverse of one Set or Delete, given the committed cell of its key
   * before the block: Set on an absent key is undone by a Delete (which
   * carries the written value), Set on a present key by a Set of the
   * previous value, Delete on a present key by a Set of the value the Delete
   * carries, and Delete on an absent key by the empty entry.
   */
  function InverseOf(op: KVOperation, previous: Option<Bytes>): (r: KVOperation)
    requires Recognised(op)
    ensures r == EmptyOp <==> op.opType == DELETE && previous.None?
    ensures r != EmptyOp ==> Recognised(r) && r.key == op.key
    ensures op.opType == SET ==> Effect(r, Effect(op, previous)) == previous
    ensures op.opType == DELETE ==> Effect(r, Effect(op, previous)) == if previous.Some? then Some(op.value) else None
  {
    if op.opType == SET then
      if previous.None? then KVOperation(op.key, op.value, 0, DELETE)
      else KVOperation(op.key, previous.value, 0, SET)
    else
      if previous.None? then EmptyOp
      else KVOperation(op.key, op.value, 0, SET)
  }

  /** The stored inverse batch of a block: the inverse of every operation, each prepended, so in reverse order. */
  function InverseBatch(s: map<Bytes, Bytes>, ops: seq<KVOperation>): (r: seq<KVOperation>)
    requires AllRecognised(ops)
    ensures |r| == |ops|
  {
    if ops == [] then []
    else
      assert forall o :: o in ops[1..] ==> o in ops;
      InverseBatch(s, ops[1..]) + [InverseOf(ops[0], CellOf(s, UserKey(ops[0].key)))]
  }

  /** Position `|ops| - 1 - i` of the inverse batch undoes operation `i`, against the cell of its key before the block. */
  lemma {:induction false} InverseBatchAt(s: map<Bytes, Bytes>, ops: seq<KVOperation>)
    requires AllRecognised(ops)
    ensures forall i :: 0 <= i < |ops| ==> InverseBatch(s, ops)[|ops| - 1 - i] == InverseOf(ops[i], CellOf(s, UserKey(ops[i].key)))
  {
    if ops != [] {
      assert forall o :: o in ops[1..] ==> o in ops;
      InverseBatchAt(s, ops[1..]);
      var r, rest := InverseBatch(s, ops), InverseBatch(s, ops[1..]);
      forall i | 1 <= i < |ops| ensures r[|ops| - 1 - i] == InverseOf(ops[i], CellOf(s, UserKey(ops[i].key))) {
        assert r[|ops| - 1 - i] == rest[|ops[1..]| - 1 - (i - 1)] && ops[i] == ops[1..][i - 1];
      }
    }
  }

  /** Every entry of an inverse batch is the empty entry or a Set or Delete of a key of the block. */
  lemma {:induction false} InverseBatchKeys(s: map<Bytes, Bytes>, ops: seq<KVOperation>)
    requires AllRecognised(ops)
    ensures forall u :: u in InverseBatch(s, ops) ==> u == EmptyOp || (Recognised(u) && u.key in KeysOf(ops))
  {
    if ops != [] {
      assert forall o :: o in ops[1..] ==> o in ops;
      assert ops[0] in ops;
      InverseBatchKeys(s, ops[1..]);
    }
  }

  /** Every Delete of a present key carries the value it removes. */
  predicate DeletesCarryStored(s: map<Bytes, Bytes>, ops: seq<KVOperation>) {
    forall o :: o in ops && o.opType == DELETE && UserKey(o.key) in s ==> o.value == s[UserKey(o.key)]
  }

  predicate NoEmptyKey(ops: seq<KVOperation>) {
    forall o :: o in ops ==> o.key != []
  }

  lemma {:induction false} UndoRestoresKey(s: map<Bytes, Bytes>, ops: seq<KVOperation>, k: Bytes)
    requires AllRecognised(ops) && DeletesCarryStored(s, ops) && k != []
    ensures FinalCell(FinalCell(CellOf(s, UserKey(k)), ops, k), InverseBatch(s, ops), k) == CellOf(s, UserKey(k))
  {
    if ops != [] {
      var o, rest := ops[0], ops[1..];
      assert ops == [o] + rest;
      assert AllRecognised(rest) && DeletesCarryStored(s, rest);
      var c0 := CellOf(s, UserKey(k));
      var u := InverseOf(o, CellOf(s, UserKey(o.key)));
      var tail := InverseBatch(s, rest);
      assert InverseBatch(s, ops) == tail + [u];
      LastOnConcat(tail, [u], k);
      LastOnCons(o, rest, k);
      if u.key == k {
        assert u != EmptyOp && o.key == k;
      } else {
        if LastOn(rest, k).Some? {
          UndoRestoresKey(s, rest, k);
        } else {
          LastOnIsLast(rest, k);
          LastOnIsLast(tail, k);
          InverseBatchKeys(s, rest);
          assert LastOn(tail, k).None?;
        }
      }
    }
  }

  /**
   * Committing a block and then its inverse batch gives back the store,
   * provided Deletes carry the value they remove and no operation writes
   * the empty key (whose cell the empty entry would shadow).
   */
  lemma UndoRoundTrip(s: map<Bytes, Bytes>, ops: seq<KVOperation>)
    requires AllRecognised(ops) && DeletesCarryStored(s, ops) && NoEmptyKey(ops)
    ensures Commit(Commit(s, ops), InverseBatch(s, ops)) == s
  {
    forall x ensures CellOf(Commit(Commit(s, ops), InverseBatch(s, ops)), x) == CellOf(s, x) {
      UndoRestoresCell(s, ops, x);
    }
    MapsAgree(Commit(Commit(s, ops), InverseBatch(s, ops)), s);
  }

  lemma UndoRestoresCell(s: map<Bytes, Bytes>, ops: seq<KVOperation>, x: Bytes)
    requires AllRecognised(ops) && DeletesCarryStored(s, ops) && NoEmptyKey(ops)
    ensures CellOf(Commit(Commit(s, ops), InverseBatch(s, ops)), x) == CellOf(s, x)
  {
    var u := InverseBatch(s, ops);
    CommitCell(s, ops, x);
    CommitCell(Commit(s, ops), u, x);
    if InUserSpace(x) {
      var k := x[1..];
      assert UserKey(k) == x;
      if k != [] {
        UndoRestoresKey(s, ops, k);
      } else {
        LastOnIsLast(ops, k);
        LastOnIsLast(u, k);
        InverseBatchKeys(s, ops);
        assert LastOn(u, k).None? || LastOn(u, k).value == EmptyOp;
      }
    }
  }

  /** The empty entry shadows a Set of the empty key in the same block, so that key is not restored. */
  lemma EmptyKeyNotRestored()
    ensures var s := map[UserKey([]) := [1]];
            var ops := [KVOperation([5], [], 0, DELETE), KVOperation([], [2], 0, SET)];
            Commit(Commit(s, ops), InverseBatch(s, ops)) != s
  {
    var s := map[UserKey([]) := [1]];
    var ops := [KVOperation([5], [], 0, DELETE), KVOperation([], [2], 0, SET)];
    assert ops[1..] == [ops[1]] && ops[1..][1..] == [];
    var u := InverseBatch(s, ops);
    InverseBatchAt(s, ops);
    assert u == [KVOperation([], [1], 0, SET), EmptyOp];
    CommitCell(s, ops, UserKey([]));
    CommitCell(Commit(s, ops), u, UserKey([]));
    assert CellOf(Commit(s, ops), UserKey([])) == Some([2]);
    assert CellOf(Commit(Commit(s, ops), u), UserKey([])) == Some([2]);
  }

  /** A Delete with an empty value, as the module-side helper builds it, is undone to the empty value. */
  lemma DeleteWithoutValueNotRestored()
    ensures var s := map[UserKey([5]) := [1]];
            var ops := [KVOperation([5], [], 0, DELETE)];
            CellOf(Commit(Commit(s, ops), InverseBatch(s, ops)), UserKey([5])) == Some([])
  {
    var s := map[UserKey([5]) := [1]];
    var ops := [KVOperation([5], [], 0, DELETE)];
    assert InverseBatch(s, ops) == [KVOperation([5], [], 0, SET)];
    CommitCell(s, ops, UserKey([5]));
    CommitCell(Commit(s, ops), InverseBatch(s, ops), UserKey([5]));
  }

  /**
   * The inverse that restores the stored value: a Delete of a present key
   * is undone by a Set of the value the store held, whatever value the
   * Delete carries.
   * The other three cases are those of `InverseOf`.
   */
  function InverseOfStored(op: KVOperation, previous: Option<Bytes>): (r: KVOperation)
    requires Recognised(op)
    ensures Effect(r, Effect(op, previous)) == previous
    ensures op.opType == SET || previous.None? ==> r == InverseOf(op, previous)
    ensures op.opType == DELETE && previous.Some? ==> r == InverseOf(op.(value := previous.value), previous)
  {
    if op.opType == DELETE && previous.Some? then KVOperation(op.key, previous.value, 0, SET)
    else InverseOf(op, previous)
  }

  /** On the same valueless Delete, the inverse built from the stored value gives the removed value back. */
  lemma ValuelessDeleteRestoredByStoredInverse()
    ensures var s := map[UserKey([5]) := [1]];
            var op := KVOperation([5], [], 0, DELETE);
            var u := InverseOfStored(op, CellOf(s, UserKey([5])));
            CellOf(Commit(Commit(s, [op]), [u]), UserKey([5])) == Some([1])
  {
    var s := map[UserKey([5]) := [1]];
    var op := KVOperation([5], [], 0, DELETE);
    var u := InverseOfStored(op, CellOf(s, UserKey([5])));
    assert u == KVOperation([5], [1], 0, SET);
    CommitCell(s, [op], UserKey([5]));
    CommitCell(Commit(s, [op]), [u], UserKey([5]));
  }

  // ---------------------------------------------------------------------
  // Several blocks and a reorganisation
  // ---------------------------------------------------------------------

  /** The store after committing each block in turn (one flush per block). */
  function After(s: map<Bytes, Bytes>, blocks: seq<seq<KVOperation>>): map<Bytes, Bytes>
    decreases |blocks|
  {
    if blocks == [] then s else After(Commit(s, blocks[0]), blocks[1..])
  }

  predicate ValidChain(s: map<Bytes, Bytes>, blocks: seq<seq<KVOperation>>)
    decreases |blocks|
  {
    blocks == [] ||
    (AllRecognised(blocks[0]) && DeletesCarryStored(s, blocks[0]) && NoEmptyKey(blocks[0])
     && ValidChain(Commit(s, blocks[0]), blocks[1..]))
  }

  /** The undo batches of the blocks, newest block first, each computed against the store its block saw. */
  function UndoLog(s: map<Bytes, Bytes>, blocks: seq<seq<KVOperation>>): (r: seq<KVOperation>)
    requires ValidChain(s, blocks)
    ensures forall u :: u in r ==> u == EmptyOp || (Recognised(u) && u.key != [])
    decreases |blocks|
  {
    if blocks == [] then []
    else
      InverseBatchKeys(s, blocks[0]);
      UndoLog(Commit(s, blocks[0]), blocks[1..]) + InverseBatch(s, blocks[0])
  }

  /**
   * Replaying the undo batches of any number of flushed blocks, newest
   * first, and flushing, restores the store the first block started from.
   */
  lemma {:induction false} ReorgRestores(s: map<Bytes, Bytes>, blocks: seq<seq<KVOperation>>)
    requires ValidChain(s, blocks)
    ensures Commit(After(s, blocks), UndoLog(s, blocks)) == s
    decreases |blocks|
  {
    if blocks != [] {
      var s1 := Commit(s, blocks[0]);
      var older := UndoLog(s1, blocks[1..]);
      var mine := InverseBatch(s, blocks[0]);
      InverseBatchKeys(s, blocks[0]);
      ReorgRestores(s1, blocks[1..]);
      CommitConcat(After(s1, blocks[1..]), older, mine);
      UndoRoundTrip(s, blocks[0]);
    }
  }

  /**
   * When two blocks are buffered without a flush between them, the second
   * block's inverse is computed against a store that does not hold the first
   * block's write; replaying it then wipes the first block's value as well.
   */
  lemma StaleUndoLosesPendingWrite()
    ensures var s: map<Bytes, Bytes> := map[];
            var b1 := [KVOperation([5], [1], 0, SET)];
            var b2 := [KVOperation([5], [2], 0, SET)];
            CellOf(Commit(s, b1 + b2 + InverseBatch(s, b2)), UserKey([5])) == None
            && CellOf(Commit(s, b1), UserKey([5])) == Some([1])
  {
    var s: map<Bytes, Bytes> := map[];
    var b1 := [KVOperation([5], [1], 0, SET)];
    var b2 := [KVOperation([5], [2], 0, SET)];
    assert InverseBatch(s, b2) == [KVOperation([5], [2], 0, DELETE)];
    CommitCell(s, b1 + b2 + InverseBatch(s, b2), UserKey([5]));
    CommitCell(s, b1, UserKey([5]));
  }
}
