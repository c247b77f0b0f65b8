/**
 * The block handler of the sink (sinker/sinker.go): on start it makes sure
 * a checkpoint cursor exists; for every block it buffers the operations of
 * the output module, remembers the block's cursor and flushes every
 * thousand blocks; on a clean stop it writes the last cursor.
 */
module Sinker {
  import opened Bytes
  import opened Keys
  import opened Wrappers
  import opened KvStore
  import opened Operations
  import opened Codec
  import opened Cursors
  import opened OperationLog

  /** Blocks between two flushes. */
  const BlockProgress: nat := 1000

  /** One module output of a block: the module's name and its encoded map output. */
  datatype Output = Output(name: Bytes, value: Bytes)

  /**
   * The decoded batch each output contributes: its operations when it
   * belongs to module `name`, nothing when it belongs to another module.
   */
  function OutputBatches(outputs: seq<Output>, name: Bytes, unmarshal: Unmarshal): (r: seq<Result<seq<KVOperation>, CodecError>>)
    ensures |r| == |outputs|
  {
    seq(|outputs|, i requires 0 <= i < |outputs| =>
      if outputs[i].name == name then unmarshal(outputs[i].value) else Success([]))
  }

  /**
   * What the handler buffers from a block's outputs: the decoded
   * operations of every output of module `name`, in output order, up to
   * the first of them that does not decode, and that output's error.
   */
  function Collect(outputs: seq<Output>, name: Bytes, unmarshal: Unmarshal): (seq<KVOperation>, Option<CodecError>) {
    ReplayBatches(OutputBatches(outputs, name, unmarshal))
  }

  /** Folding two runs of batches: the second is read only if the first decoded. */
  lemma {:induction false} ReplayBatchesConcat(a: seq<Result<seq<KVOperation>, CodecError>>, b: seq<Result<seq<KVOperation>, CodecError>>)
    ensures ReplayBatches(a + b) ==
      if ReplayBatches(a).1.Some? then ReplayBatches(a)
      else (ReplayBatches(a).0 + ReplayBatches(b).0, ReplayBatches(b).1)
    decreases |b|
  {
    if b == [] {
      assert a + b == a;
      assert ReplayBatches(a).0 + [] == ReplayBatches(a).0;
    } else {
      var init := b[..|b| - 1];
      ReplayBatchesConcat(a, init);
      assert (a + b)[..|a + b| - 1] == a + init;
      assert (a + b)[|a + b| - 1] == b[|b| - 1];
      if ReplayBatches(a).1.None? && ReplayBatches(init).1.None? && b[|b| - 1].Success? {
        var x, y, z := ReplayBatches(a).0, ReplayBatches(init).0, b[|b| - 1].value;
        assert (x + y) + z == x + (y + z);
      }
    }
  }

  /** Batches that contribute nothing leave the buffer as it was. */
  lemma {:induction false} ReplayEmptyBatches(batches: seq<Result<seq<KVOperation>, CodecError>>)
    requires forall i :: 0 <= i < |batches| ==> batches[i] == Success([])
    ensures ReplayBatches(batches) == ([], None)
  {
    if batches != [] {
      ReplayEmptyBatches(batches[..|batches| - 1]);
      var none: seq<KVOperation> := [];
      assert none + none == none;
    }
  }

  /** Outputs of other modules contribute nothing. */
  lemma CollectSkipsOthers(outputs: seq<Output>, name: Bytes, unmarshal: Unmarshal)
    requires forall o :: o in outputs ==> o.name != name
    ensures Collect(outputs, name, unmarshal) == ([], None)
  {
    var batches := OutputBatches(outputs, name, unmarshal);
    forall i | 0 <= i < |batches| ensures batches[i] == Success([]) {
      assert outputs[i] in outputs;
    }
    ReplayEmptyBatches(batches);
  }

  lemma OutputBatchesConcat(a: seq<Output>, b: seq<Output>, name: Bytes, unmarshal: Unmarshal)
    ensures OutputBatches(a + b, name, unmarshal) == OutputBatches(a, name, unmarshal) + OutputBatches(b, name, unmarshal)
  {
    var l, r := OutputBatches(a + b, name, unmarshal), OutputBatches(a, name, unmarshal) + OutputBatches(b, name, unmarshal);
    forall i | 0 <= i < |a| ensures l[i] == r[i] {
      assert (a + b)[i] == a[i];
    }
    forall i | |a| <= i < |l| ensures l[i] == r[i] {
      assert (a + b)[i] == b[i - |a|];
    }
  }

  /** Outputs are read in order: the second part only counts if the first decoded. */
  lemma CollectConcat(a: seq<Output>, b: seq<Output>, name: Bytes, unmarshal: Unmarshal)
    ensures Collect(a + b, name, unmarshal) ==
      if Collect(a, name, unmarshal).1.Some? then Collect(a, name, unmarshal)
      else (Collect(a, name, unmarshal).0 + Collect(b, name, unmarshal).0, Collect(b, name, unmarshal).1)
  {
    OutputBatchesConcat(a, b, name, unmarshal);
    ReplayBatchesConcat(OutputBatches(a, name, unmarshal), OutputBatches(b, name, unmarshal));
  }

  /** A single output of the module contributes what its value decodes to. */
  lemma CollectSingle(o: Output, name: Bytes, unmarshal: Unmarshal)
    requires o.name == name
    ensures Collect([o], name, unmarshal) ==
      match unmarshal(o.value)
      case Success(ops) => (ops, None)
      case Failure(e) => ([], Some(e))
  {
    assert OutputBatches([o], name, unmarshal) == [unmarshal(o.value)];
    ReplaySingle(unmarshal(o.value));
  }

  lemma ReplaySingle(b: Result<seq<KVOperation>, CodecError>)
    ensures ReplayBatches([b]) ==
      match b
      case Success(ops) => (ops, None)
      case Failure(e) => ([], Some(e))
  {
    var one := [b];
    assert one[..0] == [];
    var none: seq<KVOperation> := [];
    if b.Success? {
      assert none + b.value == b.value;
    }
  }

  /** A single output of the module delivers the batch it encodes. */
  lemma CollectOwnOutput(ops: seq<KVOperation>, name: Bytes)
    ensures Collect([Output(name, EncodeOperations(ops))], name, DecodeOperations) == (ops, None)
  {
    CollectSingle(Output(name, EncodeOperations(ops)), name, DecodeOperations);
    OperationsRoundTrip(ops);
  }

  /** The encoded batch of the output module reaches the buffer unchanged, whatever other modules output. */
  lemma CollectDeliversBatch(before: seq<Output>, ops: seq<KVOperation>, after: seq<Output>, name: Bytes)
    requires forall o :: o in before + after ==> o.name != name
    ensures Collect(before + [Output(name, EncodeOperations(ops))] + after, name, DecodeOperations) == (ops, None)
  {
    assert forall o :: o in before ==> o in before + after;
    assert forall o :: o in after ==> o in before + after;
    CollectSkipsOthers(before, name, DecodeOperations);
    CollectSkipsOthers(after, name, DecodeOperations);
    var mine := [Output(name, EncodeOperations(ops))];
    CollectOwnOutput(ops, name);
    CollectConcat(before, mine, name, DecodeOperations);
    CollectConcat(before + mine, after, name, DecodeOperations);
    var none: seq<KVOperation> := [];
    assert none + ops == ops && ops + none == ops;
  }

  class KVSinker {
    const db: OperationDB
    const outputModuleName: Bytes
    /** The hex form of the output module's hash, which names its cursor key. */
    const moduleHash: Bytes
    /** The output module's initial block, and the start of the requested block range. */
    const initialBlock: uint64
    const startBlock: uint64
    var lastCursor: Option<Cursor>

    ghost predicate Valid()
      reads this, db, db.store
    {
      db.Valid()
    }

    constructor (db: OperationDB, outputModuleName: Bytes, moduleHash: Bytes, initialBlock: uint64, startBlock: uint64)
      requires db.Valid()
      ensures Valid() && lastCursor.None?
      ensures this.db == db && this.outputModuleName == outputModuleName && this.moduleHash == moduleHash
      ensures this.initialBlock == initialBlock && this.startBlock == startBlock
    {
      this.db := db;
      this.outputModuleName := outputModuleName;
      this.moduleHash := moduleHash;
      this.initialBlock := initialBlock;
      this.startBlock := startBlock;
      lastCursor := None;
    }

    /** The cursor written on a cold start: no token, no block id, the block before the range. */
    function InitialCursor(): (c: Cursor)
      reads this
      ensures c.cursor == [] && c.blockID == []
      ensures startBlock > 0 ==> c.blockNum == startBlock - 1
      ensures startBlock == 0 ==> c.blockNum == initialBlock
    {
      Cursor([], [], if startBlock > 0 then startBlock - 1 else initialBlock)
    }

    /**
     * Start up to streaming: read the checkpoint cursor and, when there is
     * none, write the initial one. Any other cursor error aborts before
     * anything is written.
     */
    method Start() returns (err: Option<DbError>)
      requires Valid()
      modifies db.store
      ensures Valid() && db.store.available == old(db.store.available)
      ensures !old(db.store.available) ==> err == Some(StoreFailure(IOError)) && db.store.Contents() == old(db.store.Contents())
      ensures old(db.store.available) && CursorKey(moduleHash) !in old(db.store.Contents()) ==>
        err == None && db.store.Contents() == old(db.store.Contents())[CursorKey(moduleHash) := CursorToBytes(InitialCursor())]
      ensures old(db.store.available) && CursorKey(moduleHash) in old(db.store.Contents()) ==>
        db.store.Contents() == old(db.store.Contents())
        && (err == None <==> CursorFromBytes(old(db.store.Contents())[CursorKey(moduleHash)]).Success?)
        && (err != None ==> err == Some(MalformedCursor))
    {
      var stored := db.GetCursor(moduleHash);
      if stored.Failure? && stored.error != CursorNotFound {
        return Some(stored.error);
      }
      if stored.Failure? {
        err := db.WriteCursor(moduleHash, InitialCursor());
        return;
      }
      err := None;
    }

    /** On termination without error, write the last cursor seen, if any; a write failure is ignored. */
    method Stop(failed: bool)
      requires Valid()
      modifies db.store
      ensures Valid() && db.store.available == old(db.store.available)
      ensures lastCursor.None? || failed || !db.store.available ==> db.store.Contents() == old(db.store.Contents())
      ensures lastCursor.Some? && !failed && db.store.available ==>
        db.store.Contents() == old(db.store.Contents())[CursorKey(moduleHash) := CursorToBytes(lastCursor.value)]
    {
      if lastCursor.None? || failed {
        return;
      }
      var _ := db.WriteCursor(moduleHash, lastCursor.value);
    }

    /**
     * One block: buffer the operations of the output module, remember the
     * block's cursor, and flush when the block number is a multiple of
     * `BlockProgress`. An output that does not decode ends the call before
     * the cursor is remembered; what earlier outputs gave stays buffered.
     */
    method HandleBlockScopeData(c: Cursor, outputs: seq<Output>) returns (err: Option<DbError>)
      requires Valid()
      modifies this, db, db.store
      ensures Valid() && db.store.available == old(db.store.available)
      ensures var collected := Collect(outputs, outputModuleName, DecodeOperations);
        collected.1.Some? ==>
          err == Some(Undecodable(collected.1.value)) && lastCursor == old(lastCursor)
          && db.pendingOperations == old(db.pendingOperations) + collected.0
          && db.store.Contents() == old(db.store.Contents())
      ensures var collected := Collect(outputs, outputModuleName, DecodeOperations);
        collected.1.None? && c.blockNum % BlockProgress != 0 ==>
          err == None && lastCursor == Some(c)
          && db.pendingOperations == old(db.pendingOperations) + collected.0
          && db.store.Contents() == old(db.store.Contents())
      ensures var collected := Collect(outputs, outputModuleName, DecodeOperations);
        collected.1.None? && c.blockNum % BlockProgress == 0 && !old(db.store.available) ==>
          err == Some(StoreFailure(IOError)) && lastCursor == Some(c)
          && db.pendingOperations == old(db.pendingOperations) + collected.0
          && db.store.Contents() == old(db.store.Contents())
      ensures var collected := Collect(outputs, outputModuleName, DecodeOperations);
        collected.1.None? && c.blockNum % BlockProgress == 0 && old(db.store.available) ==>
          err == None && lastCursor == Some(c) && db.pendingOperations == []
          && db.store.Contents() == Commit(old(db.store.Contents()), old(db.pendingOperations) + collected.0)[CursorKey(moduleHash) := CursorToBytes(c)]
    {
      err := BufferOutputs(db, outputs, outputModuleName, DecodeOperations);
      if err.Some? {
        return;
      }
      lastCursor := Some(c);
      if c.blockNum % BlockProgress == 0 {
        var count;
        count, err := db.Flush(moduleHash, c);
      }
    }
  }

  /** One more output read by the handler's loop. */
  lemma CollectStep(outputs: seq<Output>, name: Bytes, unmarshal: Unmarshal, i: nat)
    requires i < |outputs| && Collect(outputs[..i], name, unmarshal).1 == None
    ensures outputs[i].name != name ==> Collect(outputs[..i + 1], name, unmarshal) == Collect(outputs[..i], name, unmarshal)
    ensures outputs[i].name == name && unmarshal(outputs[i].value).Success? ==>
      Collect(outputs[..i + 1], name, unmarshal) == (Collect(outputs[..i], name, unmarshal).0 + unmarshal(outputs[i].value).value, None)
    ensures outputs[i].name == name && unmarshal(outputs[i].value).Failure? ==>
      Collect(outputs[..i + 1], name, unmarshal) == (Collect(outputs[..i], name, unmarshal).0, Some(unmarshal(outputs[i].value).error))
  {
    assert outputs[..i + 1] == outputs[..i] + [outputs[i]];
    CollectConcat(outputs[..i], [outputs[i]], name, unmarshal);
    var prev := Collect(outputs[..i], name, unmarshal).0;
    if outputs[i].name != name {
      CollectSkipsOthers([outputs[i]], name, unmarshal);
      assert prev + [] == prev;
    } else {
      CollectSingle(outputs[i], name, unmarshal);
      var d := unmarshal(outputs[i].value);
      if d.Success? {
        assert Collect([outputs[i]], name, unmarshal) == (d.value, None);
      } else {
        assert Collect([outputs[i]], name, unmarshal) == ([], Some(d.error));
        assert prev + [] == prev;
      }
    }
  }

  /** Once an output of the module fails to decode, later outputs are not read. */
  lemma CollectStopped(outputs: seq<Output>, name: Bytes, unmarshal: Unmarshal, n: nat)
    requires n <= |outputs| && Collect(outputs[..n], name, unmarshal).1.Some?
    ensures Collect(outputs, name, unmarshal) == Collect(outputs[..n], name, unmarshal)
  {
    assert outputs == outputs[..n] + outputs[n..];
    CollectConcat(outputs[..n], outputs[n..], name, unmarshal);
  }

  /** The loop of `HandleBlockScopeData` over the block's outputs. */
  method BufferOutputs(db: OperationDB, outputs: seq<Output>, name: Bytes, unmarshal: Unmarshal) returns (err: Option<DbError>)
    modifies db
    ensures db.pendingOperations == old(db.pendingOperations) + Collect(outputs, name, unmarshal).0
    ensures err == if Collect(outputs, name, unmarshal).1.Some? then Some(Undecodable(Collect(outputs, name, unmarshal).1.value)) else None
  {
    for i := 0 to |outputs|
      invariant Collect(outputs[..i], name, unmarshal).1 == None
      invariant db.pendingOperations == old(db.pendingOperations) + Collect(outputs[..i], name, unmarshal).0
    {
      err := BufferOutput(db, outputs, name, unmarshal, i, old(db.pendingOperations));
      if err.Some? {
        CollectStopped(outputs, name, unmarshal, i + 1);
        return;
      }
    }
    assert outputs[..|outputs|] == outputs;
    err := None;
  }

  /** One output of the loop: buffer its operations when it belongs to the module and decodes. */
  method BufferOutput(db: OperationDB, outputs: seq<Output>, name: Bytes, unmarshal: Unmarshal, i: nat, ghost base: seq<KVOperation>)
    returns (err: Option<DbError>)
    requires i < |outputs| && Collect(outputs[..i], name, unmarshal).1 == None
    requires db.pendingOperations == base + Collect(outputs[..i], name, unmarshal).0
    modifies db
    ensures db.pendingOperations == base + Collect(outputs[..i + 1], name, unmarshal).0
    ensures err == if Collect(outputs[..i + 1], name, unmarshal).1.Some? then Some(Undecodable(Collect(outputs[..i + 1], name, unmarshal).1.value)) else None
  {
    CollectStep(outputs, name, unmarshal, i);
    if outputs[i].name != name {
      return None;
    }
    var decoded := unmarshal(outputs[i].value);
    if decoded.Failure? {
      return Some(Undecodable(decoded.error));
    }
    db.AddOperations(decoded.value);
    err := None;
  }
}
