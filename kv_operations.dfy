/**
 * The builder a substreams module uses to emit its map output
 * (src/helpers.rs): a list of operations to which Set and Delete
 * operations are appended, in emission order.
 */
module KvOperations {
  import opened Bytes
  import opened Keys
  import opened Wrappers
  import opened Operations

  class KVOperations {
    var operations: seq<KVOperation>

    constructor ()
      ensures operations == []
    {
      operations := [];
    }

    /** push_new: append a Set of `value` on `key` at `ordinal`; earlier operations stay as they were. */
    method PushNew(key: Bytes, value: Bytes, ordinal: uint64)
      modifies this
      ensures operations == old(operations) + [KVOperation(key, value, ordinal, SET)]
    {
      operations := operations + [KVOperation(key, value, ordinal, SET)];
    }

    /** push_delete: append a Delete of `key` at `ordinal`, carrying no value. */
    method PushDelete(key: Bytes, ordinal: uint64)
      modifies this
      ensures operations == old(operations) + [KVOperation(key, [], ordinal, DELETE)]
    {
      operations := operations + [KVOperation(key, [], ordinal, DELETE)];
    }
  }

  /** After a flush, the key of the last pushed Set holds its value, whatever was pushed before. */
  lemma PushedSetLands(s: map<Bytes, Bytes>, earlier: seq<KVOperation>, key: Bytes, value: Bytes, ordinal: uint64)
    ensures var ops := earlier + [KVOperation(key, value, ordinal, SET)];
            UserKey(key) in Commit(s, ops) && Commit(s, ops)[UserKey(key)] == value
  {
    var ops := earlier + [KVOperation(key, value, ordinal, SET)];
    CommitCell(s, ops, UserKey(key));
    assert UserKey(key)[1..] == key;
  }

  /** After a flush, the key of the last pushed Delete is gone, whatever was pushed before. */
  lemma PushedDeleteRemoves(s: map<Bytes, Bytes>, earlier: seq<KVOperation>, key: Bytes, ordinal: uint64)
    ensures UserKey(key) !in Commit(s, earlier + [KVOperation(key, [], ordinal, DELETE)])
  {
    var ops := earlier + [KVOperation(key, [], ordinal, DELETE)];
    CommitCell(s, ops, UserKey(key));
    assert UserKey(key)[1..] == key;
  }

  /** Other keys are left to the earlier operations. */
  lemma PushLeavesOtherKeys(s: map<Bytes, Bytes>, earlier: seq<KVOperation>, op: KVOperation, x: Bytes)
    requires x != UserKey(op.key)
    ensures CellOf(Commit(s, earlier + [op]), x) == CellOf(Commit(s, earlier), x)
  {
    CommitCell(s, earlier + [op], x);
    CommitCell(s, earlier, x);
    if InUserSpace(x) {
      assert UserKey(x[1..]) == x;
    }
  }
}
