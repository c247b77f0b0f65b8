# substreams-sink-kv: the reorg-aware operation log, in Dafny

This project models the core of `substreams-sink-kv`. That program is the sink that writes the key/value
operations a substreams module emits for each block into a key-value store. It must stay correct when
the chain forks. The model covers:

- **The operation log** (`OperationLog`, db/db.go and db/cursor.go). `OperationDB` is a class holding
  the pending operations of blocks that are not yet flushed. It sits in front of a backing store
  (`KvStore.KVStore`). On every new block it:
  - purges the undo records of blocks that became final;
  - computes and stores the block's undo batch, which holds the inverse of each operation, newest first;
  - buffers the block's operations.

  On a fork it scans the undo records of the forked blocks, newest block first, and feeds them back
  into the buffer. A flush writes the last pending operation of each key together with the checkpoint
  cursor. Its read path (`Get`, `GetMany`, `GetByPrefix`, `Scan`) sees only committed user records.
- **The key-space** (`Keys`). It holds three kinds of record:
  - user records under `'k' . key`;
  - undo records under `"xu" . BigEndian64(MaxUint64 - block)`, so a forward scan meets the newest block first;
  - the cursor under `"xc" . moduleHash`.

  `Bytes` gives the store's lexicographic key order and the big-endian encoding.
- **Meaning and inverses** (`Operations`). `Commit` is what a flush does to the store (last write per
  key wins). `InverseOf` and `InverseBatch` are the undo batch of a block. The lemmas prove that a block
  followed by its undo batch, and any sequence of flushed blocks followed by their undo batches newest first,
  give back the starting store. They also state the conditions under which this holds.
- **The wire encoding** of a batch of operations (`Codec`, a protocol-buffers encoding) and the text
  form of the checkpoint cursor (`Cursors`).
- **The older log variant** (`LegacyLog`, db/ops.go). It records reversed batches without looking at
  the fork step and flushes every `batchModulo` blocks.
- **The in-memory reader** (`MockReader`, db/mock.go).
- **The block handler** (`Sinker`, sinker/sinker.go). It buffers the output module's operations, keeps
  the last cursor, flushes every 1000 blocks and writes an initial cursor on a cold start.
- **The configuration of the two WASM query servers** (`QueryConfig` for wasmquery/config.go,
  `WasmConfig` for server/wasm/config.go). Both use the shared naming rules of `GrpcNames`.
- **The module-side operation builder** (`KvOperations`, src/helpers.rs) and the month helper of the
  block-meta example (`BlockMetaKeys`).

`KvStore.KVStore` stands for the kvdb store that the log consumes. It is an ordered map kept as a
strictly key-sorted list of entries. A store that is not `available` answers every call with an I/O
error and changes nothing. Its contracts are the assumptions the model makes about that store.

Two behaviours of the code bear on the undo round trip:

- The inverse of a Delete of a present key is a Set of the value the Delete **carries**
  (db/db.go:184-188), not of the stored value. The round-trip lemmas therefore assume that every
  Delete of a present key carries the stored value (`Operations.DeletesCarryStored`).
  `Operations.DeleteWithoutValueNotRestored` shows what happens otherwise. The log keeps the code's inverse; the stored-value inverse
  `Operations.InverseOfStored` is given beside it (see "Findings").
- A Delete of an absent key records a nil entry (db/db.go:181-183), not nothing. Once marshalled, that
  entry reads back as an entry with every field at its default (`Operations.EmptyOp`: empty key, type
  0). A flush treats it as an operation on the empty key.

## Model

| member | source | states |
|---|---|---|
| Keys.UserKeyRoundTrip | db/db.go:341-346 | the tagged user key is one byte longer than the key, and stripping the tag gives the key back |
| Keys.IsUserKeyOfUserKey | db/db.go:355-360 | isUserKey accepts the tagged form of a key exactly when the key is not empty; the bare tag byte is not a user key |
| Keys.IsUserKeyIsEncoding | db/db.go:362-365 | every key that isUserKey accepts is the tagged form of what fromUserKey returns for it |
| Keys.UndoKeyRoundTrip | db/db.go:348-353 | an undo key is recognised as one, and the block number read back from it is the block it was built for |
| Keys.UndoKeyInjective | db/db.go:348-353 | two blocks share an undo key exactly when they are the same block |
| Keys.UndoKeyOrder | db/db.go:348-353 | the undo key of block m sorts below that of block n exactly when m > n, so scans meet the newest block first |
| Keys.UndoKeyIsLegacyUndoKey | db/ops.go:287-291 | the older variant's appended undo key and the ten-byte buffer of db/db.go are the same bytes |
| Keys.PurgeRange | db/db.go:117 | the purge range [undoKey(H), undoKey(0)) holds the undo key of block b exactly when 1 <= b <= H |
| Keys.ReplayRange | db/db.go:195 | the replay range [undoKey(MaxUint64), undoKey(L)) holds the undo key of block b exactly when b > L |
| Keys.CursorKeyBetween | db/cursor.go:16-20 | every user key sorts below every cursor key, which sorts below every undo key, so the three kinds never collide |
| Keys.UndoRangeHoldsOnlyUndoKeys | db/db.go:114-128 | among the keys the log writes, only undo keys lie between two undo keys |
| Keys.OtherKeysBelowUndoKeys | db/db.go:55-56 | user and cursor keys sort below every undo key |
| Keys.BelowInfiniteEnd | db/db.go:61-65 | every key the log writes sorts below the 128-byte 0xFF scan sentinel |
| Bytes.BigEndianRoundTrip | db/db.go:348-353 | reading back a fixed-width big-endian encoding gives the number |
| Bytes.FromBigEndianRoundTrip | db/db.go:348-353 | encoding the number a byte string stands for, at its width, gives the string back |
| Bytes.BigEndianOrder | db/db.go:348-353 | equal-width big-endian encodings sort as the numbers they encode |
| Operations.LastOnIsLast | db/db.go:217-236 | the last operation found on a key is absent exactly when no operation has the key; otherwise no later operation has the key |
| Operations.CommitCell | db/db.go:78-95 | after a flush, each user cell holds the effect of the last pending operation on its key; other cells are unchanged |
| Operations.CommitIsReplay | db/db.go:78-95 | for Set/Delete batches, keeping the last operation per key equals applying the operations one by one |
| Operations.CommitConcat | db/db.go:78-95 | flushing a then b equals flushing a + b, unless an operation of b with no effect shadows one of a on the same key |
| Operations.InverseOf | db/db.go:165-192 | the inverse is empty exactly for a Delete of an absent key; applied after the operation, it restores the previous cell for a Set, and the carried value for a Delete |
| Operations.InverseBatchAt | db/db.go:150-163 | position n-1-i of the undo batch is the inverse of operation i, read against the cell of its key before the block |
| Operations.InverseBatchKeys | db/db.go:150-163 | every entry of an undo batch is the empty entry, or a Set or Delete of a key of the block |
| Operations.UndoRoundTrip | db/db.go:150-192 | flushing a block and then its undo batch gives back the store, when Deletes carry the stored value and no operation has the empty key |
| Operations.UndoRestoresCell | db/db.go:150-192 | the same round trip, stated for each cell of the store |
| Operations.EmptyKeyNotRestored | db/db.go:180-183 | counterexample: the empty entry shadows a Set of the empty key in the same block, so that key is not restored |
| Operations.DeleteWithoutValueNotRestored | src/helpers.rs:13-20 | counterexample: a Delete built without a value is undone to the empty value, not to the removed one |
| Operations.InverseOfStored | db/db.go:180-188 | the inverse with a Delete of a present key undone by a Set of the stored value: applied after the operation it restores the previous cell in all four cases, and it agrees with the code's inverse everywhere else |
| Operations.ValuelessDeleteRestoredByStoredInverse | src/helpers.rs:13-20 | on the valueless Delete of the counterexample, the stored-value inverse gives the removed value back |
| Operations.UndoLog | db/db.go:194-211 | the concatenated undo batches of a sequence of blocks, newest first, hold only empty entries and Sets/Deletes of non-empty keys |
| Operations.ReorgRestores | db/db.go:194-211 | after any number of flushed blocks, flushing their undo batches newest first restores the store the first block started from |
| Operations.StaleUndoLosesPendingWrite | db/db.go:150-158 | undo batches read the committed store, not the buffer: with two blocks buffered, undoing the second also erases the first block's write |
| Codec.VarintRoundTrip | db/db.go:130-135 | decoding a varint followed by any bytes gives its value and its length |
| Codec.OperationsRoundTrip | db/db.go:199-208 | unmarshalling a marshalled batch of operations gives the batch back |
| Cursors.Split | db/cursor.go:49 | splitting on ':' gives colon-free parts that join back to the input |
| Cursors.SplitJoin | db/cursor.go:49 | splitting the ':'-join of colon-free parts gives the parts back |
| Cursors.DecimalRoundTrip | db/cursor.go:44 | the decimal digits written for a block number read back as that number |
| Cursors.ParseUint64 | db/cursor.go:53-56 | parsing succeeds exactly on one or more decimal digits whose value fits in 64 bits, and yields that value |
| Cursors.CursorFromBytes | db/cursor.go:48-62 | a cursor is read exactly when the text has three ':'-separated parts and the last parses as a 64-bit number |
| Cursors.CursorRoundTrip | db/cursor.go:43-62 | a cursor whose token and block id hold no ':' reads back unchanged |
| Cursors.ColonInTokenNotReadable | db/cursor.go:43-56 | a ':' in the cursor token makes the written cursor unreadable |
| OperationLog.OperationDB.constructor | db/db.go:36-47 | a new log has an empty buffer over the given store and row limit |
| OperationLog.OperationDB.AddOperation | db/db.go:73-76 | the operation is appended to the pending operations |
| OperationLog.OperationDB.AddOperations | db/db.go:67-71 | the operations are appended in order |
| OperationLog.OperationDB.Reset | db/db.go:238-240 | the buffer is emptied |
| OperationLog.OperationDB.GroupByKey | db/db.go:217-222 | every key of the batch gets a non-empty group whose last element is the last operation on that key, and no other key gets one |
| OperationLog.OperationDB.LastOperationPerKey | db/db.go:217-236 | puts are exactly the Sets that are last on their key; deletes are exactly the tagged keys whose last operation is a Delete; neither repeats a key; together they count the keys whose last operation has an effect |
| OperationLog.OperationDB.WriteCursor | db/cursor.go:35-41 | on a working store the cursor's text form is stored under the cursor key; otherwise an I/O error and nothing changes |
| OperationLog.OperationDB.GetCursor | db/cursor.go:22-33 | returns the stored cursor, cursor-not-found when there is none, malformed when its text does not parse, and an I/O error on a failing store |
| OperationLog.OperationDB.Flush | db/db.go:78-95 | on a working store: the store becomes the commit of the buffer plus the cursor, the buffer empties, and the count is the number of keys written or deleted; on a failing store nothing changes and the count is 0 |
| OperationLog.FlushCell | db/db.go:78-95 | the puts written one by one and the batched delete leave every cell as the commit of the buffer |
| OperationLog.OperationDB.GenerateUndoOperations | db/db.go:150-192 | the undo batch is the inverse of every operation, newest first, read against the committed store; the first operation of an unknown type or a failing lookup gives an error |
| OperationLog.UndoOperationsAsWritten | db/db.go:150-163 | generation as written: it only succeeds when every key is present, and then every entry is a Set |
| OperationLog.FreshSetHasNoUndo | db/db.go:153-157 | for a Set of a fresh key the written generation fails with not-found, where the intended one yields the Delete that undoes it |
| OperationLog.StoredInverseOfFreshSet | db/db_test.go:164-180 | on a store without key.3, the undo batch the log generates for a Set of key.3 is a Delete carrying value.3, and its encoding is the 20 bytes the test expects |
| OperationLog.StoredInverseOfOverwrite | db/db_test.go:182-206 | after a flush that set key.3 to value.4, the generated undo batch of a Set of key.3 is a Set restoring value.4, with the expected 20 bytes |
| OperationLog.StoredInverseOfAbsentDelete | db/db_test.go:207-223 | on a store without key.2, the generated undo batch of a Delete of key.2 is one empty entry, encoded as the bytes 10 0 |
| OperationLog.StoredInverseOfDelete | db/db_test.go:224-248 | after a flush that set key.3 to value.3, the generated undo batch of a Delete of key.3 is a Set of the carried value, with the expected 20 bytes |
| OperationLog.OperationDB.StoreUndoOperations | db/db.go:130-148 | the encoded undo batch is stored under the block's undo key; a generation error is returned and the store is unchanged |
| OperationLog.OperationDB.DeleteLIBUndoOperations | db/db.go:114-128 | the store becomes the purge of the undo records of blocks 1 to the final height |
| OperationLog.PurgeCorrect | db/db.go:114-128 | on well-formed keys, purging removes exactly the undo records of blocks 1..H and keeps every other record and its value |
| OperationLog.OperationDB.HandleOperations | db/db.go:97-112 | outside StepNew the operations are only buffered; on StepNew the store is purged and receives the block's undo record, and the operations are buffered only when both steps succeed |
| OperationLog.OperationDB.HandleBlockUndo | db/db.go:194-211 | the decoded undo records of the scanned range are appended to the buffer in scan order, up to the first one that does not decode, whose error is returned |
| OperationLog.OperationDB.AddUndoRecords | db/db.go:199-210 | the loop appends each decoded record in order and stops at the first decoding error, keeping what came before |
| OperationLog.ReplayFeedsNewestFirst | db/db.go:194-198 | the replay scan yields exactly the undo records of blocks above the last valid block, in strictly decreasing block order |
| OperationLog.ReplayedUndoLog | db/db.go:194-211 | replaying the records a sequence of blocks stored, newest first, yields the sequence's undo log with no error |
| OperationLog.ReplayRestores | db/db.go:194-211 | flushing what the replay buffered takes the store back to where the sequence of blocks started |
| OperationLog.OperationDB.DeleteUndoKeys | db/db.go:213-215 | the given keys are removed from the store |
| OperationLog.OperationDB.Get | db/db.go:242-248 | the stored value of the tagged key, not-found when absent, the store error otherwise |
| OperationLog.OperationDB.GetMany | db/db.go:250-269 | no keys is invalid; all keys present gives their values in order; a missing key gives not-found; a failing store gives no values and no error |
| OperationLog.BatchGetOfAll | db/db.go:259-267 | a batched get over keys that are all stored yields their values in order, and otherwise reports not-found |
| OperationLog.OperationDB.GetByPrefix | db/db.go:271-302 | the limit defaults to the row limit and must lie in [0, row limit], and the prefix must not be empty; returns the first matches in key order, not-found when there are none, and whether more matched |
| OperationLog.PrefixMatches | db/db.go:282-293 | the prefix query returns exactly the stored user entries whose untagged key starts with the prefix, in ascending order |
| OperationLog.OperationDB.TakeEntries | db/db.go:283-294 | takes the first lim entries, and the limit is reached exactly when more entries came |
| OperationLog.OperationDB.Scan | db/db.go:304-339 | the limit rules of the read path; the answer is the scan result over the first lim+1 entries of [userKey(begin), end), where end is the sentinel when no end is given, and not-found when no user entry is among them |
| OperationLog.OperationDB.ScanAnswer | db/db.go:332-338 | no user entry among the scanned entries is not-found; otherwise the taken user entries and the limit flag |
| OperationLog.OperationDB.ScanUserEntries | db/db.go:317-331 | skipping non-user keys, the loop returns the first lim user entries, and sets the flag exactly when a further user entry follows them |
| OperationLog.RangeUsersFirst | db/db.go:312-321 | with no bare "k" key stored, a range from a user key to a user key or the sentinel lists all its user entries before any other |
| OperationLog.ScanLimitExact | db/db.go:304-331 | with no bare "k" key stored, the values are the first user entries of the range and the flag is set exactly when the range holds more than the limit |
| OperationLog.ScanLimitMissed | db/db.go:317-325 | with the bare "k" key stored, a scan from the empty key with limit 1 over two user keys reports that the limit was not reached |
| LegacyLog.ReverseOperation | db/ops.go:98-128 | UNSET has no reverse (panic); Set and Delete reverse as in the current log; any other type leaves the nil entry |
| LegacyLog.ReverseBatch | db/ops.go:95-135 | the reversed batch exists exactly when no operation is UNSET; position n-1-i reverses operation i |
| LegacyLog.ReverseBatchIsInverseBatch | db/ops.go:95-135 | on Set and Delete batches, the older variant records the same undo batch as the current one |
| LegacyLog.UnknownTypeRecordsEmptyEntry | db/ops.go:101-130 | an operation of type 3 is recorded as the empty entry, where the current log rejects it |
| LegacyLog.ReverseOperations | db/ops.go:95-135 | the loop computes the reversed batch against the store, with a failing store treated as empty |
| LegacyLog.StoreReverseOperations | db/ops.go:81-93 | the encoded reversed batch is stored under the block's undo key; UNSET is an error and changes nothing |
| LegacyLog.HandleOperationsBatched | db/ops.go:60-80 | the block's reversed batch is stored and its operations buffered; when the block number is a multiple of batchModulo, the buffer is committed with the cursor |
| MockReader.MockDB.constructor | db/mock.go:14-22 | the reader holds the given map |
| MockReader.MockDB.Get | db/mock.go:47-52 | the value exactly when the key is present, not-found otherwise |
| MockReader.MockDB.GetMany | db/mock.go:54-63 | all keys present gives their values in order; otherwise not-found and no values; an empty key list is no error |
| MockReader.Matching | db/mock.go:66-70 | the keys of the walk that start with the prefix, and only those |
| MockReader.MockDB.TakeMatching | db/mock.go:66-77 | the first matches in walk order; the limit is reached exactly when a positive limit is at most the number of matches |
| MockReader.MockDB.GetByPrefix | db/mock.go:65-82 | the first min(limit, matches) entries in walk order, or all of them when the limit is not positive; not-found when none matches |
| Sinker.KVSinker.constructor | sinker/sinker.go:57-85 | the sink holds its log, module name, hash, initial block and range start, and has no last cursor |
| Sinker.KVSinker.InitialCursor | sinker/sinker.go:93-99 | the cold-start cursor has no token or block id, and the block before the range start, or the module's initial block when the range starts at 0 |
| Sinker.KVSinker.Start | sinker/sinker.go:87-104 | with no stored cursor the initial cursor is written; a stored cursor is kept; a malformed cursor or a store failure aborts |
| Sinker.KVSinker.Stop | sinker/sinker.go:113-119 | without an error and with a last cursor, the last cursor is written; otherwise nothing changes |
| Sinker.KVSinker.HandleBlockScopeData | sinker/sinker.go:155-186 | the output module's decoded operations are buffered and the cursor remembered; on every 1000th block the buffer is committed with the cursor; a decoding error stops before the cursor is remembered |
| Sinker.BufferOutputs | sinker/sinker.go:156-168 | the loop buffers what `Collect` gives and returns its decoding error |
| Sinker.CollectSkipsOthers | sinker/sinker.go:157-159 | outputs of other modules contribute nothing |
| Sinker.CollectConcat | sinker/sinker.go:156-168 | outputs are read in order; a later part counts only when the earlier part decoded |
| Sinker.CollectStopped | sinker/sinker.go:162-165 | after an output fails to decode, later outputs are not read |
| Sinker.CollectDeliversBatch | sinker/sinker.go:156-168 | the encoded batch of the output module reaches the buffer unchanged, whatever other modules output |
| GrpcNames.Qualified | wasmquery/config.go:53 | "scope.name": the scope, a '.', then the name |
| GrpcNames.FirstMatchUnique | wasmquery/config.go:52-56 | at most one service is the first whose qualified name matches |
| GrpcNames.ReplaceAll | wasmquery/config.go:90-91 | every occurrence of the character is replaced, and nothing else changes |
| GrpcNames.ToLower | wasmquery/config.go:92 | every ASCII capital becomes its small letter, and nothing else changes |
| GrpcNames.ExportNameIsReplaceThenLower | wasmquery/config.go:89-93 | replacing '.', then '/', then lowercasing gives the character-wise export name |
| GrpcNames.ExportNameIsClean | server/wasm/config.go:43-47 | no '.', no '/' and no capital letter is left in an export name |
| GrpcNames.ExportNameIdempotent | wasmquery/config.go:89-93 | an export name is its own export name |
| GrpcNames.ExportNameOfQualified | wasmquery/config.go:63-71 | the export name of "scope.name" is the two export names joined by '_' |
| GrpcNames.ExportNameExample | wasmquery/config_test.go:136 | "sf.mycustomer.v1.Eth.Transfers" exports as "sf_mycustomer_v1_eth_transfers" |
| GrpcNames.ExportNameFoldsCase | wasmquery/config.go:89-93 | two methods whose names differ only in case share one export name |
| QueryConfig.NewServiceConfig | wasmquery/config.go:42-80 | the first service named fqService gives its paths and, for every method in order, its name, qualified name, export name, path and types; an unknown service or the first server-streaming method is an error |
| QueryConfig.ServiceMethods | wasmquery/config.go:62-77 | the method loop: the first server-streaming method is an error, otherwise one configuration per method in order |
| QueryConfig.WasmFunctionNames | wasmquery/config.go:82-87 | the export names of the methods, in method order |
| WasmConfig.NewConfig | server/wasm/config.go:21-41 | the first service named fqService gives, per method in order, its name, qualified name and export name; an unknown service is an error |
| KvOperations.KVOperations.PushNew | src/helpers.rs:5-12 | appends a Set of the value on the key at the ordinal, keeping earlier operations |
| KvOperations.KVOperations.PushDelete | src/helpers.rs:13-20 | appends a Delete of the key with no value at the ordinal |
| KvOperations.PushedSetLands | src/helpers.rs:5-12 | after a flush, the key of the last pushed Set holds its value, whatever was pushed before |
| KvOperations.PushedDeleteRemoves | src/helpers.rs:13-20 | after a flush, the key of the last pushed Delete is absent |
| KvOperations.PushLeavesOtherKeys | src/helpers.rs:4-20 | a push changes no other key's committed cell |
| BlockMetaKeys.ParseMonth | examples/wasm-query-service/blockmeta_wasm_query/src/helper.rs:1-4 | the month is two characters and is what ends the key |
| BlockMetaKeys.ParseMonthExample | examples/wasm-query-service/blockmeta_wasm_query/src/helper.rs:10-14 | "month:first:201909" gives "09" |

## Left out

- db/ops.go's buffering, flush, undo replay and read path are the same code as in db/db.go. They are
  modelled once, by `OperationLog`. `LegacyLog` models only what differs.
- The context, logger, tracer, metrics, timings and statistics of the log and the sink are not modelled.
  The sink's `Run`, the streaming client, the shutter callbacks and `resolveBlockRange` are also left
  out. They are I/O and process wiring.
- A panic in the source becomes an error value in the model: an unknown operation type in
  `undoOperation` gives `InvalidOperationType`, and an UNSET operation in db/ops.go gives
  `InvalidOperationType(UNSET)`.
- OperationLog.OperationDB.Flush: the store is either working or failing for the whole call. A failure
  part-way through a flush, which would leave some puts applied, is not modelled.
- KvStore.KVStore.Put: the backend's own write buffer is not modelled. A put is visible at once, and
  `FlushPuts` can only fail with the store.
- OperationLog.OperationDB.Flush: it takes the module hash that names the cursor key, as the sink
  passes it (sinker/sinker.go:174). The hex encoding of that hash is kept abstract: the sink holds the
  encoded form.
- The order of Go map iteration is not modelled as such:
  - lastOperationPerKey visits keys in first-seen order;
  - MockReader.MockDB.GetByPrefix takes the walk order as a parameter that lists every key once.
- LegacyLog.HandleOperationsBatched: `batchModulo` must not be zero. Zero is a division by zero in the
  source, so it is a precondition here. The source function also lacks a final return. The model returns
  the flush flag that its early returns suggest.
- The protobuf encoding is modelled for the fields the log uses (key 1, value 2, ordinal 3, type 4).
  Unknown fields, negative enum codes and packed or grouped encodings are rejected or not modelled.
- Codec.DecodeOperations: accepts some input that the generated Go decoder rejects or reads otherwise.
  - The key is a proto3 `string` field, and the Go library rejects invalid UTF-8 in it when marshalling and
    when unmarshalling. Here any bytes are a key. A key such as [255] therefore decodes here but fails in
    the source. So `Sinker.KVSinker.HandleBlockScopeData` buffers such an operation and sets the last cursor,
    where the source returns its unmarshal error. It also leaves the marshal-error paths of the log
    (db/db.go:132-135) unreachable in the model.
  - The type varint is read as an unbounded number. Go truncates an enum varint to 32 bits, so 4294967297
    reads as SET there and as an unrecognised type here.
- Unmarshalling is passed to the replay and output loops as a function parameter (`Unmarshal`). The
  log and the sink instantiate it with `Codec.DecodeOperations`.
- The query configurations keep only names from the proto descriptors. `desc.CreateFileDescriptor`
  validation, message types beyond their names, the engine configuration, the WASM VM, its host
  functions and the servers are not modelled.
- GrpcNames.ToLower: lowercases ASCII letters only. Go's Unicode case mapping is not modelled.
- BlockMetaKeys.ParseMonth: it counts characters, where Rust counts bytes. A key shorter than two
  characters, which panics in the source, is excluded by the precondition.
- The WASM gRPC server registers every configured method as a server stream (server/wasm/server.go:35-44).
  That registration, REST path prefixes and the request codecs of the query servers are not part of
  this model. The rejection of streaming methods in the query configuration is modelled, by
  `QueryConfig.NewServiceConfig`.

## Findings

| source | as written | input that shows it | evidently intended | confidence | as-written member | corrected member |
|---|---|---|---|---|---|---|
| db/db.go:150-163 | `previousKeyExists := err == kvdb.ErrNotFound` is followed by `if err != nil { return nil, err }`, so every lookup error ends the generation, not-found included, and a fresh key never reaches `undoOperation` | a block with a Set of key [1] on an empty store | a not-found lookup means the key is absent, so the Set is undone by a Delete; only other lookup errors end the generation | not executed | OperationLog.FreshSetHasNoUndo | OperationLog.OperationDB.GenerateUndoOperations |
| db/db.go:184-188 | the inverse of a Delete of a present key is a Set of `op.Value`, the value the Delete carries, and the module-side `push_delete` builds every Delete with an empty value | a store holding [1] under key [5] and a block with a Delete of [5] carrying no value: the undo batch restores [] | the undo restores the value the store held before the block, so a reorganisation gives back what the Delete removed | not executed | Operations.DeleteWithoutValueNotRestored | Operations.InverseOfStored |
