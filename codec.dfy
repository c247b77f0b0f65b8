/**
 * The protocol-buffers wire encoding of a KVOperations message, which is
 * how a block's inverse batch is stored as the value of its undo record
 * and how a module's output reaches the sink.
 *
 *   KVOperations { repeated KVOperation operations = 1; }
 *   KVOperation  { string key = 1; bytes value = 2; uint64 ordinal = 3; Type type = 4; }
 *
 * Fields holding their default value (empty, zero) are not written, as
 * proto3 prescribes; integers are base-128 varints, least significant
 * group first, with the high bit marking continuation.
 */
module Codec {
  import opened Bytes
  import opened Keys
  import opened Wrappers
  import opened Operations

  datatype CodecError = Truncated | UnexpectedField(tag: nat)

  function EncodeVarint(n: nat): (r: Bytes)
    ensures |r| >= 1
    ensures r[|r| - 1] < 128
  {
    if n < 128 then [n]
    else
      var tail := EncodeVarint(n / 128);
      var r := [128 + n % 128] + tail;
      assert r[|r| - 1] == tail[|tail| - 1];
      r
  }

  /** A varint at the front of `s`: its value and the number of bytes it takes. */
  function DecodeVarint(s: Bytes): (r: Option<(nat, nat)>)
    ensures r.Some? ==> 1 <= r.value.1 <= |s|
  {
    if s == [] then None
    else if s[0] < 128 then Some((s[0], 1))
    else
      match DecodeVarint(s[1..])
      case None => None
      case Some((v, n)) => Some((s[0] - 128 + 128 * v, n + 1))
  }

  lemma {:induction false} VarintRoundTrip(n: nat, rest: Bytes)
    ensures DecodeVarint(EncodeVarint(n) + rest) == Some((n, |EncodeVarint(n)|))
  {
    if n >= 128 {
      var e := EncodeVarint(n);
      assert (e + rest)[1..] == EncodeVarint(n / 128) + rest;
      VarintRoundTrip(n / 128, rest);
    }
  }

  /** A length-delimited field: tag, length, payload. */
  function Delimited(tag: nat, payload: Bytes): Bytes {
    EncodeVarint(tag) + EncodeVarint(|payload|) + payload
  }

  function KeyField(op: KVOperation): Bytes {
    if op.key == [] then [] else Delimited(10, op.key)
  }

  function ValueField(op: KVOperation): Bytes {
    if op.value == [] then [] else Delimited(18, op.value)
  }

  function OrdinalField(op: KVOperation): Bytes {
    if op.ordinal == 0 then [] else EncodeVarint(24) + EncodeVarint(op.ordinal)
  }

  function TypeField(op: KVOperation): Bytes {
    if op.opType == 0 then [] else EncodeVarint(32) + EncodeVarint(op.opType)
  }

  function EncodeOperation(op: KVOperation): Bytes {
    KeyField(op) + ValueField(op) + OrdinalField(op) + TypeField(op)
  }

  function EncodeOperations(ops: seq<KVOperation>): Bytes {
    if ops == [] then [] else Delimited(10, EncodeOperation(ops[0])) + EncodeOperations(ops[1..])
  }

  /** The payload of a length-delimited field whose length varint starts `s`, and what follows it. */
  function DecodeDelimited(s: Bytes): (r: Option<(Bytes, Bytes)>)
    ensures r.Some? ==> |r.value.1| < |s|
  {
    match DecodeVarint(s)
    case None => None
    case Some((len, n)) =>
      if n + len <= |s| then Some((s[n..n + len], s[n + len..])) else None
  }

  /**
   * Reads one field of an operation at the front of `s` into `acc`, and
   * returns what follows it. Unknown tags and an ordinal beyond 64 bits
   * are errors.
   */
  function DecodeField(s: Bytes, acc: KVOperation): (r: Result<(KVOperation, Bytes), CodecError>)
    ensures r.Success? ==> |r.value.1| < |s|
  {
    match DecodeVarint(s)
    case None => Failure(Truncated)
    case Some((tag, n)) =>
      var rest := s[n..];
      if tag == 10 || tag == 18 then
        match DecodeDelimited(rest)
        case None => Failure(Truncated)
        case Some((payload, tail)) =>
          Success((if tag == 10 then acc.(key := payload) else acc.(value := payload), tail))
      else if tag == 24 || tag == 32 then
        match DecodeVarint(rest)
        case None => Failure(Truncated)
        case Some((v, m)) =>
          if tag == 32 then Success((acc.(opType := v), rest[m..]))
          else if v <= MaxUint64 then Success((acc.(ordinal := v), rest[m..]))
          else Failure(UnexpectedField(tag))
      else Failure(UnexpectedField(tag))
  }

  /** Reads the fields of one operation; a later occurrence of a field replaces an earlier one. */
  function DecodeFields(s: Bytes, acc: KVOperation): (r: Result<KVOperation, CodecError>)
    decreases |s|
  {
    if s == [] then Success(acc)
    else
      match DecodeField(s, acc)
      case Failure(e) => Failure(e)
      case Success((next, tail)) => DecodeFields(tail, next)
  }

  function DecodeOperation(s: Bytes): Result<KVOperation, CodecError> {
    DecodeFields(s, EmptyOp)
  }

  /** One length-delimited entry of the operations list at the front of `s`, decoded, and what follows it. */
  function DecodeEntry(s: Bytes): (r: Result<(KVOperation, Bytes), CodecError>)
    ensures r.Success? ==> |r.value.1| < |s|
  {
    match DecodeVarint(s)
    case None => Failure(Truncated)
    case Some((tag, n)) =>
      if tag != 10 then Failure(UnexpectedField(tag))
      else
        match DecodeDelimited(s[n..])
        case None => Failure(Truncated)
        case Some((payload, tail)) =>
          match DecodeOperation(payload)
          case Failure(e) => Failure(e)
          case Success(op) => Success((op, tail))
  }

  function DecodeOperations(s: Bytes): (r: Result<seq<KVOperation>, CodecError>)
    decreases |s|
  {
    if s == [] then Success([])
    else
      match DecodeEntry(s)
      case Failure(e) => Failure(e)
      case Success((op, tail)) =>
        match DecodeOperations(tail)
        case Failure(e) => Failure(e)
        case Success(ops) => Success([op] + ops)
  }

  lemma DelimitedRoundTrip(tag: nat, payload: Bytes, rest: Bytes)
    ensures var s := Delimited(tag, payload) + rest;
            var n := |EncodeVarint(tag)|;
            DecodeVarint(s) == Some((tag, n)) && DecodeDelimited(s[n..]) == Some((payload, rest))
  {
    var t, x := EncodeVarint(tag), EncodeVarint(|payload|) + (payload + rest);
    assert Delimited(tag, payload) + rest == t + x;
    VarintRoundTrip(tag, x);
    assert (t + x)[|t|..] == x;
    LengthPrefixedRoundTrip(payload, rest);
  }

  /** A length varint followed by that many bytes reads back as the payload and what follows. */
  lemma LengthPrefixedRoundTrip(payload: Bytes, rest: Bytes)
    ensures DecodeDelimited(EncodeVarint(|payload|) + (payload + rest)) == Some((payload, rest))
  {
    VarintRoundTrip(|payload|, payload + rest);
    LengthPrefixed(EncodeVarint(|payload|), payload, rest);
  }

  lemma LengthPrefixed(l: Bytes, payload: Bytes, rest: Bytes)
    requires DecodeVarint(l + (payload + rest)) == Some((|payload|, |l|))
    ensures DecodeDelimited(l + (payload + rest)) == Some((payload, rest))
  {
    var s := l + (payload + rest);
    assert s[|l|..|l| + |payload|] == payload;
    assert s[|l| + |payload|..] == rest;
  }

  lemma VarintFieldRoundTrip(tag: nat, v: nat, rest: Bytes)
    ensures var s := EncodeVarint(tag) + EncodeVarint(v) + rest;
            var n := |EncodeVarint(tag)|;
            DecodeVarint(s) == Some((tag, n))
            && DecodeVarint(s[n..]) == Some((v, |EncodeVarint(v)|))
            && s[n..][|EncodeVarint(v)|..] == rest
  {
    var t, e := EncodeVarint(tag), EncodeVarint(v);
    var s := t + e + rest;
    assert s == t + (e + rest);
    VarintRoundTrip(tag, e + rest);
    assert s[|t|..] == e + rest;
    VarintRoundTrip(v, rest);
  }

  lemma StepDelimited(tag: nat, payload: Bytes, rest: Bytes, acc: KVOperation)
    requires tag == 10 || tag == 18
    ensures DecodeFields(Delimited(tag, payload) + rest, acc)
         == DecodeFields(rest, if tag == 10 then acc.(key := payload) else acc.(value := payload))
  {
    DelimitedRoundTrip(tag, payload, rest);
  }

  lemma StepVarint(tag: nat, v: nat, rest: Bytes, acc: KVOperation)
    requires tag == 24 ==> v <= MaxUint64
    requires tag == 24 || tag == 32
    ensures DecodeFields(EncodeVarint(tag) + EncodeVarint(v) + rest, acc)
         == DecodeFields(rest, if tag == 24 then acc.(ordinal := v) else acc.(opType := v))
  {
    VarintFieldRoundTrip(tag, v, rest);
  }

  lemma KeyStep(op: KVOperation, rest: Bytes, acc: KVOperation)
    requires acc.key == []
    ensures DecodeFields(KeyField(op) + rest, acc) == DecodeFields(rest, acc.(key := op.key))
  {
    if op.key == [] {
      assert KeyField(op) + rest == rest;
    } else {
      StepDelimited(10, op.key, rest, acc);
    }
  }

  lemma ValueStep(op: KVOperation, rest: Bytes, acc: KVOperation)
    requires acc.value == []
    ensures DecodeFields(ValueField(op) + rest, acc) == DecodeFields(rest, acc.(value := op.value))
  {
    if op.value == [] {
      assert ValueField(op) + rest == rest;
    } else {
      StepDelimited(18, op.value, rest, acc);
    }
  }

  lemma OrdinalStep(op: KVOperation, rest: Bytes, acc: KVOperation)
    requires acc.ordinal == 0
    ensures DecodeFields(OrdinalField(op) + rest, acc) == DecodeFields(rest, acc.(ordinal := op.ordinal))
  {
    if op.ordinal == 0 {
      assert OrdinalField(op) + rest == rest;
    } else {
      StepVarint(24, op.ordinal, rest, acc);
    }
  }

  lemma TypeStep(op: KVOperation, acc: KVOperation)
    requires acc.opType == 0
    ensures DecodeFields(TypeField(op), acc) == Success(acc.(opType := op.opType))
  {
    if op.opType != 0 {
      StepVarint(32, op.opType, [], acc);
      assert TypeField(op) + [] == TypeField(op);
    }
  }

  lemma DecodeOperationFields(op: KVOperation)
    ensures DecodeFields(EncodeOperation(op), EmptyOp) == Success(op)
  {
    var k, v, o, t := KeyField(op), ValueField(op), OrdinalField(op), TypeField(op);
    var acc1 := EmptyOp.(key := op.key);
    var acc2 := acc1.(value := op.value);
    var acc3 := acc2.(ordinal := op.ordinal);
    assert EncodeOperation(op) == k + (v + (o + t));
    KeyStep(op, v + (o + t), EmptyOp);
    ValueStep(op, o + t, acc1);
    OrdinalStep(op, t, acc2);
    TypeStep(op, acc3);
    assert acc3.(opType := op.opType) == op;
  }

  lemma EntryRoundTrip(op: KVOperation, rest: Bytes)
    ensures DecodeEntry(Delimited(10, EncodeOperation(op)) + rest) == Success((op, rest))
  {
    DelimitedRoundTrip(10, EncodeOperation(op), rest);
    DecodeOperationFields(op);
  }

  /** Unmarshalling a marshalled batch gives back the batch. */
  lemma {:induction false} OperationsRoundTrip(ops: seq<KVOperation>)
    ensures DecodeOperations(EncodeOperations(ops)) == Success(ops)
  {
    if ops != [] {
      OperationsRoundTrip(ops[1..]);
      ConsRoundTrip(ops);
    }
  }

  /** The round trip extends from the tail of a batch to the whole batch. */
  lemma ConsRoundTrip(ops: seq<KVOperation>)
    requires ops != [] && DecodeOperations(EncodeOperations(ops[1..])) == Success(ops[1..])
    ensures DecodeOperations(EncodeOperations(ops)) == Success(ops)
  {
    var rest := EncodeOperations(ops[1..]);
    EncodeOperationsCons(ops);
    EntryRoundTrip(ops[0], rest);
    DecodeBatchStep(EncodeOperations(ops), ops, rest);
  }

  /** A first entry and a decodable tail decode to the whole batch. */
  lemma DecodeBatchStep(s: Bytes, ops: seq<KVOperation>, tail: Bytes)
    requires ops != [] && DecodeEntry(s) == Success((ops[0], tail)) && DecodeOperations(tail) == Success(ops[1..])
    ensures DecodeOperations(s) == Success(ops)
  {
    DecodeOperationsStep(s, ops[0], tail, ops[1..]);
    HeadTail(ops);
  }

  lemma HeadTail(ops: seq<KVOperation>)
    requires ops != []
    ensures [ops[0]] + ops[1..] == ops
  {
  }

  lemma EncodeOperationsCons(ops: seq<KVOperation>)
    requires ops != []
    ensures EncodeOperations(ops) == Delimited(10, EncodeOperation(ops[0])) + EncodeOperations(ops[1..])
  {
  }

  /** An entry followed by a decodable list decodes to that entry before the list. */
  lemma DecodeOperationsStep(s: Bytes, op: KVOperation, tail: Bytes, ops: seq<KVOperation>)
    requires DecodeEntry(s) == Success((op, tail)) && DecodeOperations(tail) == Success(ops)
    ensures DecodeOperations(s) == Success([op] + ops)
  {
  }

  lemma EncodeSingle(op: KVOperation)
    requires |op.key| == 5 && |op.value| == 7 && op.ordinal == 0 && (op.opType == SET || op.opType == DELETE)
    ensures EncodeOperations([op]) == [10, 18, 10, 5] + op.key + [18, 7] + op.value + [32, op.opType]
  {
    assert EncodeVarint(10) == [10] && EncodeVarint(5) == [5];
    assert KeyField(op) == [10, 5] + op.key;
    assert EncodeVarint(18) == [18] && EncodeVarint(7) == [7];
    assert ValueField(op) == [18, 7] + op.value;
    assert OrdinalField(op) == [];
    assert EncodeVarint(32) == [32] && EncodeVarint(op.opType) == [op.opType];
    assert TypeField(op) == [32, op.opType];
    var e := EncodeOperation(op);
    assert e == [10, 5] + op.key + [18, 7] + op.value + [32, op.opType];
    assert |e| == 18 && EncodeVarint(18) == [18];
    assert [op][1..] == [];
    assert EncodeOperations([op]) == Delimited(10, e) + [];
  }

  /** The bytes of a single entry with a five-byte key and a seven-byte value, one by one. */
  lemma SingleLayout(k: Bytes, v: Bytes, t: byte)
    requires |k| == 5 && |v| == 7
    ensures [10, 18, 10, 5] + k + [18, 7] + v + [32, t]
            == [10, 18, 10, 5, k[0], k[1], k[2], k[3], k[4], 18, 7, v[0], v[1], v[2], v[3], v[4], v[5], v[6], 32, t]
  {
  }
}
