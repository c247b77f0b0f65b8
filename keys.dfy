/**
 * The key codec of the operation log: how user records, per-block undo
 * records and the checkpoint cursor share the flat byte key-space of the
 * backing store.
 *
 *   user record   'k' . key
 *   undo record   'x' 'u' . BigEndian64(MaxUint64 - blockNumber)
 *   cursor        'x' 'c' . outputModuleHash
 *
 * Because undo keys store the complement of the block number, a forward
 * scan over undo keys meets blocks from the highest number to the lowest.
 */
module Keys {
  import opened Bytes

  const MaxUint64: nat := 0xFFFF_FFFF_FFFF_FFFF
  type uint64 = x: int | 0 <= x <= 0xFFFF_FFFF_FFFF_FFFF

  const UserKeyPrefix: byte := 107          // 'k'
  const UndoPrefix: Bytes := [120, 117]     // "xu"
  const CursorPrefix: Bytes := [120, 99]    // "xc"

  /** The open-ended scan sentinel: 128 bytes of 0xFF. */
  const InfiniteEndBytes: Bytes := seq(128, _ => 255)

  function UserKey(k: Bytes): Bytes {
    [UserKeyPrefix] + k
  }

  /** Go's `k[1:]`, which panics on an empty slice. */
  function FromUserKey(k: Bytes): Bytes
    requires |k| >= 1
  {
    k[1..]
  }

  predicate IsUserKey(k: Bytes) {
    |k| > 1 && k[0] == UserKeyPrefix
  }

  lemma MaxUint64Fits()
    ensures MaxUint64 < Pow256(8)
  {
    assert Pow256(8) == 0x1_0000_0000_0000_0000;
  }

  /**
   * The undo key of a block as built in db/db.go: a ten-byte buffer whose
   * first two bytes receive the prefix and whose last eight receive the
   * big-endian complement of the block number.
   */
  function UndoKey(num: uint64): (r: Bytes)
    ensures |r| == 10
  {
    MaxUint64Fits();
    var encoded := BigEndian(MaxUint64 - num, 8);
    seq(10, i requires 0 <= i < 10 => if i < 2 then UndoPrefix[i] else encoded[i - 2])
  }

  /** The undo key of a block as built in db/ops.go: the prefix with the encoding appended. */
  function LegacyUndoKey(num: uint64): (r: Bytes) {
    MaxUint64Fits();
    UndoPrefix + BigEndian(MaxUint64 - num, 8)
  }

  function CursorKey(outputModuleHash: Bytes): Bytes {
    CursorPrefix + outputModuleHash
  }

  predicate IsUndoKey(x: Bytes) {
    |x| == 10 && x[..2] == UndoPrefix
  }

  /** The block number an undo key stands for. */
  function UndoBlock(x: Bytes): uint64
    requires IsUndoKey(x)
  {
    MaxUint64Fits();
    MaxUint64 - FromBigEndian(x[2..])
  }

  /** The keys the log ever writes: user records, cursors and undo records. */
  predicate WellFormedKey(x: Bytes) {
    (|x| >= 1 && x[0] == UserKeyPrefix) || IsPrefix(CursorPrefix, x) || IsUndoKey(x)
  }

  // ---------------------------------------------------------------- user keys

  lemma UserKeyRoundTrip(k: Bytes)
    ensures |UserKey(k)| == |k| + 1
    ensures FromUserKey(UserKey(k)) == k
  {
  }

  /** The user key of the empty key is not recognised as a user key. */
  lemma IsUserKeyOfUserKey(k: Bytes)
    ensures IsUserKey(UserKey(k)) <==> |k| > 0
  {
  }

  lemma IsUserKeyIsEncoding(x: Bytes)
    requires IsUserKey(x)
    ensures x == UserKey(FromUserKey(x))
  {
  }

  // ---------------------------------------------------------------- undo keys

  lemma UndoKeyIsLegacyUndoKey(num: uint64)
    ensures UndoKey(num) == LegacyUndoKey(num)
  {
    var a, b := UndoKey(num), LegacyUndoKey(num);
    assert |a| == |b|;
    forall i | 0 <= i < 10 ensures a[i] == b[i] {
    }
  }

  lemma UndoKeyRoundTrip(num: uint64)
    ensures IsUndoKey(UndoKey(num)) && UndoBlock(UndoKey(num)) == num
  {
    UndoKeyIsLegacyUndoKey(num);
    MaxUint64Fits();
    var x := UndoKey(num);
    assert x[2..] == BigEndian(MaxUint64 - num, 8);
    BigEndianRoundTrip(MaxUint64 - num, 8);
  }

  lemma UndoKeyOfUndoBlock(x: Bytes)
    requires IsUndoKey(x)
    ensures UndoKey(UndoBlock(x)) == x
  {
    UndoKeyIsLegacyUndoKey(UndoBlock(x));
    FromBigEndianRoundTrip(x[2..]);
    assert x == x[..2] + x[2..];
  }

  /** A higher block number gives a lower undo key, and only then. */
  lemma UndoKeyOrder(m: uint64, n: uint64)
    ensures Less(UndoKey(m), UndoKey(n)) <==> n < m
  {
    MaxUint64Fits();
    UndoKeyIsLegacyUndoKey(m);
    UndoKeyIsLegacyUndoKey(n);
    LessCommonPrefix(UndoPrefix, BigEndian(MaxUint64 - m, 8), BigEndian(MaxUint64 - n, 8));
    if n < m {
      BigEndianOrder(MaxUint64 - m, MaxUint64 - n, 8);
    } else if m < n {
      BigEndianOrder(MaxUint64 - n, MaxUint64 - m, 8);
      LessCommonPrefix(UndoPrefix, BigEndian(MaxUint64 - n, 8), BigEndian(MaxUint64 - m, 8));
      LessAsymmetric(UndoKey(n), UndoKey(m));
    } else {
      LessIrreflexive(UndoKey(m));
    }
  }

  lemma UndoKeyInjective(m: uint64, n: uint64)
    ensures UndoKey(m) == UndoKey(n) <==> m == n
  {
    UndoKeyRoundTrip(m);
    UndoKeyRoundTrip(n);
  }

  /** The purge range `[undoKey(H), undoKey(0))` holds exactly the undo keys of blocks 1..H. */
  lemma PurgeRange(finalHeight: uint64, b: uint64)
    ensures InRange(UndoKey(b), UndoKey(finalHeight), UndoKey(0)) <==> 1 <= b <= finalHeight
  {
    UndoKeyOrder(b, finalHeight);
    UndoKeyOrder(b, 0);
  }

  /** The replay range `[undoKey(Max), undoKey(L))` holds exactly the undo keys of blocks above L. */
  lemma ReplayRange(lastValid: uint64, b: uint64)
    ensures InRange(UndoKey(b), UndoKey(MaxUint64), UndoKey(lastValid)) <==> lastValid < b
  {
    UndoKeyOrder(b, MaxUint64);
    UndoKeyOrder(b, lastValid);
  }

  // ---------------------------------------------------------------- key spaces

  lemma CursorKeyBetween(k: Bytes, h: Bytes, num: uint64)
    ensures Less(UserKey(k), CursorKey(h)) && Less(CursorKey(h), UndoKey(num))
    ensures UserKey(k) != CursorKey(h) && CursorKey(h) != UndoKey(num) && UserKey(k) != UndoKey(num)
  {
    UndoKeyIsLegacyUndoKey(num);
    var c, u := CursorKey(h), UndoKey(num);
    assert c[0] == 120 && c[1] == 99 && u[0] == 120 && u[1] == 117;
    assert c[1..][0] == 99 && u[1..][0] == 117;
    assert UserKey(k)[0] != c[0];
  }

  /** Between two undo keys the log's key-space holds nothing but undo keys. */
  lemma UndoRangeHoldsOnlyUndoKeys(x: Bytes, lo: uint64, hi: uint64)
    requires WellFormedKey(x) && InRange(x, UndoKey(lo), UndoKey(hi))
    ensures IsUndoKey(x)
  {
    OtherKeysBelowUndoKeys(x, lo);
  }

  /** User and cursor keys sort below every undo key. */
  lemma OtherKeysBelowUndoKeys(x: Bytes, n: uint64)
    requires WellFormedKey(x)
    ensures !IsUndoKey(x) ==> Less(x, UndoKey(n))
  {
    UndoKeyIsLegacyUndoKey(n);
    var u := UndoKey(n);
    assert u[0] == 120 && u[1] == 117;
    if !IsUndoKey(x) {
      if x[0] == UserKeyPrefix {
        assert Less(x, u);
      } else {
        assert x[..2] == CursorPrefix;
        assert x[0] == 120 && x[1] == 99;
        assert x[1..][0] == 99 && u[1..][0] == 117;
        assert Less(x[1..], u[1..]);
        assert Less(x, u);
      }
    }
  }

  /** Every key the log writes sorts below the open-ended scan sentinel. */
  lemma BelowInfiniteEnd(x: Bytes)
    requires WellFormedKey(x)
    ensures Less(x, InfiniteEndBytes)
  {
    if IsPrefix(CursorPrefix, x) {
      assert x[..2] == CursorPrefix;
    } else if IsUndoKey(x) {
      assert x[..2] == UndoPrefix;
    }
    assert x[0] < 255;
  }
}
