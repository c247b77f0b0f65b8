/**
 * The checkpoint cursor and its text form "<cursor>:<blockID>:<blockNum>",
 * which is stored under the cursor key of the output module.
 */
module Cursors {
  import opened Bytes
  import opened Keys
  import opened Wrappers

  const Colon: byte := 58

  datatype Cursor = Cursor(cursor: Bytes, blockID: Bytes, blockNum: uint64)

  datatype CursorError = InvalidCursor

  predicate IsDigit(b: byte) {
    48 <= b <= 57
  }

  predicate AllDigits(s: Bytes) {
    forall i :: 0 <= i < |s| ==> IsDigit(s[i])
  }

  /** The decimal digits of `n`, most significant first, without leading zeros (Go's %d). */
  function Decimal(n: nat): (r: Bytes)
    ensures |r| >= 1 && AllDigits(r)
    ensures n >= 10 ==> r[0] != 48
  {
    if n < 10 then [48 + n] else Decimal(n / 10) + [48 + n % 10]
  }

  function DecimalValue(s: Bytes): nat
    requires AllDigits(s)
  {
    if s == [] then 0 else DecimalValue(s[..|s| - 1]) * 10 + (s[|s| - 1] - 48)
  }

  lemma {:induction false} DecimalRoundTrip(n: nat)
    ensures DecimalValue(Decimal(n)) == n
  {
    if n >= 10 {
      var d := Decimal(n);
      assert d[..|d| - 1] == Decimal(n / 10);
      DecimalRoundTrip(n / 10);
    }
  }

  /** strconv.ParseUint(s, 10, 64): one or more decimal digits whose value fits in 64 bits. */
  function ParseUint64(s: Bytes): (r: Option<uint64>)
    ensures r.Some? <==> |s| > 0 && AllDigits(s) && DecimalValue(s) <= MaxUint64
    ensures r.Some? ==> r.value == DecimalValue(s)
  {
    if |s| == 0 || !AllDigits(s) then None
    else
      var v := DecimalValue(s);
      if v <= MaxUint64 then Some(v) else None
  }

  lemma ParseUint64OfDecimal(n: uint64)
    ensures ParseUint64(Decimal(n)) == Some(n)
  {
    DecimalRoundTrip(n);
  }

  /** The parts joined back with ':' between them. */
  function Join(parts: seq<Bytes>): Bytes
    requires |parts| >= 1
  {
    if |parts| == 1 then parts[0] else parts[0] + [Colon] + Join(parts[1..])
  }

  /** strings.Split on ':': every separator cuts, so n separators give n + 1 parts. */
  function Split(s: Bytes): (r: seq<Bytes>)
    ensures |r| >= 1
    ensures forall i :: 0 <= i < |r| ==> Colon !in r[i]
    ensures Join(r) == s
  {
    if s == [] then [[]]
    else
      var tail := Split(s[1..]);
      if s[0] == Colon then
        assert s == [Colon] + s[1..];
        [[]] + tail
      else
        var r := [[s[0]] + tail[0]] + tail[1..];
        assert r[1..] == tail[1..];
        assert forall i :: 1 <= i < |r| ==> r[i] == tail[i];
        assert s == [s[0]] + s[1..];
        r
  }

  lemma {:induction false} SplitAfterPart(a: Bytes, rest: Bytes)
    requires Colon !in a
    ensures Split(a + rest) == [a + Split(rest)[0]] + Split(rest)[1..]
  {
    if a != [] {
      var t := Split(rest);
      assert (a + rest)[1..] == a[1..] + rest;
      assert a[0] in a;
      SplitAfterPart(a[1..], rest);
      var tail := Split(a[1..] + rest);
      assert tail[0] == a[1..] + t[0] && tail[1..] == t[1..];
      assert [a[0]] + tail[0] == a + t[0];
    } else {
      var t := Split(rest);
      assert a + rest == rest;
      assert a + t[0] == t[0];
      assert t == [t[0]] + t[1..];
    }
  }

  /** Splitting the join of colon-free parts gives the parts back. */
  lemma {:induction false} SplitJoin(parts: seq<Bytes>)
    requires |parts| >= 1
    requires forall i :: 0 <= i < |parts| ==> Colon !in parts[i]
    ensures Split(Join(parts)) == parts
  {
    if |parts| == 1 {
      SplitAfterPart(parts[0], []);
      assert parts[0] + [] == parts[0];
    } else {
      var rest := Join(parts[1..]);
      SplitJoin(parts[1..]);
      assert Join(parts) == parts[0] + ([Colon] + rest);
      SplitAfterPart(parts[0], [Colon] + rest);
      assert ([Colon] + rest)[1..] == rest;
      assert Split([Colon] + rest) == [[]] + parts[1..];
      assert parts[0] + [] == parts[0];
      assert parts == [parts[0]] + parts[1..];
    }
  }

  function CursorToBytes(c: Cursor): Bytes {
    Join([c.cursor, c.blockID, Decimal(c.blockNum)])
  }

  /**
   * The cursor read back from its text form: exactly three ':'-separated
   * parts, the last a 64-bit decimal number.
   */
  function CursorFromBytes(s: Bytes): (r: Result<Cursor, CursorError>)
    ensures r.Success? <==> |Split(s)| == 3 && ParseUint64(Split(s)[2]).Some?
    ensures r.Success? ==> Colon !in r.value.cursor && Colon !in r.value.blockID
                           && s == r.value.cursor + [Colon] + r.value.blockID + [Colon] + Split(s)[2]
                           && r.value.blockNum == DecimalValue(Split(s)[2])
  {
    var parts := Split(s);
    if |parts| != 3 then Failure(InvalidCursor)
    else
      match ParseUint64(parts[2])
      case None => Failure(InvalidCursor)
      case Some(n) =>
        assert parts[1..][1..] == [parts[2]];
        assert Join(parts[1..]) == parts[1] + [Colon] + parts[2];
        Success(Cursor(parts[0], parts[1], n))
  }

  /** A cursor whose token and block id hold no ':' survives being written and read back. */
  lemma CursorRoundTrip(c: Cursor)
    requires Colon !in c.cursor && Colon !in c.blockID
    ensures CursorFromBytes(CursorToBytes(c)) == Success(c)
  {
    var parts := [c.cursor, c.blockID, Decimal(c.blockNum)];
    assert Colon !in parts[2] by {
      assert AllDigits(parts[2]);
    }
    SplitJoin(parts);
    ParseUint64OfDecimal(c.blockNum);
  }

  /** A ':' inside the token makes the written cursor unreadable. */
  lemma ColonInTokenNotReadable()
    ensures CursorFromBytes(CursorToBytes(Cursor([Colon], [], 0))).Failure?
  {
    var parts := [[Colon], [], Decimal(0)];
    assert Decimal(0) == [48];
    assert parts[1..][1..] == [[48]];
    assert Join(parts[1..]) == [Colon, 48];
    var s := CursorToBytes(Cursor([Colon], [], 0));
    assert s == [Colon, Colon, Colon, 48];
    assert s[1..] == [Colon, Colon, 48];
    assert s[1..][1..] == [Colon, 48];
    assert s[1..][1..][1..] == [48];
    assert s[1..][1..][1..][1..] == [];
    assert Split([48]) == [[48]];
    assert Split([Colon, 48]) == [[], [48]];
    assert Split([Colon, Colon, 48]) == [[], [], [48]];
    assert Split(s) == [[], [], [], [48]];
  }
}
