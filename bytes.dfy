/**
 * Byte strings and the order in which the backing key-value store keeps
 * its keys: plain lexicographic order on unsigned bytes, a proper prefix
 * sorting before its extensions. Also big-endian encoding of fixed-width
 * unsigned integers, which the undo keys use.
 */
module Bytes {

  type byte = x: int | 0 <= x < 256
  type Bytes = seq<byte>

  /** Strict lexicographic order on byte strings. */
  predicate Less(a: Bytes, b: Bytes) {
    |b| > 0 && (|a| == 0 || a[0] < b[0] || (a[0] == b[0] && Less(a[1..], b[1..])))
  }

  /** `x` lies in the half-open key range `[lo, hi)`. */
  predicate InRange(x: Bytes, lo: Bytes, hi: Bytes) {
    !Less(x, lo) && Less(x, hi)
  }

  predicate IsPrefix(p: Bytes, s: Bytes) {
    |p| <= |s| && s[..|p|] == p
  }

  lemma {:induction false} LessIrreflexive(a: Bytes)
    ensures !Less(a, a)
  {
    if |a| > 0 {
      LessIrreflexive(a[1..]);
    }
  }

  lemma {:induction false} LessAsymmetric(a: Bytes, b: Bytes)
    ensures Less(a, b) ==> !Less(b, a)
  {
    if |a| > 0 && |b| > 0 && a[0] == b[0] {
      LessAsymmetric(a[1..], b[1..]);
    }
  }

  lemma {:induction false} LessTransitive(a: Bytes, b: Bytes, c: Bytes)
    requires Less(a, b) && Less(b, c)
    ensures Less(a, c)
  {
    if |a| > 0 && a[0] == b[0] && b[0] == c[0] {
      LessTransitive(a[1..], b[1..], c[1..]);
    }
  }

  lemma {:induction false} LessTotal(a: Bytes, b: Bytes)
    ensures a == b || Less(a, b) || Less(b, a)
  {
    if |a| > 0 && |b| > 0 && a[0] == b[0] {
      LessTotal(a[1..], b[1..]);
      if a[1..] == b[1..] {
        assert a == [a[0]] + a[1..] && b == [b[0]] + b[1..];
      }
    }
  }

  /** Comparing two keys that share a prefix compares what follows it. */
  lemma {:induction false} LessCommonPrefix(p: Bytes, a: Bytes, b: Bytes)
    ensures Less(p + a, p + b) <==> Less(a, b)
  {
    if |p| > 0 {
      assert (p + a)[1..] == p[1..] + a;
      assert (p + b)[1..] == p[1..] + b;
      LessCommonPrefix(p[1..], a, b);
    } else {
      assert p + a == a && p + b == b;
    }
  }

  function Pow256(n: nat): (r: nat)
    ensures r > 0
  {
    if n == 0 then 1 else 256 * Pow256(n - 1)
  }

  lemma {:induction false} MulMonotone(a: int, b: int, c: nat)
    ensures a <= b ==> a * c <= b * c
  {
    if c > 0 {
      MulMonotone(a, b, c - 1);
      assert a * c == a * (c - 1) + a;
      assert b * c == b * (c - 1) + b;
    }
  }

  /** The leading digit of `x` in base `p`, when `x < 256 * p`, is a byte. */
  lemma DivIsByte(x: nat, p: nat)
    requires p > 0 && x < 256 * p
    ensures x / p < 256
  {
    assert x == (x / p) * p + x % p;
    MulMonotone(256, x / p, p);
  }

  /** The most significant base-256 digit of `x`, when `p` is the weight of that digit. */
  function LeadingByte(x: nat, p: nat): (d: byte)
    requires p > 0 && x < 256 * p
    ensures d == x / p
  {
    DivIsByte(x, p);
    x / p
  }

  /** `x` as `width` bytes, most significant first (Go's binary.BigEndian). */
  function BigEndian(x: nat, width: nat): (r: Bytes)
    requires x < Pow256(width)
    ensures |r| == width
  {
    if width == 0 then []
    else
      var p := Pow256(width - 1);
      [LeadingByte(x, p)] + BigEndian(x % p, width - 1)
  }

  /** The unsigned integer whose big-endian encoding is `s`. */
  function FromBigEndian(s: Bytes): (r: nat)
    ensures r < Pow256(|s|)
  {
    if |s| == 0 then 0
    else
      var rest := FromBigEndian(s[1..]);
      MulMonotone(s[0], 255, Pow256(|s| - 1));
      s[0] * Pow256(|s| - 1) + rest
  }

  lemma {:induction false} BigEndianRoundTrip(x: nat, width: nat)
    requires x < Pow256(width)
    ensures FromBigEndian(BigEndian(x, width)) == x
  {
    if width > 0 {
      var p := Pow256(width - 1);
      var s := BigEndian(x, width);
      assert s[0] == x / p;
      BigEndianRoundTrip(x % p, width - 1);
      assert s[1..] == BigEndian(x % p, width - 1);
      assert x == (x / p) * p + x % p;
    }
  }

  lemma {:induction false} FromBigEndianRoundTrip(s: Bytes)
    ensures BigEndian(FromBigEndian(s), |s|) == s
  {
    if |s| > 0 {
      var p := Pow256(|s| - 1);
      var rest := FromBigEndian(s[1..]);
      var x := FromBigEndian(s);
      assert x == s[0] * p + rest;
      assert x / p == s[0] && x % p == rest by {
        DivModUnique(x, p, s[0], rest);
      }
      FromBigEndianRoundTrip(s[1..]);
      assert s == [s[0]] + s[1..];
    }
  }

  lemma DivModUnique(x: nat, p: nat, q: nat, r: nat)
    requires p > 0 && r < p && x == q * p + r
    ensures x / p == q && x % p == r
  {
    var q', r' := x / p, x % p;
    assert x == q' * p + r';
    MulMonotone(q' + 1, q, p);
    MulMonotone(q + 1, q', p);
  }

  /** Equal-width big-endian encodings sort as the numbers they encode. */
  lemma {:induction false} FromBigEndianOrder(s: Bytes, t: Bytes)
    requires |s| == |t| && FromBigEndian(s) < FromBigEndian(t)
    ensures Less(s, t)
  {
    assert |s| > 0;
    var p := Pow256(|s| - 1);
    var rs, rt := FromBigEndian(s[1..]), FromBigEndian(t[1..]);
    assert FromBigEndian(s) == s[0] * p + rs && FromBigEndian(t) == t[0] * p + rt;
    var hs: int, ht: int := s[0], t[0];
    assert (ht + 1) * p == ht * p + p;
    MulMonotone(ht + 1, hs, p);
    assert hs <= ht;
    if s[0] == t[0] {
      FromBigEndianOrder(s[1..], t[1..]);
    }
  }

  lemma BigEndianOrder(x: nat, y: nat, width: nat)
    requires x < y < Pow256(width)
    ensures Less(BigEndian(x, width), BigEndian(y, width))
  {
    BigEndianRoundTrip(x, width);
    BigEndianRoundTrip(y, width);
    FromBigEndianOrder(BigEndian(x, width), BigEndian(y, width));
  }
}
