/**
 * Little-endian byte strings: the fixed-width `to_le_bytes` of Rust's
 * unsigned integers, num-bigint's minimal `to_signed_bytes_le` and
 * `to_bytes_le`, and `Vec::resize`.
 */
module Bytes {

  type byte = x: int | 0 <= x < 256

  /** 256^k */
  function Pow256(k: nat): (r: nat)
    ensures r >= 1
  {
    if k == 0 then 1 else 256 * Pow256(k - 1)
  }

  /** `k` zero bytes. */
  function Zeros(k: nat): (r: seq<byte>)
    ensures |r| == k && forall i :: 0 <= i < k ==> r[i] == 0
  {
    seq(k, _ => 0)
  }

  /** The bytes of an ASCII literal. */
  function Ascii(s: string): (r: seq<byte>)
    requires forall i :: 0 <= i < |s| ==> s[i] as int < 128
    ensures |r| == |s| && forall i :: 0 <= i < |s| ==> r[i] == s[i] as int
  {
    seq(|s|, i requires 0 <= i < |s| => s[i] as int)
  }

  /**
   * `width` little-endian bytes of `v`, as `to_le_bytes` writes an unsigned
   * integer of that width: bytes beyond the width are dropped.
   */
  function Le(v: nat, width: nat): (r: seq<byte>)
    ensures |r| == width
  {
    if width == 0 then [] else [v % 256] + Le(v / 256, width - 1)
  }

  /** The unsigned value a little-endian byte string denotes. */
  function LeValue(bs: seq<byte>): (r: nat)
    ensures r < Pow256(|bs|)
  {
    if bs == [] then 0 else bs[0] + 256 * LeValue(bs[1..])
  }

  /**
   * num-bigint `BigInt::to_signed_bytes_le`: the shortest two's-complement
   * little-endian encoding of `v` (`[0]` for zero).
   */
  function SignedLe(v: int): (r: seq<byte>)
    ensures |r| >= 1 && r[0] == v % 256
    decreases if v < 0 then -v else v
  {
    if -128 <= v < 128 then [v % 256] else [v % 256] + SignedLe(v / 256)
  }

  /** num-bigint `BigUint::to_bytes_le`: the shortest little-endian encoding (`[0]` for zero). */
  function UnsignedLe(v: nat): (r: seq<byte>)
    ensures |r| >= 1 && r[0] == v % 256
  {
    if v < 256 then [v] else [v % 256] + UnsignedLe(v / 256)
  }

  /** `Vec::resize(n, fill)`: truncate to `n` bytes or pad with `fill` up to `n`. */
  function Resize(bs: seq<byte>, n: nat, fill: byte): (r: seq<byte>)
    ensures |r| == n
    ensures forall i :: 0 <= i < n ==> r[i] == if i < |bs| then bs[i] else fill
  {
    if n <= |bs| then bs[..n] else bs + seq(n - |bs|, _ => fill)
  }

  /** 2^(8k-1), the exclusive upper bound of a k-byte two's-complement value (0 for k = 0). */
  function SignBound(k: nat): nat
  {
    if k == 0 then 0 else 128 * Pow256(k - 1)
  }

  // ---------------------------------------------------------------------
  // Lemmas
  // ---------------------------------------------------------------------

  lemma {:induction false} LeValueOfLe(v: nat, width: nat)
    requires v < Pow256(width)
    ensures LeValue(Le(v, width)) == v
  {
    if width > 0 {
      var r := Le(v / 256, width - 1);
      assert v / 256 < Pow256(width - 1);
      LeValueOfLe(v / 256, width - 1);
      assert Le(v, width)[1..] == r;
    }
  }

  /** Decoding `width` bytes gives the value reduced modulo 256^width. */
  lemma {:induction false} LeValueOfLeMod(v: nat, width: nat)
    ensures LeValue(Le(v, width)) == v % Pow256(width)
  {
    if width > 0 {
      var q, p := v / 256, Pow256(width - 1);
      LeValueOfLeMod(q, width - 1);
      assert Le(v, width)[1..] == Le(q, width - 1);
      assert LeValue(Le(v, width)) == v % 256 + 256 * (q % p);
      ModOfMul(v, q, p);
    }
  }

  lemma ModOfMul(v: nat, q: nat, p: nat)
    requires p >= 1 && q == v / 256
    ensures v % (256 * p) == v % 256 + 256 * (q % p)
  {
    var a, b := q / p, q % p;
    assert q == p * a + b;
    assert v == 256 * q + v % 256;
    assert v == (256 * p) * a + (256 * b + v % 256);
    assert 0 <= 256 * b + v % 256 < 256 * p;
    DivModUnique(v, 256 * p, a, 256 * b + v % 256);
  }

  lemma DivModUnique(v: int, m: int, a: int, b: int)
    requires m > 0 && v == m * a + b && 0 <= b < m
    ensures v % m == b && v / m == a
  {
    var a', b' := v / m, v % m;
    var d := a - a';
    assert m * d == b' - b;
    assert d >= 1 ==> m * d >= m;
    assert d <= -1 ==> m * d <= -m;
  }

  lemma {:induction false} LeOfLeValue(bs: seq<byte>)
    ensures Le(LeValue(bs), |bs|) == bs
  {
    if bs != [] {
      var v := LeValue(bs);
      assert v % 256 == bs[0] && v / 256 == LeValue(bs[1..]);
      LeOfLeValue(bs[1..]);
    }
  }

  lemma {:induction false} LeZero(width: nat)
    ensures Le(0, width) == Zeros(width)
  {
    if width > 0 {
      LeZero(width - 1);
    }
  }

  /** Appending zero bytes to a value that fits widens it. */
  lemma {:induction false} LeWiden(v: nat, k: nat, m: nat)
    requires v < Pow256(k)
    ensures Le(v, k) + Zeros(m) == Le(v, k + m)
  {
    if k == 0 {
      LeZero(m);
      assert Le(v, k) + Zeros(m) == Zeros(m);
    } else {
      assert v / 256 < Pow256(k - 1);
      LeWiden(v / 256, k - 1, m);
      assert Le(v, k) + Zeros(m) == [v % 256] + (Le(v / 256, k - 1) + Zeros(m));
    }
  }

  /** Dropping the high bytes of a wider encoding narrows it. */
  lemma {:induction false} LeNarrow(v: nat, k: nat, m: nat)
    ensures Le(v, k + m)[..k] == Le(v, k)
  {
    if k > 0 {
      LeNarrow(v / 256, k - 1, m);
      assert Le(v, k + m)[..k] == [v % 256] + Le(v / 256, k - 1 + m)[..k - 1];
    }
  }

  /** Growing a byte string with zero fill appends zeros. */
  lemma ResizePad(bs: seq<byte>, n: nat)
    requires |bs| <= n
    ensures Resize(bs, n, 0) == bs + Zeros(n - |bs|)
  {
    assert Resize(bs, n, 0) == bs + seq(n - |bs|, _ => 0);
  }

  /** Resizing the encoding of a value that fits in `k` bytes re-encodes it in `n` bytes. */
  lemma ResizeLe(v: nat, k: nat, n: nat)
    requires v < Pow256(k)
    ensures Resize(Le(v, k), n, 0) == Le(v, n)
  {
    if n <= k {
      LeNarrow(v, n, k - n);
      assert Le(v, k)[..n] == Le(v, n + (k - n))[..n];
    } else {
      LeWiden(v, k, n - k);
      assert Resize(Le(v, k), n, 0) == Le(v, k) + Zeros(n - k);
    }
  }

  /** `to_le_bytes` of a `width`-byte integer keeps only the low bytes: the value is reduced modulo 256^width. */
  lemma LeMod(v: nat, width: nat)
    ensures Le(v, width) == Le(v % Pow256(width), width)
  {
    LeValueOfLeMod(v, width);
    LeOfLeValue(Le(v, width));
  }

  lemma SignBoundBelowPow(k: nat)
    ensures SignBound(k) < Pow256(k)
  {
  }

  lemma {:induction false} SignBoundOrder(k: nat, m: nat)
    ensures k <= m ==> SignBound(k) <= SignBound(m)
  {
    if k < m {
      SignBoundOrder(k, m - 1);
    }
  }

  /**
   * For a non-negative value, the minimal two's-complement encoding is the
   * plain little-endian encoding in its own length L, and L is the unique
   * length with SignBound(L - 1) <= v < SignBound(L).
   */
  lemma {:induction false} SignedLeNonneg(v: nat)
    ensures var L := |SignedLe(v)|;
      SignedLe(v) == Le(v, L) && SignBound(L - 1) <= v < SignBound(L)
  {
    if v >= 128 {
      var q := v / 256;
      SignedLeNonneg(q);
      var L := |SignedLe(q)|;
      assert SignedLe(v) == [v % 256] + SignedLe(q);
      assert q < 128 * Pow256(L - 1);
      assert v < 128 * Pow256(L) by {
        assert q <= 128 * Pow256(L - 1) - 1;
        assert v <= 256 * q + 255;
      }
      if L >= 2 {
        assert q >= 128 * Pow256(L - 2);
        assert v >= 256 * q;
      }
    }
  }

  /**
   * For a negative value, the minimal two's-complement encoding is the
   * L-byte little-endian encoding of v + 256^L, and L is the unique length
   * with 0 <= v + SignBound(L) and v + SignBound(L - 1) < 0.
   */
  lemma {:induction false} SignedLeNeg(v: int)
    requires v < 0
    ensures var L := |SignedLe(v)|;
      && L >= 1
      && 0 <= v + SignBound(L) && v + SignBound(L - 1) < 0
      && v % Pow256(L) == v + Pow256(L)
      && SignedLe(v) == Le(v % Pow256(L), L)
    decreases -v
  {
    if v < -128 {
      var q := v / 256;
      SignedLeNeg(q);
      var L := |SignedLe(q)|;
      assert SignedLe(v) == [v % 256] + SignedLe(q);
      SignedNegStep(v, q, L);
    } else {
      assert SignedLe(v) == [v % 256];
      DivModUnique(v, 256, -1, v + 256);
    }
  }

  /** One more byte of a negative encoding: the bounds and the offset value both scale by 256. */
  lemma SignedNegStep(v: int, q: int, L: nat)
    requires v < -128 && q == v / 256 && L >= 1
    requires 0 <= q + SignBound(L) && q + SignBound(L - 1) < 0
    requires q % Pow256(L) == q + Pow256(L)
    ensures 0 <= v + SignBound(L + 1) && v + SignBound(L) < 0
    ensures v % Pow256(L + 1) == v + Pow256(L + 1)
    ensures Le(v % Pow256(L + 1), L + 1) == [v % 256] + Le(q % Pow256(L), L)
  {
    var r := v % 256;
    var P := Pow256(L);
    var S := SignBound(L);
    assert v == 256 * q + r;
    assert SignBound(L + 1) == 256 * S;
    SignBoundBelowPow(L);
    assert 0 <= 256 * q + 256 * S;
    if L >= 2 {
      assert S == 256 * SignBound(L - 1);
      assert q + SignBound(L - 1) <= -1;
      assert 256 * q + r + S <= -1;
    }
    var u := v + 256 * P;
    assert u == 256 * (q + P) + r;
    assert 0 <= u < 256 * P;
    DivModUnique(v, 256 * P, -1, u);
    DivModUnique(u, 256, q + P, r);
  }

  lemma {:induction false} UnsignedLeIsLe(v: nat)
    ensures var L := |UnsignedLe(v)|;
      UnsignedLe(v) == Le(v, L) && v < Pow256(L)
  {
    if v >= 256 {
      var q := v / 256;
      UnsignedLeIsLe(q);
      var L := |UnsignedLe(q)|;
      assert v < 256 * Pow256(L) by {
        assert q <= Pow256(L) - 1;
        assert v <= 256 * q + 255;
      }
    }
  }

  /** `to_signed_bytes_le` resized to `n` bytes of a non-negative value is its `n`-byte encoding. */
  lemma ResizeSignedNonneg(v: nat, n: nat)
    ensures Resize(SignedLe(v), n, 0) == Le(v, n)
  {
    SignedLeNonneg(v);
    var L := |SignedLe(v)|;
    SignBoundBelowPow(L);
    ResizeLe(v, L, n);
  }

  /** `to_bytes_le` resized to `n` bytes is the `n`-byte encoding. */
  lemma ResizeUnsigned(v: nat, n: nat)
    ensures Resize(UnsignedLe(v), n, 0) == Le(v, n)
  {
    UnsignedLeIsLe(v);
    ResizeLe(v, |UnsignedLe(v)|, n);
  }

  /** A value in [SignBound(k-1), SignBound(k)) has a minimal signed encoding of exactly k bytes. */
  lemma SignedLeLength(v: nat, k: nat)
    requires k >= 1 && SignBound(k - 1) <= v < SignBound(k)
    ensures |SignedLe(v)| == k
  {
    SignedLeNonneg(v);
    var L := |SignedLe(v)|;
    SignBoundOrder(L, k - 1);
    SignBoundOrder(k, L - 1);
  }
}
