/** Lossy compression of coefficients to d bits and back. */
module Compression {
  import opened Integers
  import opened Bits
  import opened Zq

  // ----- rounding, for any modulus q and any scale p -----------------------------------------

  /** p * x / q rounded to the nearest integer. */
  function Nearest(p: nat, x: nat, q: nat): nat
    requires q > 0
  {
    (2 * (p * x) + q) / (2 * q)
  }

  lemma NearestMeans(p: nat, x: nat, q: nat)
    requires q > 0
    ensures 2 * q * Nearest(p, x, q) <= 2 * (p * x) + q < 2 * q * Nearest(p, x, q) + 2 * q
  {
    var v := 2 * (p * x) + q;
    assert v == 2 * q * (v / (2 * q)) + v % (2 * q);
  }

  lemma NearestUnique(p: nat, x: nat, q: nat, n: nat)
    requires q > 0 && 2 * q * n <= 2 * (p * x) + q < 2 * q * n + 2 * q
    ensures Nearest(p, x, q) == n
  {
    DivModUnique(2 * (p * x) + q, 2 * q, n, 2 * (p * x) + q - 2 * q * n);
  }

  /** The rounded multiple of q / p, as the source computes it with a shift. */
  function Expand(p: nat, y: nat, q: nat): nat
    requires p > 0
  {
    (q * y + p / 2) / p
  }

  lemma ExpandMeans(p: nat, y: nat, q: nat)
    requires p > 0 && (p == 1 || p % 2 == 0)
    ensures 2 * (p * Expand(p, y, q)) <= 2 * (q * y) + p
    ensures 2 * (q * y) < 2 * (p * Expand(p, y, q)) + p + (if p == 1 then 1 else 0)
  {
    var v := q * y + p / 2;
    assert v == p * (v / p) + v % p;
  }

  /** Compression undoes decompression for every modulus q above the scale p. */
  lemma NearestOfExpand(p: nat, y: nat, q: nat)
    requires 0 < p < q && (p == 1 || p % 2 == 0)
    ensures Nearest(p, Expand(p, y, q), q) == y
  {
    ExpandMeans(p, y, q);
    assert 2 * q * y == 2 * (q * y);
    NearestUnique(p, Expand(p, y, q), q, y);
  }

  // ----- the code ----------------------------------------------------------------------------

  predicate IsScale(d: nat) {
    d < 12
  }

  lemma ScaleValues(d: nat)
    requires IsScale(d)
    ensures 1 <= Pow2(d) <= 2048 && (Pow2(d) == 1 || Pow2(d) % 2 == 0)
  {
    Pow2Add(d, 11 - d);
    Pow2Values();
    MulLe(1, Pow2(11 - d), Pow2(d));
  }

  /** The correction bit `((limit - remainder) >> 31) & 1`: one exactly when the remainder exceeds the limit. */
  function Exceeds(limit: u32, remainder: u32): (bit: nat)
    requires limit < 0x8000_0000 && remainder < 0x8000_0000
    ensures bit == if remainder > limit then 1 else 0
  {
    Wrap(limit - remainder) / 0x8000_0000 % 2
  }

  function Compress(d: nat, x: zq): (y: zq)
    requires IsScale(d)
    ensures y == Nearest(Pow2(d), x, 3329) % Pow2(d)
  {
    hide BarrettQuotient, Band, Pow2, Nearest, Exceeds, Wrap;
    ScaleValues(d);
    CompressWord(Pow2(d), x);
    WrapSmall(x * Pow2(d));
    var dividend := Wrap(x * Pow2(d));
    var quotient0 := BarrettQuotient(dividend, Q, 0x100_0000);
    WrapSmall(dividend - quotient0 * 3329);
    var remainder := Wrap(dividend - quotient0 * Q);
    var quotient1 := quotient0 + Exceeds(Q / 2, remainder);
    var quotient2 := quotient1 + Exceeds(Q + Q / 2, remainder);
    BandMask(quotient2, d);
    SmallMod(quotient2, 0x1_0000);
    Band(quotient2 % 0x1_0000, Pow2(d) - 1)
  }

  lemma WrapSmall(x: int)
    requires 0 <= x < 0x1_0000_0000
    ensures Wrap(x) == x
  {
  }

  lemma SmallMod(x: nat, n: nat)
    requires x < n
    ensures x % n == x
  {
  }

  /** The two corrections turn the truncated quotient into the rounded one. */
  lemma CompressWord(p: nat, x: zq)
    requires 1 <= p <= 2048
    ensures x * p < 0x100_0000
    ensures var q0 := BarrettQuotient(x * p, 3329, 0x100_0000);
            var remainder := x * p - q0 * 3329;
            0 <= remainder < 6658 &&
            q0 + Exceeds(1664, remainder) + Exceeds(4993, remainder) == Nearest(p, x, 3329) <= 2048
  {
    hide BarrettQuotient, Nearest, Exceeds;
    ScaledBound(p, x);
    BarrettEstimate(x * p, 3329, 0x100_0000);
    var q0 := BarrettQuotient(x * p, 3329, 0x100_0000);
    RoundUp(x * p, q0);
    assert p * x == x * p;
    NearestUnique(p, x, 3329, q0 + Exceeds(1664, x * p - q0 * 3329) + Exceeds(4993, x * p - q0 * 3329));
    NearestAtMost(p, x);
  }

  lemma ScaledBound(p: nat, x: zq)
    requires p <= 2048
    ensures 0 <= x * p <= 3328 * p
  {
    MulLe(0, x, p);
    MulLe(x, 3328, p);
  }

  lemma RoundUp(v: nat, q0: nat)
    requires 0 <= v - q0 * 3329 < 6658
    ensures var n := q0 + Exceeds(1664, v - q0 * 3329) + Exceeds(4993, v - q0 * 3329);
            6658 * n <= 2 * v + 3329 < 6658 * n + 6658
  {
    hide Exceeds;
  }

  lemma NearestAtMost(p: nat, x: zq)
    ensures Nearest(p, x, 3329) <= p
  {
    hide Nearest;
    NearestMeans(p, x, 3329);
    MulLe(x, 3328, p);
    assert x * p == p * x;
  }

  function Decompress(d: nat, y: nat): (x: zq)
    requires IsScale(d) && y < Pow2(d)
    ensures x == Expand(Pow2(d), y, 3329)
  {
    hide Pow2, Expand;
    ScaleValues(d);
    hide Wrap;
    DecompressBound(Pow2(d), y);
    WrapSmall(3329 * y + Pow2(d) / 2);
    var t3 := Wrap(Q * y + Pow2(d) / 2);
    SmallMod(t3 / Pow2(d), 0x1_0000);
    t3 / Pow2(d) % 0x1_0000
  }

  lemma DecompressBound(p: nat, y: nat)
    requires 1 <= p <= 2048 && (p == 1 || p % 2 == 0) && y < p
    ensures Expand(p, y, 3329) < 3329 && (3329 * y + p / 2) / p == Expand(p, y, 3329)
  {
    ExpandMeans(p, y, 3329);
    CancelLt(Expand(p, y, 3329), 3329, p);
  }

  // ----- what compression loses -----------------------------------------------------------------

  lemma CompressOfDecompress(d: nat, y: nat)
    requires IsScale(d) && y < Pow2(d)
    ensures Compress(d, Decompress(d, y)) == y
  {
    hide Compress, Decompress, Pow2;
    ScaleValues(d);
    hide Nearest, Expand;
    NearestOfExpand(Pow2(d), y, 3329);
    SmallMod(y, Pow2(d));
  }

  /** The representative of least absolute value. */
  function Centered(v: int): (c: int)
    ensures -1664 <= c <= 1664 && Cong(c, v)
  {
    var r: int := Mod(v);
    if r <= 1664 then r else r - 3329
  }

  lemma CenteredUnique(v: int, c: int)
    requires -1664 <= c <= 1664 && Cong(c, v)
    ensures Centered(v) == c
  {
  }

  lemma RoundedBelow(p: nat, x: zq, n: nat)
    requires 1 <= p <= 2048 && (p == 1 || p % 2 == 0)
    requires n == Nearest(p, x, 3329) && n < p
    ensures 2 * (p * Abs(Centered(Expand(p, n, 3329) as int - x))) <= 3329 + p
  {
    hide Centered, Nearest, Expand;
    NearestMeans(p, x, 3329);
    ExpandMeans(p, n, 3329);
    var e := Expand(p, n, 3329) as int - x;
    assert p * e == p * Expand(p, n, 3329) - p * x;
    assert 2 * 3329 * n == 2 * (3329 * n);
    WithinScale(p, e);
    CenteredUnique(e, e);
  }

  /** A coefficient that rounds up to the full scale compresses to zero, which is near it around the ring. */
  lemma RoundedToTop(p: nat, x: zq)
    requires 1 <= p <= 2048 && (p == 1 || p % 2 == 0)
    requires p == Nearest(p, x, 3329)
    ensures 2 * (p * Abs(Centered(Expand(p, 0, 3329) as int - x))) <= 3329 + p
  {
    hide Centered, Nearest;
    NearestMeans(p, x, 3329);
    assert Expand(p, 0, 3329) == 0 by { DivModUnique(p / 2, p, 0, p / 2); }
    var e := 3329 - x as int;
    assert p * e == 3329 * p - p * x;
    WithinScale(p, e);
    ModShift(e - 3329, 1);
    CenteredUnique(e - 3329, e);
  }

  function Abs(v: int): nat {
    if v < 0 then -v else v
  }

  /** A distance of at most (3329 + p) / 2p is below half the modulus. */
  lemma WithinScale(p: nat, v: int)
    requires 1 <= p && 2 * (p * v) <= 3329 + p && -3329 - p < 2 * (p * v)
    requires p == 1 ==> -1664 <= v <= 1664
    ensures -1664 <= v <= 1664 && 2 * (p * Abs(v)) <= 3329 + p
  {
    if p >= 2 {
      if v > 1664 {
        MulLe(1665, v, p);
      } else if v < -1664 {
        MulLe(v, -1665, p);
      }
    }
    assert p * -v == -(p * v);
  }

  /** Decompressing a compressed coefficient misses it by at most (q + 2^d) / 2^(d+1), around the ring. */
  lemma CompressionError(d: nat, x: zq)
    requires IsScale(d)
    ensures 2 * (Pow2(d) * Abs(Centered(Decompress(d, Compress(d, x)) as int - x))) <= 3329 + Pow2(d)
  {
    hide Pow2, Compress, Decompress, Centered, Abs, Nearest, Expand;
    ScaleValues(d);
    var p := Pow2(d);
    CompressWord(p, x);
    NearestAtMost(p, x);
    if Nearest(p, x, 3329) < p {
      SmallMod(Nearest(p, x, 3329), p);
      RoundedBelow(p, x, Nearest(p, x, 3329));
    } else {
      RoundedToTop(p, x);
      DivModUnique(p, p, 1, 0);
    }
  }

  /** A message bit survives exactly the noise in [-832, 832 - bit]. */
  predicate Tolerates(bit: nat, noise: int) {
    -832 <= Centered(noise) <= 832 - bit
  }

  lemma MessageBit(bit: nat, noise: int)
    requires bit < 2
    ensures Pow2(1) == 2
    ensures Compress(1, Mod(Decompress(1, bit) as int + noise)) == bit <==> Tolerates(bit, noise)
  {
    hide Compress, Decompress, Mod, Centered, Nearest, Expand;
    Pow2Values();
    var c := Centered(noise);
    assert Decompress(1, bit) == 1665 * bit by { ExpandBit(bit); }
    CongAdd(1665 * bit, 1665 * bit, noise, c);
    NearestBit(bit, c);
  }

  lemma ExpandBit(bit: nat)
    requires bit < 2
    ensures Expand(2, bit, 3329) == 1665 * bit
  {
  }

  lemma NearestBit(bit: nat, c: int)
    requires bit < 2 && -1664 <= c <= 1664
    ensures Nearest(2, Mod(1665 * bit + c), 3329) % 2 == bit <==> -832 <= c <= 832 - bit
  {
  }
}
