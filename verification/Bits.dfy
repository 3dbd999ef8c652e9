/** Powers of two and the bitwise operators of the C++ and C sources, on unbounded naturals. */
module Bits {

  function Pow2(n: nat): (p: nat)
    ensures p > 0
  {
    if n == 0 then 1 else 2 * Pow2(n - 1)
  }

  /** `x & y`, one bit at a time. */
  function Band(x: nat, y: nat): nat {
    if x == 0 || y == 0 then 0
    else 2 * Band(x / 2, y / 2) + (if x % 2 == 1 && y % 2 == 1 then 1 else 0)
  }

  lemma BandAtMost(x: nat, y: nat)
    ensures Band(x, y) <= x
  {
  }

  /** `x | y`, one bit at a time. */
  function Bor(x: nat, y: nat): nat
    decreases x + y
  {
    if x == 0 && y == 0 then 0
    else 2 * Bor(x / 2, y / 2) + (if x % 2 == 1 || y % 2 == 1 then 1 else 0)
  }

  lemma Pow2Add(m: nat, n: nat)
    ensures Pow2(m + n) == Pow2(m) * Pow2(n)
  {
    if m > 0 {
      Pow2Add(m - 1, n);
    }
  }

  lemma Pow2Next(n: nat)
    ensures Pow2(n + 1) == 2 * Pow2(n)
  {
  }

  lemma Pow2Values()
    ensures Pow2(1) == 2 && Pow2(2) == 4 && Pow2(3) == 8 && Pow2(4) == 16 && Pow2(5) == 32 && Pow2(6) == 64
    ensures Pow2(7) == 128 && Pow2(8) == 256 && Pow2(9) == 512 && Pow2(10) == 1024 && Pow2(11) == 2048
    ensures Pow2(12) == 4096 && Pow2(16) == 0x1_0000 && Pow2(24) == 0x100_0000 && Pow2(32) == 0x1_0000_0000
  {
    assert Pow2(4) == 16;
    Pow2Add(4, 4);
    Pow2Add(8, 8);
    Pow2Add(8, 16);
    Pow2Add(16, 16);
    Pow2Add(8, 4);
  }

  lemma ModDouble(x: nat, p: nat)
    requires p > 0
    ensures x % (2 * p) == 2 * (x / 2 % p) + x % 2
  {
    var q := x / 2 / p;
    assert x == q * (2 * p) + (2 * (x / 2 % p) + x % 2);
    DivModUnique(x, 2 * p, q, 2 * (x / 2 % p) + x % 2);
  }

  lemma SmallProduct(n: int, d: int)
    requires n > 0 && -n < n * d < n
    ensures d == 0
  {
  }

  /** Quotient and remainder are determined by x = q * n + r with 0 <= r < n. */
  lemma DivModUnique(x: int, n: int, q: int, r: int)
    requires n > 0 && 0 <= r < n && x == q * n + r
    ensures x / n == q && x % n == r
  {
    assert n * (x / n - q) == r - x % n;
    SmallProduct(n, x / n - q);
  }

  lemma QuotientNat(x: nat, n: nat)
    requires n > 0
    ensures x / n >= 0 && x == x / n * n + x % n
  {
    if x / n < 0 {
      MulLe(x / n, -1, n);
    }
  }

  /** Masking with 2^n - 1 keeps the low n bits. */
  lemma {:induction false} BandMask(x: nat, n: nat)
    ensures Band(x, Pow2(n) - 1) == x % Pow2(n)
  {
    if n > 0 {
      var m := Pow2(n - 1);
      assert (2 * m - 1) / 2 == m - 1 && (2 * m - 1) % 2 == 1;
      BandMask(x / 2, n - 1);
      ModDouble(x, m);
      if x > 0 {
        assert Band(x, 2 * m - 1) == 2 * Band(x / 2, m - 1) + x % 2;
      }
    }
  }

  lemma BorZero(x: nat)
    ensures Bor(x, 0) == x && Bor(0, x) == x
  {
    if x > 0 {
      BorZero(x / 2);
    }
  }

  /** An or of a shifted value with a value below the shift is their sum. */
  lemma {:induction false} BorDisjoint(high: nat, n: nat, low: nat)
    requires low < Pow2(n)
    ensures Bor(high * Pow2(n), low) == high * Pow2(n) + low
  {
    if n == 0 {
      BorZero(high);
    } else {
      var p := Pow2(n - 1);
      assert high * Pow2(n) == 2 * (high * p);
      BorDisjoint(high, n - 1, low / 2);
    }
  }

  lemma CancelLe(a: int, b: int, p: int)
    requires p > 0 && a * p <= b * p
    ensures a <= b
  {
  }

  lemma CancelLt(a: int, b: int, p: int)
    requires p > 0 && a * p < b * p
    ensures a < b
  {
  }

  lemma MulLe(a: int, b: int, p: int)
    requires p >= 0 && a <= b
    ensures a * p <= b * p
  {
  }
}
