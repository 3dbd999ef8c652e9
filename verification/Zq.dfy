/** The prime field of ML-KEM: 32-bit unsigned arithmetic with Barrett reduction. */
module Zq {
  import opened Integers
  import opened Bits

  const Q: nat := 3329
  const WORD: nat := 0x1_0000_0000

  type zq = x: nat | x < 3329

  /** The canonical representative. */
  function Mod(x: int): zq {
    x % 3329
  }

  /** Agreement modulo the prime. */
  predicate Cong(a: int, b: int) {
    Mod(a) == Mod(b)
  }

  // ----- the machine operations ------------------------------------------------

  function Wrap(x: int): u32 {
    x % 0x1_0000_0000
  }

  /** `Q & mask` for a mask of all ones or all zeros. */
  function MaskedQ(mask: u32): (r: u32)
    ensures mask == 0 ==> r == 0
    ensures mask == WORD - 1 ==> r == Q
  {
    hide Band;
    MaskQ();
    BandAtMost(Q, mask);
    Band(Q, mask)
  }

  /** One conditional subtraction: the borrow of v - Q, spread over a word, selects Q or 0. */
  function ReduceOnce(v: u32): (r: u32)
    ensures v < 2 * Q ==> r == Mod(v)
  {
    hide MaskedQ;
    var t0 := Wrap(v - Q);
    var t1 := Wrap(-(t0 / 0x8000_0000));
    Wrap(t0 + MaskedQ(t1))
  }

  lemma MaskQ()
    ensures Band(Q, 0) == 0 && Band(Q, WORD - 1) == Q
  {
    Pow2Values();
    BandMask(Q, 32);
  }

  // ----- Barrett reduction for any modulus ---------------------------------------

  /** The Barrett quotient of v by q with p = 2^(2k) as the scale: v * floor(p / q) / p. */
  function BarrettQuotient(v: nat, q: nat, p: nat): nat
    requires q > 0 && p > 0
  {
    var r := p / q;
    assert v * r >= 0;
    v * r / p
  }

  /** The estimate t for r = floor(p / q) never exceeds v / q. */
  lemma BarrettUpper(v: nat, q: nat, p: nat, r: nat, t: nat)
    requires p > 0 && r * q <= p && t * p <= v * r
    ensures t * q <= v
  {
    MulLe(t * p, v * r, q);
    MulLe(r * q, p, v);
    assert (t * q) * p == (t * p) * q;
    assert (v * r) * q == (r * q) * v;
    CancelLe(t * q, v, p);
  }

  /** The estimate is less than two short. */
  lemma BarrettLower(v: nat, q: nat, p: nat, r: nat, t: nat)
    requires q > 0 && v < p && p - q < r * q && v * r < t * p + p
    ensures v < t * q + 2 * q
  {
    BarrettGap(v, q, p, r);
    MulLe(v * r + 1, t * p + p, q);
    assert (v * r + 1) * q == (v * r) * q + q;
    assert (t * p + p) * q + p * q == (t * q + 2 * q) * p;
    CancelLt(v, t * q + 2 * q, p);
  }

  lemma BarrettGap(v: nat, q: nat, p: nat, r: nat)
    requires q > 0 && v < p && p - q < r * q
    ensures v * p < (v * r) * q + p * q
  {
    MulLe(p - r * q, q, v);
    MulLe(v + 1, p, q);
    assert (p - r * q) * v == v * p - (v * r) * q;
    assert (v + 1) * q == q * v + q;
  }

  /** For every modulus q and every v < p the estimate is the true quotient or one less. */
  lemma BarrettEstimate(v: nat, q: nat, p: nat)
    requires q > 0 && v < p
    ensures v / q - 1 <= BarrettQuotient(v, q, p) <= v / q
    ensures 0 <= v - BarrettQuotient(v, q, p) * q < 2 * q
  {
    var r := p / q;
    var t := BarrettQuotient(v, q, p);
    BarrettUpper(v, q, p, r, t);
    BarrettLower(v, q, p, r, t);
    if v - t * q < q {
      DivModUnique(v, q, t, v - t * q);
    } else {
      DivModUnique(v, q, t + 1, v - t * q - q);
    }
  }

  /** Barrett reduction of a 32-bit word below 2^24, as the source writes it. */
  function BarrettReduce(v: u32): (r: u32)
    ensures v < 0x100_0000 ==> r == Mod(v)
  {
    var t1 := Wrap(BarrettQuotient(v, Q, 0x100_0000));
    var t := Wrap(v - Wrap(t1 * Q));
    BarrettWord(v);
    ReduceOnce(t)
  }

  lemma BarrettWord(v: u32)
    ensures v < 0x100_0000 ==>
              var t := Wrap(v - Wrap(Wrap(BarrettQuotient(v, Q, 0x100_0000)) * Q));
              t < 2 * Q && Mod(t) == Mod(v)
  {
    if v < 0x100_0000 {
      BarrettEstimate(v, Q, 0x100_0000);
    }
  }

  // ----- the field operators -----------------------------------------------------

  function FromNonReduced(a: nat): (r: zq)
    requires a < 0x1_0000
    ensures r == Mod(a)
  {
    hide BarrettReduce;
    BarrettReduce(a)
  }

  /** `a + b`; the right operand may be the non-canonical Q that negation makes of zero. */
  function Add(a: zq, b: nat): (r: zq)
    requires b <= Q
    ensures r == Mod(a + b)
  {
    hide ReduceOnce;
    ReduceOnce(a + b)
  }

  /** Unary minus maps zero to Q: its result is canonical exactly on nonzero elements. */
  function Neg(a: zq): (r: nat)
    ensures r <= Q && (r < Q <==> a != 0)
    ensures Mod(a + r) == 0
  {
    Q - a
  }

  function Sub(a: zq, b: zq): (r: zq)
    ensures r == Mod(a - b)
  {
    hide Add;
    Add(a, Neg(b))
  }

  function Mul(a: zq, b: zq): (r: zq)
    ensures r == Mod(a * b)
  {
    hide BarrettReduce;
    ProductBound(a, b);
    BarrettReduce(a * b)
  }

  lemma ProductBound(a: zq, b: zq)
    ensures 0 <= a * b < 0x100_0000
  {
    MulLe(0, a, b);
    MulLe(a, 3329, b);
  }

  // ----- congruence ----------------------------------------------------------------

  lemma ModCanonical(a: zq)
    ensures Mod(a) == a
  {
  }

  lemma ModShift(a: int, k: int)
    ensures Mod(a + 3329 * k) == Mod(a)
  {
    DivModUnique(a + 3329 * k, 3329, a / 3329 + k, a % 3329);
  }

  /** Every integer is its representative plus a multiple of the prime. */
  lemma ModQuotient(a: int)
    ensures a == Mod(a) + 3329 * (a / 3329)
  {
  }

  lemma CongMod(a: int)
    ensures Cong(Mod(a), a)
  {
  }

  lemma CongAdd(a: int, b: int, c: int, d: int)
    requires Cong(a, b) && Cong(c, d)
    ensures Cong(a + c, b + d) && Cong(a - c, b - d)
  {
    hide Mod;
    ModQuotient(a);
    ModQuotient(b);
    ModQuotient(c);
    ModQuotient(d);
    ModShift(b + d, a / 3329 - b / 3329 + (c / 3329 - d / 3329));
    ModShift(b - d, a / 3329 - b / 3329 - (c / 3329 - d / 3329));
  }

  lemma CongScale(a: int, b: int, c: int)
    requires Cong(a, b)
    ensures Cong(a * c, b * c) && Cong(c * a, c * b)
  {
    hide Mod;
    ModQuotient(a);
    ModQuotient(b);
    var k := a / 3329 - b / 3329;
    assert a * c == b * c + 3329 * (k * c);
    ModShift(b * c, k * c);
  }

  lemma CongMul(a: int, b: int, c: int, d: int)
    requires Cong(a, b) && Cong(c, d)
    ensures Cong(a * c, b * d)
  {
    hide Mod;
    CongScale(a, b, c);
    CongScale(c, d, b);
  }

  // ----- powers --------------------------------------------------------------------

  function Pow(b: int, e: nat): int {
    if e == 0 then 1 else b * Pow(b, e - 1)
  }

  lemma PowAdd(b: int, m: nat, n: nat)
    ensures Pow(b, m + n) == Pow(b, m) * Pow(b, n)
  {
    if m > 0 {
      PowAdd(b, m - 1, n);
    }
  }

  lemma PowCong(a: int, b: int, e: nat)
    requires Cong(a, b)
    ensures Cong(Pow(a, e), Pow(b, e))
  {
    if e > 0 {
      PowCong(a, b, e - 1);
      CongMul(a, b, Pow(a, e - 1), Pow(b, e - 1));
    }
  }

  lemma {:induction false} PowPow(b: int, m: nat, n: nat)
    ensures Pow(Pow(b, m), n) == Pow(b, n * m)
  {
    if n > 0 {
      PowPow(b, m, n - 1);
      var rest := (n - 1) * m;
      assert n * m == m + rest;
      PowAdd(b, m, rest);
    }
  }

  lemma PowHalf(b: int, n: nat)
    ensures Pow(b, n) == (if n % 2 == 1 then b else 1) * Pow(b * b, n / 2)
  {
    if n >= 2 {
      PowHalf(b, n - 2);
      assert Pow(b, n) == b * (b * Pow(b, n - 2));
      assert Pow(b * b, n / 2) == (b * b) * Pow(b * b, (n - 2) / 2);
    }
  }

  /** What square-and-multiply still has to deliver: r * (base * base)^rest. */
  function Pending(base: zq, r: zq, rest: nat): zq {
    Mod(r * Pow(base * base, rest))
  }

  lemma PowerStep(base: zq, r: zq, rest: nat, c: zq, factor: zq)
    requires c == Mod(base * base) && factor == if rest % 2 == 1 then c else 1
    ensures Pending(c, Mod(r * factor), rest / 2) == Pending(base, r, rest)
  {
    hide Mod;
    var p := Pow(c * c, rest / 2);
    CongMod(base * base);
    CongMod(r * factor);
    PowHalf(c, rest);
    PowCong(c, base * base, rest);
    CongScale(Mod(r * factor), r * factor, p);
    assert r * factor * p == r * (factor * p);
    CongScale(Pow(c, rest), Pow(base * base, rest), r);
  }

  lemma PowerEnds(base: zq, r: zq, n: nat)
    ensures Pending(base, r, 0) == r
    ensures Pending(base, if n % 2 == 1 then base else 1, n / 2) == Mod(Pow(base, n))
  {
    PowHalf(base, n);
  }

  /** `base ^ n` by squaring, scanning the exponent from its lowest bit. */
  method Power(b: zq, n: nat) returns (r: zq)
    ensures r == Mod(Pow(b, n))
  {
    hide Mul, Pow, Mod, Pending;
    var base: zq := b;
    r := if n % 2 == 1 then b else 1;
    var rest: nat := n / 2;
    PowerEnds(b, r, n);
    while rest > 0
      invariant Pending(base, r, rest) == Mod(Pow(b, n))
    {
      var square := Mul(base, base);
      var factor: zq := if rest % 2 == 1 then square else 1;
      PowerStep(base, r, rest, square, factor);
      base := square;
      r := Mul(r, factor);
      rest := rest / 2;
    }
    PowerEnds(base, r, n);
  }
}
