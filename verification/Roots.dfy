/** Powers of the 256th root of unity 17 modulo 3329, indexed by reversed bits. */
module Roots {
  import opened Bits
  import opened Zq

  const ZETA: zq := 17

  /** The low w bits of v in reverse order. */
  function BitRev(w: nat, v: nat): (r: nat)
    ensures r < Pow2(w)
  {
    if w == 0 then 0 else v % 2 * Pow2(w - 1) + BitRev(w - 1, v / 2)
  }

  /** The table of powers used by the forward transform. */
  function NttZeta(k: nat): (z: zq)
    requires k < 128
  {
    Mod(Pow(ZETA, BitRev(7, k)))
  }

  /** The negated table used by the inverse transform; negation is canonical because no entry is zero. */
  function InttZeta(k: nat): (z: zq)
    requires k < 128
    ensures Mod(NttZeta(k) + z) == 0
  {
    BitRev7Bound(k);
    PowNonzero(BitRev(7, k));
    Neg(NttZeta(k))
  }

  /** The table of powers used by the pairwise multiplication: odd exponents 2 * rev(i) + 1. */
  function PolyMulZeta(i: nat): (z: zq)
    requires i < 128
  {
    Mod(Pow(ZETA, 2 * BitRev(7, i) + 1))
  }

  // ----- bit reversal -------------------------------------------------------------

  lemma BitRev7Bound(k: nat)
    ensures BitRev(7, k) < 128
  {
    Pow2Values();
  }

  lemma {:induction false} BitRevSmall(w: nat, s: nat)
    requires s < Pow2(w)
    ensures BitRev(w + 1, s) == 2 * BitRev(w, s)
  {
    if w > 0 {
      BitRevSmall(w - 1, s / 2);
    } else {
      assert BitRev(1, 0) == 0;
    }
  }

  /** Setting bit m of an m-bit number adds 2^(w-1-m) to the reversal. */
  lemma {:induction false} BitRevSetBit(w: nat, m: nat, s: nat)
    requires m < w && s < Pow2(m)
    ensures BitRev(w, Pow2(m) + s) == Pow2(w - 1 - m) + BitRev(w, s)
  {
    if m == 0 {
      assert BitRev(w, 1) == Pow2(w - 1) + BitRev(w - 1, 0);
      assert BitRev(w, 0) == BitRev(w - 1, 0);
    } else {
      BitRevSetBit(w - 1, m - 1, s / 2);
      var p := Pow2(m - 1);
      assert (2 * p + s) / 2 == p + s / 2 && (2 * p + s) % 2 == s % 2;
    }
  }

  /** Complementing m bits complements the reversal within the top m places. */
  lemma {:induction false} BitRevComplement(w: nat, m: nat, s: nat)
    requires m <= w && s < Pow2(m)
    ensures BitRev(w, Pow2(m) - 1 - s) + BitRev(w, s) == Pow2(w) - Pow2(w - m)
  {
    if m > 0 {
      hide BitRev, Pow2;
      var p := Pow2(m - 1);
      Pow2Next(m - 1);
      Pow2Next(w - 1);
      BitRevComplement(w - 1, m - 1, s / 2);
      HalfComplement(p, s);
      BitRevStep(w, s);
      BitRevStep(w, 2 * p - 1 - s);
      Alternate(s, Pow2(w - 1));
    } else {
      BitRevZero(w);
    }
  }

  lemma HalfComplement(p: nat, s: nat)
    requires s < 2 * p
    ensures (2 * p - 1 - s) / 2 == p - 1 - s / 2 && (2 * p - 1 - s) % 2 == 1 - s % 2
  {
  }

  lemma Alternate(s: nat, p: nat)
    ensures s % 2 * p + (1 - s % 2) * p == p
  {
  }

  lemma BitRevStep(w: nat, v: nat)
    requires w > 0
    ensures BitRev(w, v) == v % 2 * Pow2(w - 1) + BitRev(w - 1, v / 2)
  {
  }

  lemma BitRevZero(w: nat)
    ensures BitRev(w, 0) == 0
  {
  }

  /** The index of a butterfly and the index of its inverse have reversals that add up to 128. */
  lemma MirroredIndex(m: nat, s: nat)
    requires m < 7 && s < Pow2(m)
    ensures BitRev(7, Pow2(m) + s) + BitRev(7, Pow2(m + 1) - 1 - s) == 128
  {
    hide BitRev, Pow2;
    IndexBound(m);
    BitRevSetBit(7, m, s);
    BitRevSetBit(7, m, Pow2(m) - 1 - s);
    BitRevComplement(7, m, s);
    assert Pow2(m + 1) - 1 - s == Pow2(m) + (Pow2(m) - 1 - s);
    IndexBound(6 - m);
    Pow2Values();
  }

  // ----- the order of zeta ----------------------------------------------------------

  lemma Square(e: nat, v: int, w: int)
    requires Cong(Pow(ZETA, e), v) && Cong(v * v, w)
    ensures Cong(Pow(ZETA, 2 * e), w)
  {
    PowAdd(ZETA, e, e);
    CongMul(Pow(ZETA, e), v, Pow(ZETA, e), v);
  }

  lemma QuarterTurn()
    ensures Cong(Pow(17, 64), 1729)
  {
    assert Pow(ZETA, 1) == 17;
    Square(1, 17, 289);
    Square(2, 289, 296);
    Square(4, 296, 1062);
    Square(8, 1062, 2642);
    Square(16, 2642, 2580);
    Square(32, 2580, 1729);
  }

  /** 17^128 = -1 modulo 3329, so 17 has order 256; it is the root that the code takes powers of. */
  lemma HalfTurn()
    ensures Cong(Pow(17, 128), -1) && ZETA == 17
  {
    QuarterTurn();
    Square(64, 1729, -1);
  }

  lemma PowTurn(e: nat)
    ensures Cong(Pow(ZETA, e + 128), -Pow(ZETA, e))
  {
    HalfTurn();
    PowAdd(ZETA, e, 128);
    CongScale(Pow(ZETA, 128), -1, Pow(ZETA, e));
  }

  lemma {:induction false} OddTurns(n: nat)
    ensures Cong(Pow(ZETA, 128 * (2 * n + 1)), -1)
  {
    hide Pow, Mod;
    HalfTurn();
    if n > 0 {
      OddTurns(n - 1);
      var e := 128 * (2 * n - 1);
      PowTurn(e);
      PowTurn(e + 128);
      assert e + 128 + 128 == 128 * (2 * n + 1);
      CongAdd(0, 0, Pow(ZETA, e + 128), -Pow(ZETA, e));
    }
  }

  /** The constants of the 128 quadratic moduli X^2 - z satisfy z^128 = -1. */
  lemma PolyMulZetaTurns(i: nat)
    requires i < 128
    ensures Cong(Pow(PolyMulZeta(i), 128), -1)
  {
    hide Pow, Mod, BitRev;
    var e := 2 * BitRev(7, i) + 1;
    CongMod(Pow(ZETA, e));
    PowCong(PolyMulZeta(i), Pow(ZETA, e), 128);
    PowPow(ZETA, e, 128);
    OddTurns(BitRev(7, i));
  }

  lemma PowNonzero(e: nat)
    requires e < 128
    ensures Mod(Pow(ZETA, e)) != 0
  {
    PowAdd(ZETA, e, 128 - e);
    HalfTurn();
    if Mod(Pow(ZETA, e)) == 0 {
      CongScale(Pow(ZETA, e), 0, Pow(ZETA, 128 - e));
    }
  }

  /** The inverse transform's factor cancels the forward transform's. */
  lemma InverseZeta(m: nat, s: nat)
    requires m < 7 && s < Pow2(m)
    ensures Pow2(m) + s < 128 && 0 <= Pow2(m + 1) - 1 - s < 128
    ensures Cong(NttZeta(Pow2(m) + s) * InttZeta(Pow2(m + 1) - 1 - s), 1)
  {
    hide Pow, BitRev, Mod, Pow2;
    IndexBound(m);
    var k, k' := Pow2(m) + s, Pow2(m + 1) - 1 - s;
    var i, j := BitRev(7, k), BitRev(7, k');
    MirroredIndex(m, s);
    CongMod(Pow(ZETA, i));
    TurnProduct(i, j, NttZeta(k), InttZeta(k'));
  }

  lemma TurnProduct(i: nat, j: nat, y: int, z: int)
    requires i + j == 128 && Cong(y, Pow(ZETA, i)) && Mod(Mod(Pow(ZETA, j)) + z) == 0
    ensures Cong(y * z, 1)
  {
    hide Pow;
    PowAdd(ZETA, i, j);
    HalfTurn();
    CongNeg(Pow(ZETA, j), z);
    UnitProduct(Pow(ZETA, i), Pow(ZETA, j), y, z);
  }

  lemma UnitProduct(a: int, b: int, y: int, z: int)
    requires Cong(a * b, -1) && Cong(y, a) && Cong(z, -b)
    ensures Cong(y * z, 1)
  {
    CongMul(y, a, z, -b);
    var p := a * b;
    assert a * -b == -p;
    assert Cong(-p, 1);
  }

  lemma CongNeg(b: int, z: int)
    requires Mod(Mod(b) + z) == 0
    ensures Cong(z, -b)
  {
  }

  lemma IndexBound(m: nat)
    requires m < 7
    ensures Pow2(m + 1) <= 128 && Pow2(m + 1) == 2 * Pow2(m)
  {
    Pow2Add(m + 1, 6 - m);
    Pow2Values();
  }
}
