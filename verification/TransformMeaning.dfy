/** What the forward transform computes: residues modulo the quadratic factors of X^256 + 1. */
module TransformMeaning {
  import opened Bits
  import opened Roots
  import opened Zq
  import opened Transform

  /** Coefficient i of f modulo X^n - g, by Horner's rule: f[i] + g f[i + n] + g^2 f[i + 2n] + ... */
  function Residue(f: seq<int>, n: nat, g: int, i: nat): int
    requires n > 0
    decreases |f| - i
  {
    if i >= |f| then 0 else f[i] + g * Residue(f, n, g, i + n)
  }

  /** Exponent of zeta in the modulus X^(2^l) - zeta^e of block j once layer l has run. */
  function Exponent(l: nat, j: nat): nat
    requires 1 <= l <= 8
  {
    2 * BitRev(7, j) + Pow2(l - 1)
  }

  // ----- residues ------------------------------------------------------------------------

  /** Reducing modulo X^n - g factors through X^2n - g^2. */
  lemma {:induction false} ResidueSplits(f: seq<int>, n: nat, g: int, i: nat)
    requires n > 0
    ensures Residue(f, n, g, i) == Residue(f, 2 * n, g * g, i) + g * Residue(f, 2 * n, g * g, i + n)
    decreases |f| - i
  {
    if i < |f| {
      ResidueSplits(f, n, g, i + n);
      var odd, even := Residue(f, 2 * n, g * g, i + n), Residue(f, 2 * n, g * g, i + 2 * n);
      assert Residue(f, 2 * n, g * g, i) == f[i] + (g * g) * even;
      assert g * (odd + g * even) == g * odd + (g * g) * even;
    }
  }

  lemma {:induction false} ResidueCong(f: seq<int>, n: nat, g: int, h: int, i: nat)
    requires n > 0 && Cong(g, h)
    ensures Cong(Residue(f, n, g, i), Residue(f, n, h, i))
    decreases |f| - i
  {
    hide Mod;
    if i < |f| {
      ResidueCong(f, n, g, h, i + n);
      CongMul(g, h, Residue(f, n, g, i + n), Residue(f, n, h, i + n));
      CongAdd(f[i], f[i], g * Residue(f, n, g, i + n), h * Residue(f, n, h, i + n));
    }
  }

  lemma ResidueTop(f: seq<int>, n: nat, g: int, i: nat)
    requires n == |f| && i < n
    ensures Residue(f, n, g, i) == f[i]
  {
    assert Residue(f, n, g, i + n) == 0;
  }

  // ----- exponents -------------------------------------------------------------------------

  /** The butterfly of block s at layer l uses a square root of the block's modulus constant. */
  lemma ExponentHalves(l: nat, s: nat)
    requires 1 <= l <= 7 && s < Pow2(7 - l)
    ensures var b := BitRev(7, Pow2(7 - l) + s);
            Exponent(l + 1, s) == b + b && Exponent(l, 2 * s) == b && Exponent(l, 2 * s + 1) == b + 128
  {
    hide BitRev, Pow2;
    IndexBound(7 - l);
    BitRevSetBit(7, 7 - l, s);
    Pow2Values();
    BitRevSmall(6, s);
    BitRevChildren(s);
    assert 6 - (7 - l) == l - 1;
    Pow2Next(l - 1);
  }

  lemma BitRevChildren(s: nat)
    ensures BitRev(7, 2 * s) == BitRev(6, s) && BitRev(7, 2 * s + 1) == 64 + BitRev(6, s)
  {
    hide BitRev;
    Pow2Values();
    BitRevStep(7, 2 * s);
    BitRevStep(7, 2 * s + 1);
  }

  // ----- one layer ---------------------------------------------------------------------------

  /** Position r of block j, for blocks of n coefficients. */
  function Place(n: nat, j: nat, r: nat): nat {
    j * n + r
  }

  /** Position r of block j holds the matching residue of f once layers 7 .. l have run. */
  ghost predicate AtLevel(f: Poly, l: nat, j: nat, r: nat)
    requires 1 <= l <= 8
  {
    var p := Place(Pow2(l), j, r);
    p < 256 && Cong(NttDown(f, l)[p], Residue(f, Pow2(l), Pow(ZETA, Exponent(l, j)), r))
  }

  lemma ButterflyResidues(f: Poly, n: nat, x: int, y: int, z: int, b: nat, r: nat)
    requires n > 0
    requires Cong(z, Pow(ZETA, b))
    requires Cong(x, Residue(f, 2 * n, Pow(ZETA, b + b), r))
    requires Cong(y, Residue(f, 2 * n, Pow(ZETA, b + b), r + n))
    ensures Cong(x + z * y, Residue(f, n, Pow(ZETA, b), r))
    ensures Cong(x - z * y, Residue(f, n, Pow(ZETA, b + 128), r))
  {
    hide Mod, Residue, Pow;
    var g := Pow(ZETA, b);
    PowAdd(ZETA, b, b);
    var u, v := Residue(f, 2 * n, g * g, r), Residue(f, 2 * n, g * g, r + n);
    CongMul(z, g, y, v);
    CongAdd(x, u, z * y, g * v);
    ResidueSplits(f, n, g, r);
    ResidueSplits(f, n, -g, r);
    assert -g * -g == g * g && -g * v == -(g * v);
    PowTurn(b);
    ResidueCong(f, n, Pow(ZETA, b + 128), -g, r);
  }

  lemma BlockHalves(n: nat, s: nat, r: nat)
    ensures Place(n, 2 * s, r) == Place(2 * n, s, r)
    ensures Place(n, 2 * s + 1, r) == Place(2 * n, s, r) + n == Place(2 * n, s, r + n)
  {
  }

  /** The two outputs of one butterfly, by block and offset. */
  lemma ButterflyAt(l: nat, a: Poly, s: nat, r: nat)
    requires 1 <= l <= 7 && r < Len(l) && s < Pow2(7 - l) && Place(2 * Len(l), s, r) + Len(l) < 256
    ensures Pow2(7 - l) + s < 128
    ensures var i, n, z := Place(2 * Len(l), s, r), Len(l), NttZeta(Pow2(7 - l) + s);
            NttLayer(l, a)[i] == Mod(a[i] as int + z * a[i + n]) &&
            NttLayer(l, a)[i + n] == Mod(a[i] as int - z * a[i + n])
  {
    hide Pow2, Len, NttZeta, NttAt, Mod;
    IndexBound(7 - l);
    NttAtBlock(l, a, s, Place(2 * Len(l), s, r));
    NttAtBlock(l, a, s, Place(2 * Len(l), s, r) + Len(l));
  }

  lemma LayerResidues(f: Poly, l: nat, s: nat, r: nat)
    requires 1 <= l <= 7 && r < Len(l) && s < Pow2(7 - l)
    requires AtLevel(f, l + 1, s, r) && AtLevel(f, l + 1, s, r + Len(l))
    ensures AtLevel(f, l, 2 * s, r) && AtLevel(f, l, 2 * s + 1, r)
  {
    hide Mod, Residue, Pow, Pow2, Len, Exponent, NttZeta, BitRev, NttAt, IsLen, Place, NttLayer;
    var n := Len(l);
    Pow2Next(l);
    BlockHalves(n, s, r);
    var a := NttDown(f, l + 1);
    var i := Place(2 * n, s, r);
    ButterflyAt(l, a, s, r);
    var b := BitRev(7, Pow2(7 - l) + s);
    var z := NttZeta(Pow2(7 - l) + s);
    ExponentHalves(l, s);
    NttZetaMeans(Pow2(7 - l) + s);
    var x: int, y: int := a[i], a[i + n];
    ButterflyResidues(f, n, x, y, z, b, r);
    CongMod(x + z * y);
    CongMod(x - z * y);
  }

  lemma NttZetaMeans(k: nat)
    requires k < 128
    ensures Cong(NttZeta(k), Pow(ZETA, BitRev(7, k)))
  {
    hide Mod;
    CongMod(Pow(ZETA, BitRev(7, k)));
  }

  lemma {:induction false} NttLevel(f: Poly, l: nat, j: nat, r: nat)
    requires 1 <= l <= 8 && j < Pow2(8 - l) && r < Pow2(l)
    ensures AtLevel(f, l, j, r)
    decreases 8 - l
  {
    hide AtLevel, Pow2;
    if l == 8 {
      NttStart(f, r);
    } else {
      var s := j / 2;
      Pow2Next(l);
      Pow2Next(7 - l);
      NttLevel(f, l + 1, s, r);
      NttLevel(f, l + 1, s, r + Pow2(l));
      LayerResidues(f, l, s, r);
    }
  }

  lemma NttStart(f: Poly, r: nat)
    requires r < Pow2(8)
    ensures Pow2(0) == 1 && AtLevel(f, 8, 0, r)
  {
    hide Pow2, Pow, Exponent, Residue;
    Pow2Values();
    Pow2Next(0);
    ResidueTop(f, 256, Pow(ZETA, Exponent(8, 0)), r);
  }

  /** Pair i of the transform is f modulo X^2 - zeta^(2 rev(i) + 1). */
  lemma NttPair(f: Poly, i: nat, b: nat)
    requires i < 128 && b < 2
    ensures Cong(NttOf(f)[2 * i + b], Residue(f, 2, PolyMulZeta(i), b))
  {
    hide Pow2, Pow, Residue, NttDown, BitRev;
    Pow2Values();
    Pow2Next(0);
    NttLevel(f, 1, i, b);
    var g := Pow(ZETA, 2 * BitRev(7, i) + 1);
    CongMod(g);
    ResidueCong(f, 2, g, Mod(g), b);
  }

  /** The seven bits of an index in reverse order. */
  lemma ReversedBits(b0: nat, b1: nat, b2: nat, b3: nat, b4: nat, b5: nat, b6: nat)
    requires b0 < 2 && b1 < 2 && b2 < 2 && b3 < 2 && b4 < 2 && b5 < 2 && b6 < 2
    ensures BitRev(7, b0 + 2 * (b1 + 2 * (b2 + 2 * (b3 + 2 * (b4 + 2 * (b5 + 2 * b6)))))) ==
            64 * b0 + 32 * b1 + 16 * b2 + 8 * b3 + 4 * b4 + 2 * b5 + b6
  {
    hide Pow2, BitRev;
    PowersUpTo64();
    BitInFront(6, 64, b0, b1 + 2 * (b2 + 2 * (b3 + 2 * (b4 + 2 * (b5 + 2 * b6)))));
    BitInFront(5, 32, b1, b2 + 2 * (b3 + 2 * (b4 + 2 * (b5 + 2 * b6))));
    BitInFront(4, 16, b2, b3 + 2 * (b4 + 2 * (b5 + 2 * b6)));
    BitInFront(3, 8, b3, b4 + 2 * (b5 + 2 * b6));
    BitInFront(2, 4, b4, b5 + 2 * b6);
    BitInFront(1, 2, b5, b6);
    LastBit(b6);
  }

  lemma LastBit(b: nat)
    requires b < 2
    ensures BitRev(1, b) == b
  {
    assert BitRev(0, 0) == 0 && Pow2(0) == 1;
  }

  lemma PowersUpTo64()
    ensures Pow2(0) == 1 && Pow2(1) == 2 && Pow2(2) == 4 && Pow2(3) == 8 && Pow2(4) == 16 && Pow2(5) == 32 && Pow2(6) == 64
  {
  }

  lemma BitInFront(w: nat, p: nat, b: nat, v: nat)
    requires b < 2 && p == Pow2(w)
    ensures BitRev(w + 1, b + 2 * v) == b * p + BitRev(w, v)
  {
    hide Pow2, BitRev;
    BitRevStep(w + 1, b + 2 * v);
  }

  /**
   * The transform in numbers: coefficient 2i + r is coefficient r of f modulo X^2 - 17^e, where e is twice the number
   * whose seven bits are those of i in reverse order, plus one.
   */
  lemma NttByBits(f: Poly, b0: nat, b1: nat, b2: nat, b3: nat, b4: nat, b5: nat, b6: nat, r: nat)
    requires b0 < 2 && b1 < 2 && b2 < 2 && b3 < 2 && b4 < 2 && b5 < 2 && b6 < 2 && r < 2
    ensures
      var i := b0 + 2 * (b1 + 2 * (b2 + 2 * (b3 + 2 * (b4 + 2 * (b5 + 2 * b6)))));
      var rev := 64 * b0 + 32 * b1 + 16 * b2 + 8 * b3 + 4 * b4 + 2 * b5 + b6;
      Cong(NttOf(f)[2 * i + r], Residue(f, 2, Pow(17, 2 * rev + 1), r))
  {
    hide Pow, Residue, NttOf, BitRev;
    var i := b0 + 2 * (b1 + 2 * (b2 + 2 * (b3 + 2 * (b4 + 2 * (b5 + 2 * b6)))));
    ReversedBits(b0, b1, b2, b3, b4, b5, b6);
    HalfTurn();
    NttPair(f, i, r);
    var g := Pow(ZETA, 2 * BitRev(7, i) + 1);
    CongMod(g);
    ResidueCong(f, 2, Mod(g), g, r);
  }

  /** The first coefficients of the transform of X^2: 17, 0, 3312, 0, 2761, 0. */
  lemma NttOfSquare(f: Poly)
    requires f == seq(256, i => if i == 2 then 1 else 0)
    ensures NttOf(f)[..6] == [17, 0, 3312, 0, 2761, 0]
  {
    hide NttOf, Pow, Residue;
    forall r: nat | r < 2
      ensures Residue(f, 2, Pow(17, 1), r) == if r == 0 then Pow(17, 1) else 0
      ensures Residue(f, 2, Pow(17, 129), r) == if r == 0 then Pow(17, 129) else 0
      ensures Residue(f, 2, Pow(17, 65), r) == if r == 0 then Pow(17, 65) else 0
    {
      ResidueOfSquare(f, Pow(17, 1), r);
      ResidueOfSquare(f, Pow(17, 129), r);
      ResidueOfSquare(f, Pow(17, 65), r);
    }
    NttByBits(f, 0, 0, 0, 0, 0, 0, 0, 0);
    NttByBits(f, 0, 0, 0, 0, 0, 0, 0, 1);
    NttByBits(f, 1, 0, 0, 0, 0, 0, 0, 0);
    NttByBits(f, 1, 0, 0, 0, 0, 0, 0, 1);
    NttByBits(f, 0, 1, 0, 0, 0, 0, 0, 0);
    NttByBits(f, 0, 1, 0, 0, 0, 0, 0, 1);
    SmallPowers();
  }

  lemma SmallPowers()
    ensures Cong(Pow(17, 1), 17) && Cong(Pow(17, 129), 3312) && Cong(Pow(17, 65), 2761)
  {
    assert Pow(17, 1) == 17;
    HalfTurn();
    QuarterTurn();
    hide Pow;
    PowAdd(17, 128, 1);
    PowAdd(17, 64, 1);
    CongScale(Pow(17, 128), -1, 17);
    CongScale(Pow(17, 64), 1729, 17);
  }

  lemma {:induction false} ResidueOfNothing(f: Poly, g: int, i: nat)
    requires forall k :: i <= k < 256 ==> f[k] == 0
    ensures Residue(f, 2, g, i) == 0
    decreases 256 - i
  {
    if i < 256 {
      ResidueOfNothing(f, g, i + 2);
      assert g * 0 == 0;
    }
  }

  lemma ResidueOfSquare(f: Poly, g: int, r: nat)
    requires r < 2 && f == seq(256, i => if i == 2 then 1 else 0)
    ensures Residue(f, 2, g, r) == if r == 0 then g else 0
  {
    hide Residue;
    ResidueOfNothing(f, g, r + 4);
    ResidueStep(f, g, r);
    ResidueStep(f, g, r + 2);
  }

  lemma ResidueStep(f: Poly, g: int, i: nat)
    requires i < 256
    ensures Residue(f, 2, g, i) == f[i] + g * Residue(f, 2, g, i + 2)
  {
  }
}
