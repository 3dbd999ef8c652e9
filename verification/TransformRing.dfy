/** Multiplying through the transform is multiplication modulo X^256 + 1. */
module TransformRing {
  import opened Roots
  import opened Zq
  import opened Transform
  import opened TransformMeaning
  import opened TransformInverse

  // ----- the ring ------------------------------------------------------------------------

  /** Coefficient d of g extended to negative positions by X^-256 = -1. */
  function Wrapped(g: Poly, d: int): int
    requires -256 <= d < 256
  {
    if d >= 0 then g[d] else -(g[256 + d] as int)
  }

  /** The terms f[i] g[k - i] of the schoolbook product from i = from on, shifted down by `from`. */
  function Convolve(f: Poly, g: Poly, k: nat, from: nat, i: nat): int
    requires k < 256 && from <= i <= 256
    decreases 256 - i
  {
    if i == 256 then 0 else f[i] * Wrapped(g, k - (i - from)) + Convolve(f, g, k, from, i + 1)
  }

  /** The schoolbook product of two polynomials modulo X^256 + 1 over Z_3329. */
  function PolyMul(f: Poly, g: Poly): Poly {
    seq(256, k requires 0 <= k < 256 => Mod(Convolve(f, g, k, 0, 0)))
  }

  // ----- the pairwise product -----------------------------------------------------------------

  /** (f0 + f1 X)(g0 + g1 X) modulo X^2 - z: the constant and the linear coefficient. */
  function BaseMul0(f0: zq, f1: zq, g0: zq, g1: zq, z: zq): zq {
    Mod(f0 * g0 + z * (f1 * g1))
  }

  function BaseMul1(f0: zq, f1: zq, g0: zq, g1: zq): zq {
    Mod(f0 * g1 + f1 * g0)
  }

  function PairMul(f: Poly, g: Poly): Poly {
    seq(256, i requires 0 <= i < 256 => PairMulAt(f, g, i))
  }

  function PairMulAt(f: Poly, g: Poly, i: nat): zq
    requires i < 256
  {
    var e := i / 2 * 2;
    if i % 2 == 0 then BaseMul0(f[e], f[e + 1], g[e], g[e + 1], PolyMulZeta(i / 2))
    else BaseMul1(f[e], f[e + 1], g[e], g[e + 1])
  }

  // ----- the schoolbook product under reduction modulo X^2 - z -----------------------------------

  /** Multiplication by X^from undone: the product of g with the tail of f from position `from`. */
  function Tail(f: Poly, g: Poly, from: nat): (t: seq<int>)
    requires from <= 256
    ensures |t| == 256
  {
    seq(256, k requires 0 <= k < 256 => Convolve(f, g, k, from, from))
  }

  /** X times a polynomial, modulo X^256 + 1. */
  function TimesX(p: seq<int>): (q: seq<int>)
    requires |p| == 256
    ensures |q| == 256
  {
    seq(256, k requires 0 <= k < 256 => if k == 0 then -p[255] else p[k - 1])
  }

  lemma {:induction false} ConvolveShift(f: Poly, g: Poly, k: nat, from: nat, i: nat)
    requires k < 256 && from + 1 <= i <= 256
    ensures Convolve(f, g, k, from, i) ==
            if k == 0 then -Convolve(f, g, 255, from + 1, i) else Convolve(f, g, k - 1, from + 1, i)
    decreases 256 - i
  {
    if i < 256 {
      ConvolveShift(f, g, k, from, i + 1);
      if k == 0 {
        assert f[i] * Wrapped(g, k - (i - from)) == -(f[i] * Wrapped(g, 255 - (i - (from + 1))));
      }
    }
  }

  /** Horner's rule for the product: tail(from) = f[from] g + X tail(from + 1). */
  lemma TailHorner(f: Poly, g: Poly, from: nat, k: nat)
    requires from < 256 && k < 256
    ensures Tail(f, g, from)[k] == f[from] * g[k] + TimesX(Tail(f, g, from + 1))[k]
  {
    ConvolveShift(f, g, k, from, from + 1);
    assert Wrapped(g, k) == g[k];
  }

  lemma {:induction false} ResidueTimesX(p: seq<int>, z: int, i: nat)
    requires |p| == 256 && 0 < i
    ensures Residue(TimesX(p), 2, z, i) ==
            Residue(p, 2, z, i - 1) - (if i <= 256 && i % 2 == 0 then Pow(z, (256 - i) / 2) * p[255] else 0)
    decreases 256 - i
  {
    if i < 256 {
      ResidueTimesX(p, z, i + 2);
      if i % 2 == 0 {
        assert (256 - i) / 2 == (256 - (i + 2)) / 2 + 1;
      }
    } else if i == 256 {
      assert Residue(p, 2, z, 255) == p[255] + z * Residue(p, 2, z, 257);
    }
  }

  lemma {:induction false} ResidueLinear(h: seq<int>, c: int, u: seq<int>, p: seq<int>, z: int, i: nat)
    requires |h| == |u| == |p| && forall k :: 0 <= k < |h| ==> h[k] == c * u[k] + p[k]
    ensures Residue(h, 2, z, i) == c * Residue(u, 2, z, i) + Residue(p, 2, z, i)
    decreases |h| - i
  {
    if i < |h| {
      ResidueLinear(h, c, u, p, z, i + 2);
      var x, y := Residue(u, 2, z, i + 2), Residue(p, 2, z, i + 2);
      assert z * (c * x + y) == c * (z * x) + z * y;
      assert c * (u[i] + z * x) == c * u[i] + c * (z * x);
    }
  }

  lemma ResidueZero(h: seq<int>, z: int, i: nat)
    requires forall k :: 0 <= k < |h| ==> h[k] == 0
    ensures Residue(h, 2, z, i) == 0
    decreases |h| - i
  {
    if i < |h| {
      ResidueZero(h, z, i + 2);
    }
  }

  /** Multiplying by X swaps the two residues and scales one by z. */
  lemma ResiduesTimesX(p: seq<int>, z: int)
    requires |p| == 256 && Cong(Pow(z, 128), -1)
    ensures Cong(Residue(TimesX(p), 2, z, 0), z * Residue(p, 2, z, 1))
    ensures Residue(TimesX(p), 2, z, 1) == Residue(p, 2, z, 0)
  {
    ResidueTimesX(p, z, 1);
    ResidueTimesX(p, z, 2);
    WrapAround(p[255], z, Residue(p, 2, z, 1));
  }

  lemma WrapAround(top: int, z: int, r: int)
    requires Cong(Pow(z, 128), -1)
    ensures Cong(-top + z * (r - Pow(z, 127) * top), z * r)
  {
    hide Pow, Mod;
    PowStep(z, 127);
    var q := Pow(z, 127);
    assert z * (r - q * top) == z * r - (z * q) * top;
    CongScale(z * q, -1, top);
    CongAdd(z * r - top, z * r - top, (z * q) * top, -1 * top);
  }

  lemma PowStep(z: int, e: nat)
    ensures Pow(z, e + 1) == z * Pow(z, e)
  {
  }

  /** Both residues of the product of g with a tail of f. */
  lemma {:induction false} TailResidues(f: Poly, g: Poly, z: int, from: nat)
    requires from <= 256 && Cong(Pow(z, 128), -1)
    ensures var t, f0, f1 := Tail(f, g, from), Residue(f, 2, z, from), Residue(f, 2, z, from + 1);
            var g0, g1 := Residue(g, 2, z, 0), Residue(g, 2, z, 1);
            Cong(Residue(t, 2, z, 0), f0 * g0 + z * (f1 * g1)) && Cong(Residue(t, 2, z, 1), f0 * g1 + f1 * g0)
    decreases 256 - from
  {
    hide Pow, Mod;
    if from == 256 {
      ResidueZero(Tail(f, g, 256), z, 0);
      ResidueZero(Tail(f, g, 256), z, 1);
    } else {
      TailResidues(f, g, z, from + 1);
      TailStep(f, g, z, from);
    }
  }

  lemma TailStep(f: Poly, g: Poly, z: int, from: nat)
    requires from < 256 && Cong(Pow(z, 128), -1)
    requires var t, f0, f1 := Tail(f, g, from + 1), Residue(f, 2, z, from + 1), Residue(f, 2, z, from + 2);
             var g0, g1 := Residue(g, 2, z, 0), Residue(g, 2, z, 1);
             Cong(Residue(t, 2, z, 0), f0 * g0 + z * (f1 * g1)) && Cong(Residue(t, 2, z, 1), f0 * g1 + f1 * g0)
    ensures var t, f0, f1 := Tail(f, g, from), Residue(f, 2, z, from), Residue(f, 2, z, from + 1);
            var g0, g1 := Residue(g, 2, z, 0), Residue(g, 2, z, 1);
            Cong(Residue(t, 2, z, 0), f0 * g0 + z * (f1 * g1)) && Cong(Residue(t, 2, z, 1), f0 * g1 + f1 * g0)
  {
    hide Pow, Mod, Tail, TimesX, Residue;
    var t, t' := Tail(f, g, from), Tail(f, g, from + 1);
    var f1, f2 := Residue(f, 2, z, from + 1), Residue(f, 2, z, from + 2);
    ResidueStep(f, z, from);
    forall k | 0 <= k < 256
      ensures t[k] == f[from] * g[k] + TimesX(t')[k]
    {
      TailHorner(f, g, from, k);
    }
    ResidueLinear(t, f[from], g, TimesX(t'), z, 0);
    ResidueLinear(t, f[from], g, TimesX(t'), z, 1);
    ResiduesTimesX(t', z);
    PairHorner(f[from], f1, f2, Residue(g, 2, z, 0), Residue(g, 2, z, 1), z,
               Residue(t', 2, z, 0), Residue(t', 2, z, 1), Residue(TimesX(t'), 2, z, 0));
  }

  lemma ResidueStep(f: Poly, z: int, i: nat)
    requires i < 256
    ensures Residue(f, 2, z, i) == f[i] + z * Residue(f, 2, z, i + 2)
  {
  }

  lemma PairHorner(a: int, f1: int, f2: int, g0: int, g1: int, z: int, t0: int, t1: int, x0: int)
    requires Cong(t0, f1 * g0 + z * (f2 * g1)) && Cong(t1, f1 * g1 + f2 * g0) && Cong(x0, z * t1)
    ensures Cong(a * g0 + x0, (a + z * f2) * g0 + z * (f1 * g1))
    ensures Cong(a * g1 + t0, (a + z * f2) * g1 + f1 * g0)
  {
    hide Mod;
    CongScale(t1, f1 * g1 + f2 * g0, z);
    CongAdd(a * g0, a * g0, x0, z * (f1 * g1 + f2 * g0));
    assert a * g0 + z * (f1 * g1 + f2 * g0) == (a + z * f2) * g0 + z * (f1 * g1);
    CongAdd(a * g1, a * g1, t0, f1 * g0 + z * (f2 * g1));
    assert a * g1 + (f1 * g0 + z * (f2 * g1)) == (a + z * f2) * g1 + f1 * g0;
  }

  /** Both residues of a schoolbook product, from those of its factors. */
  lemma PolyMulResidues(f: Poly, g: Poly, z: int)
    requires Cong(Pow(z, 128), -1)
    ensures var f0, f1 := Residue(f, 2, z, 0), Residue(f, 2, z, 1);
            var g0, g1 := Residue(g, 2, z, 0), Residue(g, 2, z, 1);
            Cong(Residue(PolyMul(f, g), 2, z, 0), f0 * g0 + z * (f1 * g1)) &&
            Cong(Residue(PolyMul(f, g), 2, z, 1), f0 * g1 + f1 * g0)
  {
    hide Pow, Mod, Residue;
    TailResidues(f, g, z, 0);
    forall k | 0 <= k < 256
      ensures Cong(PolyMul(f, g)[k], Tail(f, g, 0)[k])
    {
      CongMod(Convolve(f, g, k, 0, 0));
    }
    ResidueOfCong(PolyMul(f, g), Tail(f, g, 0), z, 0);
    ResidueOfCong(PolyMul(f, g), Tail(f, g, 0), z, 1);
  }

  lemma {:induction false} ResidueOfCong(u: seq<int>, v: seq<int>, z: int, i: nat)
    requires |u| == |v| && forall k :: 0 <= k < |u| ==> Cong(u[k], v[k])
    ensures Cong(Residue(u, 2, z, i), Residue(v, 2, z, i))
    decreases |u| - i
  {
    hide Mod;
    if i < |u| {
      ResidueOfCong(u, v, z, i + 2);
      CongScale(Residue(u, 2, z, i + 2), Residue(v, 2, z, i + 2), z);
      CongAdd(u[i], v[i], z * Residue(u, 2, z, i + 2), z * Residue(v, 2, z, i + 2));
    }
  }

  // ----- the convolution theorem ---------------------------------------------------------------

  lemma BaseMulCong(f0: zq, f1: zq, g0: zq, g1: zq, z: zq, a0: int, a1: int, b0: int, b1: int)
    requires Cong(f0, a0) && Cong(f1, a1) && Cong(g0, b0) && Cong(g1, b1)
    ensures Cong(BaseMul0(f0, f1, g0, g1, z), a0 * b0 + z * (a1 * b1))
    ensures Cong(BaseMul1(f0, f1, g0, g1), a0 * b1 + a1 * b0)
  {
    hide Mod;
    CongMul(f0, a0, g0, b0);
    CongMul(f1, a1, g1, b1);
    CongMul(f0, a0, g1, b1);
    CongMul(f1, a1, g0, b0);
    CongScale(f1 * g1, a1 * b1, z);
    CongAdd(f0 * g0, a0 * b0, z * (f1 * g1), z * (a1 * b1));
    CongAdd(f0 * g1, a0 * b1, f1 * g0, a1 * b0);
    CongMod(f0 * g0 + z * (f1 * g1));
    CongMod(f0 * g1 + f1 * g0);
  }

  lemma TransformOfProductAt(f: Poly, g: Poly, i: nat)
    requires i < 128
    ensures NttOf(PolyMul(f, g))[2 * i] == PairMul(NttOf(f), NttOf(g))[2 * i]
    ensures NttOf(PolyMul(f, g))[2 * i + 1] == PairMul(NttOf(f), NttOf(g))[2 * i + 1]
  {
    hide Mod, Pow, Residue, NttOf, PolyMul, PolyMulZeta, BaseMul0, BaseMul1;
    var z, h := PolyMulZeta(i), PolyMul(f, g);
    var a, b := NttOf(f), NttOf(g);
    PolyMulZetaTurns(i);
    PolyMulResidues(f, g, z);
    NttPair(f, i, 0);
    NttPair(f, i, 1);
    NttPair(g, i, 0);
    NttPair(g, i, 1);
    NttPair(h, i, 0);
    NttPair(h, i, 1);
    BaseMulCong(a[2 * i], a[2 * i + 1], b[2 * i], b[2 * i + 1], z,
                Residue(f, 2, z, 0), Residue(f, 2, z, 1), Residue(g, 2, z, 0), Residue(g, 2, z, 1));
    assert (2 * i) / 2 * 2 == 2 * i && (2 * i + 1) / 2 * 2 == 2 * i;
    ModCanonical(NttOf(h)[2 * i]);
    ModCanonical(NttOf(h)[2 * i + 1]);
    ModCanonical(PairMulAt(a, b, 2 * i));
    ModCanonical(PairMulAt(a, b, 2 * i + 1));
  }

  /** The transform of a schoolbook product is the pairwise product of the transforms. */
  lemma TransformOfProduct(f: Poly, g: Poly)
    ensures NttOf(PolyMul(f, g)) == PairMul(NttOf(f), NttOf(g))
  {
    hide NttOf, PolyMul, PairMul;
    forall k | 0 <= k < 256
      ensures NttOf(PolyMul(f, g))[k] == PairMul(NttOf(f), NttOf(g))[k]
    {
      TransformOfProductAt(f, g, k / 2);
      assert k == 2 * (k / 2) || k == 2 * (k / 2) + 1;
    }
  }

  /** Multiplying through the transform is multiplication modulo X^256 + 1. */
  lemma ProductThroughTransform(f: Poly, g: Poly)
    ensures InttOf(PairMul(NttOf(f), NttOf(g))) == PolyMul(f, g)
  {
    hide NttOf, InttOf, PolyMul, PairMul;
    TransformOfProduct(f, g);
    InttOfNtt(PolyMul(f, g));
  }
}
