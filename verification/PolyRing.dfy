/** Polynomials as an additive group, the pairwise product as a ring product, and the transforms as homomorphisms. */
module PolyRing {
  import opened Roots
  import opened Zq
  import opened Transform
  import opened TransformInverse
  import opened TransformRing

  function Zero(): Poly {
    seq(256, i requires 0 <= i < 256 => 0)
  }

  function PolyAdd(f: Poly, g: Poly): Poly {
    seq(256, i requires 0 <= i < 256 => Mod(f[i] as int + g[i]))
  }

  function PolySub(f: Poly, g: Poly): Poly {
    seq(256, i requires 0 <= i < 256 => Mod(f[i] as int - g[i]))
  }

  // ----- the group ---------------------------------------------------------------------------

  /** Two polynomials are equal when their coefficients are congruent. */
  lemma PolyEqual(f: Poly, g: Poly)
    requires forall i :: 0 <= i < 256 ==> Cong(f[i], g[i])
    ensures f == g
  {
    hide Mod;
    forall i | 0 <= i < 256
      ensures f[i] == g[i]
    {
      ModCanonical(f[i]);
      ModCanonical(g[i]);
    }
  }

  lemma AddAt(f: Poly, g: Poly, i: nat)
    requires i < 256
    ensures Cong(PolyAdd(f, g)[i], f[i] as int + g[i]) && Cong(PolySub(f, g)[i], f[i] as int - g[i])
  {
    hide Mod;
    CongMod(f[i] as int + g[i]);
    CongMod(f[i] as int - g[i]);
  }

  lemma AddZero(f: Poly)
    ensures PolyAdd(f, Zero()) == f == PolyAdd(Zero(), f)
  {
    hide Mod;
    forall i | 0 <= i < 256
      ensures PolyAdd(f, Zero())[i] == f[i] == PolyAdd(Zero(), f)[i]
    {
      ModCanonical(f[i]);
    }
  }

  lemma AddCommutes(f: Poly, g: Poly)
    ensures PolyAdd(f, g) == PolyAdd(g, f)
  {
  }

  lemma AddAssociates(f: Poly, g: Poly, h: Poly)
    ensures PolyAdd(PolyAdd(f, g), h) == PolyAdd(f, PolyAdd(g, h))
  {
    hide Mod, PolyAdd, PolySub;
    forall i | 0 <= i < 256
      ensures Cong(PolyAdd(PolyAdd(f, g), h)[i], PolyAdd(f, PolyAdd(g, h))[i])
    {
      AddAt(f, g, i);
      AddAt(g, h, i);
      AddAt(PolyAdd(f, g), h, i);
      AddAt(f, PolyAdd(g, h), i);
      CongAdd(PolyAdd(f, g)[i], f[i] as int + g[i], h[i], h[i]);
      CongAdd(f[i], f[i], PolyAdd(g, h)[i], g[i] as int + h[i]);
    }
    PolyEqual(PolyAdd(PolyAdd(f, g), h), PolyAdd(f, PolyAdd(g, h)));
  }

  /** (a + b) + (c + d) == (a + c) + (b + d). */
  lemma AddExchange(a: Poly, b: Poly, c: Poly, d: Poly)
    ensures PolyAdd(PolyAdd(a, b), PolyAdd(c, d)) == PolyAdd(PolyAdd(a, c), PolyAdd(b, d))
  {
    hide PolyAdd;
    AddAssociates(a, b, PolyAdd(c, d));
    AddAssociates(b, c, d);
    AddCommutes(b, c);
    AddAssociates(c, b, d);
    AddAssociates(a, c, PolyAdd(b, d));
  }

  /** Adding back what was subtracted. */
  lemma SubThenAdd(f: Poly, g: Poly)
    ensures PolyAdd(g, PolySub(f, g)) == f
  {
    hide Mod, PolyAdd, PolySub;
    forall i | 0 <= i < 256
      ensures Cong(PolyAdd(g, PolySub(f, g))[i], f[i])
    {
      AddAt(f, g, i);
      AddAt(g, PolySub(f, g), i);
      CongAdd(g[i], g[i], PolySub(f, g)[i], f[i] as int - g[i]);
    }
    PolyEqual(PolyAdd(g, PolySub(f, g)), f);
  }

  // ----- the pairwise product -------------------------------------------------------------------

  /** Coefficient 2p of a product, then coefficient 2p + 1, before reduction. */
  function Product0(f: seq<int>, g: seq<int>, p: nat): int
    requires |f| == |g| == 256 && p < 128
  {
    f[2 * p] * g[2 * p] + PolyMulZeta(p) * (f[2 * p + 1] * g[2 * p + 1])
  }

  function Product1(f: seq<int>, g: seq<int>, p: nat): int
    requires |f| == |g| == 256 && p < 128
  {
    f[2 * p] * g[2 * p + 1] + f[2 * p + 1] * g[2 * p]
  }

  lemma PairMulPair(f: Poly, g: Poly, p: nat)
    requires p < 128
    ensures Cong(PairMul(f, g)[2 * p], Product0(f, g, p)) && Cong(PairMul(f, g)[2 * p + 1], Product1(f, g, p))
  {
    hide Mod, PolyMulZeta;
    assert (2 * p) / 2 * 2 == 2 * p && (2 * p + 1) / 2 * 2 == 2 * p;
    CongMod(Product0(f, g, p));
    CongMod(Product1(f, g, p));
  }

  /** Equality of polynomials, one pair of coefficients at a time. */
  lemma PairsEqual(f: Poly, g: Poly)
    requires forall p :: 0 <= p < 128 ==> SamePair(f, g, p)
    ensures f == g
  {
    forall i | 0 <= i < 256
      ensures Cong(f[i], g[i])
    {
      assert SamePair(f, g, i / 2);
      assert i == 2 * (i / 2) || i == 2 * (i / 2) + 1;
    }
    PolyEqual(f, g);
  }

  predicate SamePair(f: Poly, g: Poly, p: nat)
    requires p < 128
  {
    Cong(f[2 * p], g[2 * p]) && Cong(f[2 * p + 1], g[2 * p + 1])
  }

  lemma MulCommutes(f: Poly, g: Poly)
    ensures PairMul(f, g) == PairMul(g, f)
  {
    hide Mod, PolyMulZeta, PairMul;
    forall p | 0 <= p < 128
      ensures SamePair(PairMul(f, g), PairMul(g, f), p)
    {
      PairMulPair(f, g, p);
      PairMulPair(g, f, p);
      assert Product0(f, g, p) == Product0(g, f, p) && Product1(f, g, p) == Product1(g, f, p);
    }
    PairsEqual(PairMul(f, g), PairMul(g, f));
  }

  lemma MulDistributes(f: Poly, g: Poly, h: Poly)
    ensures PairMul(f, PolyAdd(g, h)) == PolyAdd(PairMul(f, g), PairMul(f, h))
  {
    hide Mod, PolyMulZeta, PairMul, PolyAdd, PolySub;
    var l, r := PairMul(f, PolyAdd(g, h)), PolyAdd(PairMul(f, g), PairMul(f, h));
    forall p | 0 <= p < 128
      ensures SamePair(l, r, p)
    {
      MulDistributesAt(f, g, h, p);
    }
    PairsEqual(l, r);
  }

  lemma MulDistributesAt(f: Poly, g: Poly, h: Poly, p: nat)
    requires p < 128
    ensures SamePair(PairMul(f, PolyAdd(g, h)), PolyAdd(PairMul(f, g), PairMul(f, h)), p)
  {
    hide Mod, PolyMulZeta, PairMul, PolyAdd, PolySub;
    var s := PolyAdd(g, h);
    PairMulPair(f, s, p);
    PairMulPair(f, g, p);
    PairMulPair(f, h, p);
    AddAt(g, h, 2 * p);
    AddAt(g, h, 2 * p + 1);
    AddAt(PairMul(f, g), PairMul(f, h), 2 * p);
    AddAt(PairMul(f, g), PairMul(f, h), 2 * p + 1);
    CongAdd(PairMul(f, g)[2 * p], Product0(f, g, p), PairMul(f, h)[2 * p], Product0(f, h, p));
    CongAdd(PairMul(f, g)[2 * p + 1], Product1(f, g, p), PairMul(f, h)[2 * p + 1], Product1(f, h, p));
    var s0: int, s1: int, g0: int, g1: int, h0: int, h1: int, f0: int, f1: int, z: int :=
      s[2 * p], s[2 * p + 1], g[2 * p], g[2 * p + 1], h[2 * p], h[2 * p + 1], f[2 * p], f[2 * p + 1], PolyMulZeta(p);
    ProductCong(f0, f1, s0, s1, f0, f1, g0 + h0, g1 + h1, z);
    assert f0 * (g0 + h0) + z * (f1 * (g1 + h1)) == (f0 * g0 + z * (f1 * g1)) + (f0 * h0 + z * (f1 * h1));
    assert f0 * (g1 + h1) + f1 * (g0 + h0) == (f0 * g1 + f1 * g0) + (f0 * h1 + f1 * h0);
  }

  lemma ProductCong(a0: int, a1: int, b0: int, b1: int, c0: int, c1: int, d0: int, d1: int, z: int)
    requires Cong(a0, c0) && Cong(a1, c1) && Cong(b0, d0) && Cong(b1, d1)
    ensures Cong(a0 * b0 + z * (a1 * b1), c0 * d0 + z * (c1 * d1))
    ensures Cong(a0 * b1 + a1 * b0, c0 * d1 + c1 * d0)
  {
    hide Mod;
    CongMul(a0, c0, b0, d0);
    CongMul(a1, c1, b1, d1);
    CongMul(a0, c0, b1, d1);
    CongMul(a1, c1, b0, d0);
    CongScale(a1 * b1, c1 * d1, z);
    CongAdd(a0 * b0, c0 * d0, z * (a1 * b1), z * (c1 * d1));
    CongAdd(a0 * b1, c0 * d1, a1 * b0, c1 * d0);
  }

  lemma MulAssociates(f: Poly, g: Poly, h: Poly)
    ensures PairMul(PairMul(f, g), h) == PairMul(f, PairMul(g, h))
  {
    hide Mod, PolyMulZeta, PairMul;
    var l, r := PairMul(PairMul(f, g), h), PairMul(f, PairMul(g, h));
    forall p | 0 <= p < 128
      ensures SamePair(l, r, p)
    {
      MulAssociatesAt(f, g, h, p);
    }
    PairsEqual(l, r);
  }

  lemma MulAssociatesAt(f: Poly, g: Poly, h: Poly, p: nat)
    requires p < 128
    ensures SamePair(PairMul(PairMul(f, g), h), PairMul(f, PairMul(g, h)), p)
  {
    hide Mod, PolyMulZeta, PairMul;
    var fg, gh := PairMul(f, g), PairMul(g, h);
    PairMulPair(f, g, p);
    PairMulPair(g, h, p);
    PairMulPair(fg, h, p);
    PairMulPair(f, gh, p);
    var f0: int, f1: int, g0: int, g1: int, h0: int, h1: int, z: int :=
      f[2 * p], f[2 * p + 1], g[2 * p], g[2 * p + 1], h[2 * p], h[2 * p + 1], PolyMulZeta(p);
    ProductCong(fg[2 * p], fg[2 * p + 1], h0, h1, f0 * g0 + z * (f1 * g1), f0 * g1 + f1 * g0, h0, h1, z);
    ProductCong(f0, f1, gh[2 * p], gh[2 * p + 1], f0, f1, g0 * h0 + z * (g1 * h1), g0 * h1 + g1 * h0, z);
    PairAssociates(f0, f1, g0, g1, h0, h1, z);
  }

  /** Multiplication modulo X^2 - z is associative over the integers. */
  lemma PairAssociates(f0: int, f1: int, g0: int, g1: int, h0: int, h1: int, z: int)
    ensures (f0 * g0 + z * (f1 * g1)) * h0 + z * ((f0 * g1 + f1 * g0) * h1) ==
            f0 * (g0 * h0 + z * (g1 * h1)) + z * (f1 * (g0 * h1 + g1 * h0))
    ensures (f0 * g0 + z * (f1 * g1)) * h1 + (f0 * g1 + f1 * g0) * h0 ==
            f0 * (g0 * h1 + g1 * h0) + f1 * (g0 * h0 + z * (g1 * h1))
  {
    Expand(f0, g0, h0, z, f1, g1);
    Expand(f0, g0, h1, z, f1, g1);
    Spread(f0, g0 * h0, z, g1 * h1);
    Spread(f1, g0 * h0, z, g1 * h1);
    Triple(f0, g0, h0, h1);
    Triple(f0, g1, h0, h1);
    Triple(f1, g0, h0, h1);
    Triple(f1, g1, h0, h1);
  }

  lemma Expand(a: int, b: int, c: int, z: int, d: int, e: int)
    ensures (a * b + z * (d * e)) * c == a * b * c + z * (d * e * c)
  {
  }

  lemma Spread(a: int, u: int, z: int, v: int)
    ensures a * (u + z * v) == a * u + z * (a * v)
  {
  }

  lemma Triple(a: int, b: int, c: int, d: int)
    ensures a * b * c == a * (b * c) && a * b * d == a * (b * d)
  {
  }

  lemma MulZero(f: Poly)
    ensures PairMul(f, Zero()) == Zero()
  {
    hide PolyMulZeta;
    forall i | 0 <= i < 256
      ensures PairMul(f, Zero())[i] == 0
    {
    }
  }

  // ----- the transforms are additive ----------------------------------------------------------------

  lemma ButterflyAdds(x: int, y: int, x': int, y': int, z: int)
    ensures Cong(Mod(x + x') as int + z * Mod(y + y'), Mod(x + z * y) as int + Mod(x' + z * y'))
    ensures Cong(Mod(x + x') as int - z * Mod(y + y'), Mod(x - z * y) as int + Mod(x' - z * y'))
  {
    hide Mod;
    CongMod(x + x');
    CongMod(y + y');
    CongScale(Mod(y + y'), y + y', z);
    CongAdd(Mod(x + x'), x + x', z * Mod(y + y'), z * (y + y'));
    CongMod(x + z * y);
    CongMod(x' + z * y');
    CongMod(x - z * y);
    CongMod(x' - z * y');
    CongAdd(Mod(x + z * y), x + z * y, Mod(x' + z * y'), x' + z * y');
    CongAdd(Mod(x - z * y), x - z * y, Mod(x' - z * y'), x' - z * y');
    assert x + x' + z * (y + y') == (x + z * y) + (x' + z * y');
    assert x + x' - z * (y + y') == (x - z * y) + (x' - z * y');
  }

  lemma SumAt(f: Poly, g: Poly, i: nat)
    requires i < 256
    ensures PolyAdd(f, g)[i] == Mod(f[i] as int + g[i])
  {
  }

  lemma ModTwice(x: int, y: int, z: int)
    ensures Cong(Mod(x + z * y), x + z * y) && Cong(Mod(x - z * y), x - z * y)
  {
    hide Mod;
    CongMod(x + z * y);
    CongMod(x - z * y);
  }

  lemma LayerAddsAt(l: nat, f: Poly, g: Poly, i: nat)
    requires 1 <= l <= 7 && i < 256
    ensures Cong(NttAt(l, PolyAdd(f, g), i), NttAt(l, f, i) as int + NttAt(l, g, i))
  {
    hide NttIndex, Mod, Len, Upper, NttZeta, PolyAdd;
    var len := Len(l);
    Partner(i, len);
    var z := NttZeta(NttIndex(l, i));
    SumAt(f, g, i);
    if Upper(i, len) {
      SumAt(f, g, i - len);
      ButterflyAdds(f[i - len], f[i], g[i - len], g[i], z);
      ModTwice(PolyAdd(f, g)[i - len], PolyAdd(f, g)[i], z);
    } else {
      SumAt(f, g, i + len);
      ButterflyAdds(f[i], f[i + len], g[i], g[i + len], z);
      ModTwice(PolyAdd(f, g)[i], PolyAdd(f, g)[i + len], z);
    }
  }

  lemma LayerAdds(l: nat, f: Poly, g: Poly)
    requires 1 <= l <= 7
    ensures NttLayer(l, PolyAdd(f, g)) == PolyAdd(NttLayer(l, f), NttLayer(l, g))
  {
    hide Mod, NttAt, PolyAdd;
    forall i | 0 <= i < 256
      ensures Cong(NttLayer(l, PolyAdd(f, g))[i], PolyAdd(NttLayer(l, f), NttLayer(l, g))[i])
    {
      LayerAddsAt(l, f, g, i);
      AddAt(NttLayer(l, f), NttLayer(l, g), i);
    }
    PolyEqual(NttLayer(l, PolyAdd(f, g)), PolyAdd(NttLayer(l, f), NttLayer(l, g)));
  }

  lemma {:induction false} DownAdds(f: Poly, g: Poly, l: nat)
    requires 1 <= l <= 8
    ensures NttDown(PolyAdd(f, g), l) == PolyAdd(NttDown(f, l), NttDown(g, l))
    decreases 8 - l
  {
    hide NttLayer, PolyAdd;
    if l < 8 {
      DownAdds(f, g, l + 1);
      LayerAdds(l, NttDown(f, l + 1), NttDown(g, l + 1));
    }
  }

  lemma NttAdds(f: Poly, g: Poly)
    ensures NttOf(PolyAdd(f, g)) == PolyAdd(NttOf(f), NttOf(g))
  {
    hide NttDown, PolyAdd;
    DownAdds(f, g, 1);
  }

  lemma InttAdds(f: Poly, g: Poly)
    ensures InttOf(PolyAdd(f, g)) == PolyAdd(InttOf(f), InttOf(g))
  {
    hide NttOf, InttOf, PolyAdd;
    NttAdds(InttOf(f), InttOf(g));
    NttOfIntt(f);
    NttOfIntt(g);
    InttOfNtt(PolyAdd(InttOf(f), InttOf(g)));
  }
}
