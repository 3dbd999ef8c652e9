/** Each transform of ML-KEM undoes the other, layer by layer. */
module TransformInverse {
  import opened Bits
  import opened Roots
  import opened Zq
  import opened Transform

  // ----- one butterfly ----------------------------------------------------------------

  lemma ForwardThenBack(x: int, y: int, z: int, z': int)
    requires Cong(z * z', 1)
    ensures Mod(Mod(x + z * y) as int + Mod(x - z * y)) == Mod(2 * x)
    ensures Mod(z' * (Mod(x + z * y) as int - Mod(x - z * y))) == Mod(2 * y)
  {
    hide Mod;
    var p, m := x + z * y, x - z * y;
    CongMod(p);
    CongMod(m);
    CongAdd(Mod(p), p, Mod(m), m);
    CongScale(Mod(p) as int - Mod(m), p - m, z');
    assert z' * (p - m) == (z * z') * (2 * y);
    CongScale(z * z', 1, 2 * y);
  }

  lemma BackThenForward(x: int, y: int, z: int, z': int)
    requires Cong(z * z', 1)
    ensures Mod(Mod(x + y) as int + z * Mod(z' * (x - y))) == Mod(2 * x)
    ensures Mod(Mod(x + y) as int - z * Mod(z' * (x - y))) == Mod(2 * y)
  {
    hide Mod;
    var d := z' * (x - y);
    CongMod(x + y);
    CongMod(d);
    CongScale(Mod(d), d, z);
    assert z * d == (z * z') * (x - y);
    CongScale(z * z', 1, x - y);
    CongAdd(Mod(x + y), x + y, z * Mod(d), x - y);
  }

  // ----- one layer ---------------------------------------------------------------------

  lemma Factors(l: nat, i: nat)
    requires 1 <= l <= 7 && i < 256
    ensures Cong(NttZeta(NttIndex(l, i)) * InttZeta(InttIndex(l, i)), 1)
  {
    hide NttZeta, InttZeta, Mod, Cong, Pow2, Len, BlockOf;
    InverseZeta(7 - l, BlockOf(l, i));
  }

  lemma SameIndex(l: nat, i: nat, j: nat)
    requires 1 <= l <= 7 && i < 256 && j < 256 && i / (2 * Len(l)) == j / (2 * Len(l))
    ensures NttIndex(l, i) == NttIndex(l, j) && InttIndex(l, i) == InttIndex(l, j)
  {
  }

  lemma InttLayerUndoes(l: nat, a: Poly, i: nat)
    requires 1 <= l <= 7 && i < 256
    ensures InttAt(l, NttLayer(l, a), i) == Scale(2, a)[i]
  {
    hide NttIndex, InttIndex, Mod, Cong, Len, Upper, NttZeta, InttZeta;
    var len := Len(l);
    Partner(i, len);
    Factors(l, i);
    var z, z' := NttZeta(NttIndex(l, i)), InttZeta(InttIndex(l, i));
    if Upper(i, len) {
      SameIndex(l, i, i - len);
      ForwardThenBack(a[i - len], a[i], z, z');
    } else {
      SameIndex(l, i, i + len);
      ForwardThenBack(a[i], a[i + len], z, z');
    }
  }

  lemma NttLayerUndoes(l: nat, a: Poly, i: nat)
    requires 1 <= l <= 7 && i < 256
    ensures NttAt(l, InttLayer(l, a), i) == Scale(2, a)[i]
  {
    hide NttIndex, InttIndex, Mod, Cong, Len, Upper, NttZeta, InttZeta;
    var len := Len(l);
    Partner(i, len);
    Factors(l, i);
    var z, z' := NttZeta(NttIndex(l, i)), InttZeta(InttIndex(l, i));
    if Upper(i, len) {
      SameIndex(l, i, i - len);
      BackThenForward(a[i - len], a[i], z, z');
    } else {
      SameIndex(l, i, i + len);
      BackThenForward(a[i], a[i + len], z, z');
    }
  }

  // ----- scaling -------------------------------------------------------------------------

  lemma ScaleScale(c: int, d: int, f: Poly)
    ensures Scale(c, Scale(d, f)) == Scale(c * d, f)
  {
    hide Mod;
    forall i | 0 <= i < 256
      ensures Scale(c, Scale(d, f))[i] == Scale(c * d, f)[i]
    {
      CongMod(d * f[i]);
      CongScale(Mod(d * f[i]), d * f[i], c);
      assert c * (d * f[i]) == c * d * f[i];
    }
  }

  lemma ScaleOne(c: int, f: Poly)
    requires Cong(c, 1)
    ensures Scale(c, f) == f
  {
    hide Mod;
    forall i | 0 <= i < 256
      ensures Scale(c, f)[i] == f[i]
    {
      CongScale(c, 1, f[i]);
      ModCanonical(f[i]);
    }
  }

  lemma ScaledButterfly(c: int, x: int, y: int, z: int)
    ensures Mod(Mod(c * x) as int + z * Mod(c * y)) == Mod(c * Mod(x + z * y))
    ensures Mod(Mod(c * x) as int - z * Mod(c * y)) == Mod(c * Mod(x - z * y))
    ensures Mod(Mod(c * x) as int + Mod(c * y)) == Mod(c * Mod(x + y))
    ensures Mod(z * (Mod(c * x) as int - Mod(c * y))) == Mod(c * Mod(z * (x - y)))
  {
    hide Mod;
    CongMod(c * x);
    CongMod(c * y);
    CongScale(Mod(c * y), c * y, z);
    CongAdd(Mod(c * x), c * x, z * Mod(c * y), z * (c * y));
    CongAdd(Mod(c * x), c * x, Mod(c * y), c * y);
    CongScale(Mod(c * x) as int - Mod(c * y), c * x - c * y, z);
    ScaleBack(c, x + z * y, c * x + z * (c * y));
    ScaleBack(c, x - z * y, c * x - z * (c * y));
    ScaleBack(c, x + y, c * x + c * y);
    ScaleBack(c, z * (x - y), z * (c * x - c * y));
  }

  lemma ScaleBack(c: int, v: int, w: int)
    requires c * v == w
    ensures Mod(c * Mod(v)) == Mod(w)
  {
    CongMod(v);
    CongScale(Mod(v), v, c);
  }

  lemma ScaleLayers(l: nat, c: int, a: Poly)
    requires 1 <= l <= 7
    ensures NttLayer(l, Scale(c, a)) == Scale(c, NttLayer(l, a))
    ensures InttLayer(l, Scale(c, a)) == Scale(c, InttLayer(l, a))
  {
    hide NttIndex, InttIndex, Mod, Len, Upper, NttZeta, InttZeta;
    forall i | 0 <= i < 256
      ensures NttAt(l, Scale(c, a), i) == Scale(c, NttLayer(l, a))[i]
      ensures InttAt(l, Scale(c, a), i) == Scale(c, InttLayer(l, a))[i]
    {
      var len := Len(l);
      Partner(i, len);
      var z, z' := NttZeta(NttIndex(l, i)), InttZeta(InttIndex(l, i));
      if Upper(i, len) {
        ScaledButterfly(c, a[i - len], a[i], z);
        ScaledButterfly(c, a[i - len], a[i], z');
      } else {
        ScaledButterfly(c, a[i], a[i + len], z);
      }
    }
  }

  // ----- the whole transforms ------------------------------------------------------------

  /** After l inverse layers the forward state before layer l is back, times 2^l. */
  lemma {:induction false} InttClimbs(f: Poly, l: nat)
    requires l <= 7
    ensures InttUp(NttOf(f), l) == Scale(Pow2(l), NttDown(f, l + 1))
  {
    hide NttLayer, InttLayer, Scale;
    if l == 0 {
      ScaleOne(1, NttOf(f));
    } else {
      InttClimbs(f, l - 1);
      var below, above := NttDown(f, l), NttDown(f, l + 1);
      ScaleLayers(l, Pow2(l - 1), below);
      InttOfNttLayer(l, above);
      ScaleScale(Pow2(l - 1), 2, above);
    }
  }

  lemma InttOfNttLayer(l: nat, a: Poly)
    requires 1 <= l <= 7
    ensures InttLayer(l, NttLayer(l, a)) == Scale(2, a)
  {
    hide NttAt, InttAt;
    forall i | 0 <= i < 256
      ensures InttLayer(l, NttLayer(l, a))[i] == Scale(2, a)[i]
    {
      InttLayerUndoes(l, a, i);
    }
  }

  lemma NttOfInttLayer(l: nat, a: Poly)
    requires 1 <= l <= 7
    ensures NttLayer(l, InttLayer(l, a)) == Scale(2, a)
  {
    hide NttAt, InttAt;
    forall i | 0 <= i < 256
      ensures NttLayer(l, InttLayer(l, a))[i] == Scale(2, a)[i]
    {
      NttLayerUndoes(l, a, i);
    }
  }

  /** Forward layers 7 down to l leave the inverse state after l - 1 layers, times 2^(8-l). */
  lemma {:induction false} NttDescends(g: Poly, c: int, l: nat)
    requires 1 <= l <= 8
    ensures NttDown(Scale(c, InttUp(g, 7)), l) == Scale(c * Pow2(8 - l), InttUp(g, l - 1))
    decreases 8 - l
  {
    hide NttLayer, InttLayer, Scale;
    if l < 8 {
      NttDescends(g, c, l + 1);
      var d := c * Pow2(7 - l);
      var above, below := InttUp(g, l), InttUp(g, l - 1);
      ScaleLayers(l, d, above);
      NttOfInttLayer(l, below);
      ScaleScale(d, 2, below);
      assert d * 2 == c * Pow2(8 - l);
    } else {
      assert c * Pow2(0) == c;
    }
  }

  /** The inverse transform undoes the forward transform on every polynomial. */
  lemma InttOfNtt(f: Poly)
    ensures InttOf(NttOf(f)) == f
  {
    hide NttLayer, InttLayer, Scale;
    InttClimbs(f, 7);
    Pow2Values();
    ScaleScale(INV_N, 128, f);
    ScaleOne(INV_N * 128, f);
  }

  /** The forward transform undoes the inverse transform on every polynomial. */
  lemma NttOfIntt(g: Poly)
    ensures NttOf(InttOf(g)) == g
  {
    hide NttLayer, InttLayer, Scale;
    NttDescends(g, INV_N, 1);
    Pow2Values();
    ScaleOne(INV_N * 128, g);
  }
}
