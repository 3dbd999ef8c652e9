/** Vectors and matrices of polynomials in transformed form. */
module Vectors {
  import opened Zq
  import opened Transform
  import opened TransformInverse
  import opened TransformRing
  import opened PolyRing

  function Dot(u: seq<Poly>, v: seq<Poly>): Poly
    requires |u| == |v|
  {
    if |u| == 0 then Zero()
    else PolyAdd(Dot(u[..|u| - 1], v[..|u| - 1]), PairMul(u[|u| - 1], v[|u| - 1]))
  }

  function NttVec(v: seq<Poly>): (w: seq<Poly>)
    ensures |w| == |v|
  {
    seq(|v|, i requires 0 <= i < |v| => NttOf(v[i]))
  }

  function InttVec(v: seq<Poly>): (w: seq<Poly>)
    ensures |w| == |v|
  {
    seq(|v|, i requires 0 <= i < |v| => InttOf(v[i]))
  }

  function VecAdd(u: seq<Poly>, v: seq<Poly>): (w: seq<Poly>)
    requires |u| == |v|
    ensures |w| == |v|
  {
    seq(|u|, i requires 0 <= i < |u| => PolyAdd(u[i], v[i]))
  }

  function VecSub(u: seq<Poly>, v: seq<Poly>): (w: seq<Poly>)
    requires |u| == |v|
    ensures |w| == |v|
  {
    seq(|u|, i requires 0 <= i < |u| => PolySub(u[i], v[i]))
  }

  predicate IsMatrix(a: seq<seq<Poly>>, cols: nat) {
    forall i :: 0 <= i < |a| ==> |a[i]| == cols
  }

  function MatVec(a: seq<seq<Poly>>, v: seq<Poly>): (w: seq<Poly>)
    requires IsMatrix(a, |v|)
    ensures |w| == |a|
  {
    seq(|a|, i requires 0 <= i < |a| => Dot(a[i], v))
  }

  function Column(a: seq<seq<Poly>>, cols: nat, j: nat): (c: seq<Poly>)
    requires IsMatrix(a, cols) && j < cols
    ensures |c| == |a|
  {
    seq(|a|, i requires 0 <= i < |a| => a[i][j])
  }

  function Transpose(a: seq<seq<Poly>>, cols: nat): (b: seq<seq<Poly>>)
    requires IsMatrix(a, cols)
    ensures |b| == cols && IsMatrix(b, |a|)
  {
    seq(cols, j requires 0 <= j < cols => Column(a, cols, j))
  }

  // ----- laws of the dot product -----------------------------------------------------------------

  lemma {:induction false} DotCommutes(u: seq<Poly>, v: seq<Poly>)
    requires |u| == |v|
    ensures Dot(u, v) == Dot(v, u)
  {
    hide PairMul, PolyAdd;
    if |u| > 0 {
      var n := |u| - 1;
      DotCommutes(u[..n], v[..n]);
      MulCommutes(u[n], v[n]);
    }
  }

  lemma {:induction false} DotAdds(u: seq<Poly>, v: seq<Poly>, w: seq<Poly>)
    requires |u| == |v| == |w|
    ensures Dot(u, VecAdd(v, w)) == PolyAdd(Dot(u, v), Dot(u, w))
  {
    hide PairMul, PolyAdd;
    if |u| > 0 {
      var n := |u| - 1;
      DotAdds(u[..n], v[..n], w[..n]);
      assert VecAdd(v, w)[..n] == VecAdd(v[..n], w[..n]);
      MulDistributes(u[n], v[n], w[n]);
      AddExchange(Dot(u[..n], v[..n]), Dot(u[..n], w[..n]), PairMul(u[n], v[n]), PairMul(u[n], w[n]));
    } else {
      AddZero(Zero());
    }
  }

  function MulEach(v: seq<Poly>, x: Poly): (w: seq<Poly>)
    ensures |w| == |v|
  {
    seq(|v|, i requires 0 <= i < |v| => PairMul(v[i], x))
  }

  lemma {:induction false} DotScales(u: seq<Poly>, v: seq<Poly>, x: Poly)
    requires |u| == |v|
    ensures Dot(u, MulEach(v, x)) == PairMul(Dot(u, v), x)
  {
    hide PairMul, PolyAdd;
    if |u| > 0 {
      var n := |u| - 1;
      var d, p := Dot(u[..n], v[..n]), PairMul(u[n], v[n]);
      DotScales(u[..n], v[..n], x);
      assert MulEach(v, x)[..n] == MulEach(v[..n], x);
      MulAssociates(u[n], v[n], x);
      MulCommutes(PolyAdd(d, p), x);
      MulDistributes(x, d, p);
      MulCommutes(x, d);
      MulCommutes(x, p);
    } else {
      MulCommutes(Zero(), x);
      MulZero(x);
    }
  }

  /** (A s) . r == s . (A^T r): the exchange of sums that decryption rests on. */
  lemma {:induction false} TransposeMoves(a: seq<seq<Poly>>, s: seq<Poly>, r: seq<Poly>)
    requires IsMatrix(a, |s|) && |a| == |r|
    ensures Dot(MatVec(a, s), r) == Dot(s, MatVec(Transpose(a, |s|), r))
  {
    hide PairMul, PolyAdd;
    var n, k := |s|, |a|;
    if k == 0 {
      ColumnsOfNothing(a, s, r);
    } else {
      var a', x := a[..k - 1], r[k - 1];
      TransposeMoves(a', s, r[..k - 1]);
      assert MatVec(a, s)[..k - 1] == MatVec(a', s);
      DotCommutes(a[k - 1], s);
      DotScales(s, a[k - 1], x);
      forall j | 0 <= j < n
        ensures MatVec(Transpose(a, n), r)[j] == VecAdd(MatVec(Transpose(a', n), r[..k - 1]), MulEach(a[k - 1], x))[j]
      {
        assert Column(a, n, j)[..k - 1] == Column(a', n, j);
      }
      assert MatVec(Transpose(a, n), r) == VecAdd(MatVec(Transpose(a', n), r[..k - 1]), MulEach(a[k - 1], x));
      DotAdds(s, MatVec(Transpose(a', n), r[..k - 1]), MulEach(a[k - 1], x));
    }
  }

  lemma {:induction false} DotZeros(u: seq<Poly>, v: seq<Poly>)
    requires |u| == |v| && forall i :: 0 <= i < |v| ==> v[i] == Zero()
    ensures Dot(u, v) == Zero()
  {
    hide PairMul, PolyAdd;
    if |u| > 0 {
      var n := |u| - 1;
      DotZeros(u[..n], v[..n]);
      MulZero(u[n]);
      AddZero(Zero());
    }
  }

  lemma ColumnsOfNothing(a: seq<seq<Poly>>, s: seq<Poly>, r: seq<Poly>)
    requires |a| == |r| == 0 && IsMatrix(a, |s|)
    ensures Dot(MatVec(a, s), r) == Dot(s, MatVec(Transpose(a, |s|), r))
  {
    DotZeros(s, MatVec(Transpose(a, |s|), r));
  }

  // ----- back to the schoolbook ring ----------------------------------------------------------------

  /** The sum of the schoolbook products u_i v_i modulo X^256 + 1. */
  function SumOfProducts(u: seq<Poly>, v: seq<Poly>): Poly
    requires |u| == |v|
  {
    if |u| == 0 then Zero()
    else PolyAdd(SumOfProducts(u[..|u| - 1], v[..|u| - 1]), PolyMul(u[|u| - 1], v[|u| - 1]))
  }

  lemma InttZero()
    ensures InttOf(Zero()) == Zero()
  {
    hide InttUp;
    InttAdds(Zero(), Zero());
    AddZero(Zero());
    var z := InttOf(Zero());
    assert PolyAdd(z, z) == z;
    SubThenAdd(z, z);
    forall i | 0 <= i < 256
      ensures z[i] == 0
    {
      assert PolyAdd(z, z)[i] == Mod(z[i] as int + z[i]);
    }
  }

  /** A dot product of transformed vectors transforms back to the sum of schoolbook products. */
  lemma {:induction false} DotThroughTransform(u: seq<Poly>, v: seq<Poly>)
    requires |u| == |v|
    ensures InttOf(Dot(NttVec(u), NttVec(v))) == SumOfProducts(u, v)
  {
    hide PairMul, PolyAdd, NttOf, InttOf, PolyMul;
    if |u| == 0 {
      InttZero();
    } else {
      var n := |u| - 1;
      DotThroughTransform(u[..n], v[..n]);
      assert NttVec(u)[..n] == NttVec(u[..n]) && NttVec(v)[..n] == NttVec(v[..n]);
      ProductThroughTransform(u[n], v[n]);
      InttAdds(Dot(NttVec(u[..n]), NttVec(v[..n])), PairMul(NttOf(u[n]), NttOf(v[n])));
    }
  }

  lemma NttVecOfIntt(v: seq<Poly>)
    ensures NttVec(InttVec(v)) == v
  {
    hide NttOf, InttOf;
    forall i | 0 <= i < |v|
      ensures NttVec(InttVec(v))[i] == v[i]
    {
      NttOfIntt(v[i]);
    }
  }

  lemma NttVecAdds(u: seq<Poly>, v: seq<Poly>)
    requires |u| == |v|
    ensures NttVec(VecAdd(u, v)) == VecAdd(NttVec(u), NttVec(v))
  {
    hide NttOf, PolyAdd;
    forall i | 0 <= i < |v|
      ensures NttVec(VecAdd(u, v))[i] == VecAdd(NttVec(u), NttVec(v))[i]
    {
      NttAdds(u[i], v[i]);
    }
  }
}
