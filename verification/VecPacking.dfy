/** Serialising vectors of polynomials. */
module VecPacking {
  import opened Integers
  import opened Bits
  import opened Radix
  import opened Zq
  import opened Transform
  import opened Packing
  import opened PolyVec

  function EncodeVec(l: nat, v: seq<Poly>): (b: seq<byte>)
    ensures |b| == 32 * l * |v|
  {
    if |v| == 0 then [] else EncodeVec(l, v[..|v| - 1]) + EncodeOf(l, v[|v| - 1])
  }

  lemma SliceFits(l: nat, k: nat, i: nat)
    requires i < k
    ensures 32 * l * i + 32 * l <= 32 * l * k
  {
    MulLe(i + 1, k, 32 * l);
  }

  /** The bytes of entry i. */
  function Slice(l: nat, k: nat, b: seq<byte>, i: nat): (s: seq<byte>)
    requires |b| == 32 * l * k && i < k
    ensures |s| == 32 * l
  {
    SliceFits(l, k, i);
    b[32 * l * i..32 * l * i + 32 * l]
  }

  function DecodeVec(l: nat, k: nat, b: seq<byte>): (v: seq<Poly>)
    requires |b| == 32 * l * k
    ensures |v| == k
  {
    seq(k, i requires 0 <= i < k => DecodeOf(l, Slice(l, k, b, i)))
  }

  lemma {:induction false} SliceOfEncode(l: nat, v: seq<Poly>, i: nat)
    requires i < |v|
    ensures Slice(l, |v|, EncodeVec(l, v), i) == EncodeOf(l, v[i])
    decreases |v|
  {
    hide EncodeOf;
    var n := |v| - 1;
    var front, last := EncodeVec(l, v[..n]), EncodeOf(l, v[n]);
    SliceFits(l, |v|, i);
    assert |front| == 32 * l * n;
    if i < n {
      SliceFits(l, n, i);
      SliceOfEncode(l, v[..n], i);
      assert (front + last)[32 * l * i..32 * l * i + 32 * l] == front[32 * l * i..32 * l * i + 32 * l];
    } else {
      assert (front + last)[32 * l * n..32 * l * n + 32 * l] == last;
    }
  }

  predicate AreDigitsVec(base: nat, v: seq<Poly>) {
    forall i :: 0 <= i < |v| ==> AreDigits(base, v[i])
  }

  lemma DecodeOfEncodeVec(l: nat, v: seq<Poly>)
    requires IsWidth(l) && AreDigitsVec(Pow2(l), v)
    ensures DecodeVec(l, |v|, EncodeVec(l, v)) == v
  {
    hide Pow2, IsWidth, EncodeVec, EncodeOf, DecodeOf, Slice, AreDigits;
    forall i | 0 <= i < |v|
      ensures DecodeVec(l, |v|, EncodeVec(l, v))[i] == v[i]
    {
      SliceOfEncode(l, v, i);
      DecodeOfEncode(l, v[i]);
    }
  }

  /** Byte strings with equal entries are equal. */
  lemma SlicesDetermine(k: nat, b: seq<byte>, c: seq<byte>)
    requires |b| == |c| == 32 * 12 * k
    requires forall i | 0 <= i < k :: Slice(12, k, b, i) == Slice(12, k, c, i)
    ensures b == c
  {
    forall n | 0 <= n < |b|
      ensures b[n] == c[n]
    {
      var i, r := n / 384, n % 384;
      assert i < k;
      assert Slice(12, k, b, i)[r] == Slice(12, k, c, i)[r];
    }
  }

  /** For vectors too, re-encoding gives the bytes back exactly when all 12-bit words are below the prime. */
  lemma VecModulusCheck(k: nat, b: seq<byte>)
    requires |b| == 32 * 12 * k
    ensures EncodeVec(12, DecodeVec(12, k, b)) == b <==> forall i | 0 <= i < k :: Canonical(Slice(12, k, b, i))
  {
    hide Pow2, IsWidth, EncodeVec, EncodeOf, DecodeOf, Slice, Canonical;
    var v := DecodeVec(12, k, b);
    forall i | 0 <= i < k
      ensures Slice(12, k, EncodeVec(12, v), i) == Slice(12, k, b, i) <==> Canonical(Slice(12, k, b, i))
    {
      SliceOfEncode(12, v, i);
      ModulusCheck(Slice(12, k, b, i));
    }
    if forall i | 0 <= i < k :: Canonical(Slice(12, k, b, i)) {
      SlicesDetermine(k, EncodeVec(12, v), b);
    }
  }

  /** Twelve bits hold every canonical coefficient. */
  lemma CanonicalDigits(v: seq<Poly>)
    ensures AreDigitsVec(Pow2(12), v)
  {
    Pow2Values();
  }

  lemma DecodedDigits(l: nat, b: seq<byte>)
    requires IsWidth(l) && l < 12
    ensures AreDigits(Pow2(l), DecodeOf(l, b))
  {
    hide Pow2, Digits, LeValue, Mod;
    Pow2Values();
    forall i | 0 <= i < 256
      ensures DecodeOf(l, b)[i] == Words(l, b)[i]
    {
      ModCanonical(Words(l, b)[i]);
    }
  }

  // ----- the code --------------------------------------------------------------------------------

  /** Encodes k polynomials one after the other from position ao on. */
  method PolyVecEncode(l: nat, src: array<zq>, k: nat, dst: array<byte>, ao: nat)
    requires IsWidth(l) && src.Length == 256 * k && ao + 32 * l * k <= dst.Length
    modifies dst
    ensures dst[..] == old(dst[..ao]) + EncodeVec(l, Polys(src[..], k)) + old(dst[ao + 32 * l * k..])
  {
    hide EncodeOf, Polys, IsWidth;
    ghost var v := Polys(src[..], k);
    var i: nat := 0;
    while i < k
      invariant i <= k && ao + 32 * l * i <= ao + 32 * l * k
      invariant dst[..] == old(dst[..ao]) + EncodeVec(l, v[..i]) + old(dst[ao + 32 * l * i..])
    {
      SliceFits(l, k, i);
      EntryAt(src[..], k, i);
      Encode(l, src, 256 * i, dst, ao + 32 * l * i);
      assert v[..i + 1][..i] == v[..i];
      NextOffset(l, i);
      i := i + 1;
    }
    assert v[..k] == v;
  }

  lemma NextOffset(l: nat, i: nat)
    ensures 32 * l * (i + 1) == 32 * l * i + 32 * l
  {
  }

  method PolyVecDecode(l: nat, src: array<byte>, ao: nat, dst: array<zq>, k: nat)
    requires IsWidth(l) && dst.Length == 256 * k && ao + 32 * l * k <= src.Length
    modifies dst
    ensures Polys(dst[..], k) == DecodeVec(l, k, src[ao..ao + 32 * l * k])
  {
    hide DecodeOf, Polys, IsWidth, Slice;
    ghost var b := src[ao..ao + 32 * l * k];
    ghost var v := DecodeVec(l, k, b);
    ghost var was := Polys(dst[..], k);
    for i := 0 to k
      invariant Polys(dst[..], k) == v[..i] + was[i..]
    {
      SliceFits(l, k, i);
      SliceIs(l, k, b, i);
      SubSlice(src[..], ao, 32 * l * k, 32 * l * i, 32 * l);
      ghost var before := dst[..];
      Decode(l, src, ao + 32 * l * i, dst, 256 * i);
      PatchPolys(before, k, i, v[i]);
      NextEntry(v, was, i);
    }
  }

  lemma NextEntry(v: seq<Poly>, was: seq<Poly>, i: nat)
    requires i < |v| == |was|
    ensures (v[..i] + was[i..])[i := v[i]] == v[..i + 1] + was[i + 1..]
  {
  }

  lemma SliceIs(l: nat, k: nat, b: seq<byte>, i: nat)
    requires |b| == 32 * l * k && i < k
    ensures 32 * l * i + 32 * l <= |b| && Slice(l, k, b, i) == b[32 * l * i..32 * l * i + 32 * l]
  {
    SliceFits(l, k, i);
  }
}
