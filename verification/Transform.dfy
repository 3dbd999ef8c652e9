/** The in-place number theoretic transform of ML-KEM and its inverse, layer by layer. */
module Transform {
  import opened Bits
  import opened Roots
  import opened Zq

  const INV_N: zq := 3303

  type Poly = s: seq<zq> | |s| == 256 witness seq(256, _ => 0)

  // ----- index arithmetic of a layer with butterflies of length len ---------------

  /** len divides the polynomial into an even number of runs. */
  predicate IsLen(len: nat) {
    len > 0 && 128 % len == 0
  }

  /** The butterfly length of layer l. */
  function Len(l: nat): (len: nat)
    requires 1 <= l <= 7
    ensures IsLen(len) && 2 <= len == Pow2(l) && 128 / len == Pow2(7 - l)
  {
    Pow2Values();
    Pow2Add(l, 7 - l);
    Pow2Add(1, l - 1);
    DivModUnique(128, Pow2(l), Pow2(7 - l), 0);
    Pow2(l)
  }

  /** The upper half of a block: its partner is len positions below. */
  predicate Upper(i: nat, len: nat)
    requires len > 0
  {
    i % (2 * len) >= len
  }

  lemma BlockCount(len: nat)
    requires IsLen(len)
    ensures 128 / len * (2 * len) == 256
  {
    assert 128 == len * (128 / len);
  }

  lemma SplitIndex(i: int, n: int)
    requires n > 0
    ensures i == i / n * n + i % n
  {
  }

  lemma Partner(i: nat, len: nat)
    requires IsLen(len) && i < 256
    ensures i / (2 * len) < 128 / len
    ensures !Upper(i, len) ==> i + len < 256 && Upper(i + len, len) && (i + len) / (2 * len) == i / (2 * len)
    ensures Upper(i, len) ==> i >= len && !Upper(i - len, len) && (i - len) / (2 * len) == i / (2 * len)
  {
    hide IsLen, Upper;
    BlockCount(len);
    PartnerIn(i, len, 128 / len);
    UpperMeans(i, len);
    if i + len < 256 {
      UpperMeans(i + len, len);
    }
    if i >= len {
      UpperMeans(i - len, len);
    }
  }

  lemma UpperMeans(i: nat, len: nat)
    requires len > 0
    ensures Upper(i, len) <==> i % (2 * len) >= len
  {
  }

  lemma PartnerIn(i: nat, len: nat, cnt: nat)
    requires len > 0 && cnt * (2 * len) == 256 && i < 256
    ensures i / (2 * len) < cnt
    ensures i % (2 * len) < len ==>
              i + len < 256 && (i + len) % (2 * len) == i % (2 * len) + len && (i + len) / (2 * len) == i / (2 * len)
    ensures i % (2 * len) >= len ==>
              i >= len && (i - len) % (2 * len) == i % (2 * len) - len && (i - len) / (2 * len) == i / (2 * len)
  {
    var n := 2 * len;
    var s, r := i / n, i % n;
    SplitIndex(i, n);
    CancelLt(s, cnt, n);
    MulLe(s + 1, cnt, n);
    MulLe(0, s, n);
    if r < len {
      DivModUnique(i + len, n, s, r + len);
    } else {
      DivModUnique(i - len, n, s, r - len);
    }
  }

  /** The block that position i belongs to at layer l. */
  function BlockOf(l: nat, i: nat): (s: nat)
    requires 1 <= l <= 7 && i < 256
    ensures s < Pow2(7 - l)
  {
    hide Pow2;
    Partner(i, Len(l));
    i / (2 * Len(l))
  }

  /** Index k of the root used by the butterflies of position i at layer l. */
  function NttIndex(l: nat, i: nat): (k: nat)
    requires 1 <= l <= 7 && i < 256
    ensures k < 128
  {
    hide Pow2, BlockOf;
    IndexBound(7 - l);
    Pow2(7 - l) + BlockOf(l, i)
  }

  function InttIndex(l: nat, i: nat): (k: nat)
    requires 1 <= l <= 7 && i < 256
    ensures k < 128
  {
    hide Pow2, BlockOf;
    IndexBound(7 - l);
    Pow2(7 - l + 1) - 1 - BlockOf(l, i)
  }

  // ----- one layer of butterflies ---------------------------------------------------

  function NttAt(l: nat, a: Poly, i: nat): zq
    requires 1 <= l <= 7 && i < 256
  {
    hide NttZeta, Pow2, NttIndex;
    var len := Len(l);
    Partner(i, len);
    var z := NttZeta(NttIndex(l, i));
    if Upper(i, len) then Mod(a[i - len] as int - z * a[i]) else Mod(a[i] as int + z * a[i + len])
  }

  function NttLayer(l: nat, a: Poly): Poly
    requires 1 <= l <= 7
  {
    seq(256, i requires 0 <= i < 256 => NttAt(l, a, i))
  }

  function InttAt(l: nat, a: Poly, i: nat): zq
    requires 1 <= l <= 7 && i < 256
  {
    hide InttZeta, NttZeta, Pow2, InttIndex;
    var len := Len(l);
    Partner(i, len);
    var z := InttZeta(InttIndex(l, i));
    if Upper(i, len) then Mod(z * (a[i - len] as int - a[i])) else Mod(a[i] as int + a[i + len])
  }

  function InttLayer(l: nat, a: Poly): Poly
    requires 1 <= l <= 7
  {
    seq(256, i requires 0 <= i < 256 => InttAt(l, a, i))
  }

  /** Layers 7 down to l, as the forward transform runs them. */
  function NttDown(f: Poly, l: nat): Poly
    requires 1 <= l <= 8
    decreases 8 - l
  {
    if l == 8 then f else NttLayer(l, NttDown(f, l + 1))
  }

  /** Layers 1 up to l, as the inverse transform runs them. */
  function InttUp(f: Poly, l: nat): Poly
    requires l <= 7
  {
    if l == 0 then f else InttLayer(l, InttUp(f, l - 1))
  }

  function Scale(c: int, f: Poly): Poly {
    seq(256, i requires 0 <= i < 256 => Mod(c * f[i]))
  }

  function NttOf(f: Poly): Poly {
    NttDown(f, 1)
  }

  function InttOf(f: Poly): Poly {
    Scale(INV_N, InttUp(f, 7))
  }

  // ----- the code -------------------------------------------------------------------

  /** The 256 coefficients of an array from position off on. */
  function Span(a: array<zq>, off: nat): Poly
    requires off + 256 <= a.Length
    reads a
  {
    a[off..off + 256]
  }

  /** Everything outside the span is untouched. */
  twostate predicate SameOutside(a: array<zq>, off: nat)
    reads a
  {
    forall i :: 0 <= i < a.Length && !(off <= i < off + 256) ==> a[i] == old(a[i])
  }

  /** The innermost loop: one block of butterflies, positions start .. start + 2 * len. */
  method NttButterflies(poly: array<zq>, start: nat, len: nat, z: zq)
    requires len > 0 && start + 2 * len <= poly.Length
    modifies poly
    ensures forall p {:trigger poly[p]} :: start <= p < start + len ==> poly[p] == Mod(old(poly[p]) as int + z * old(poly[p + len]))
    ensures forall p {:trigger poly[p]} :: start + len <= p < start + 2 * len ==> poly[p] == Mod(old(poly[p - len]) as int - z * old(poly[p]))
    ensures forall p {:trigger poly[p]} :: 0 <= p < poly.Length && !(start <= p < start + 2 * len) ==> poly[p] == old(poly[p])
  {
    hide Mul, Add, Sub, Mod;
    for i := start to start + len
      invariant forall p {:trigger poly[p]} :: start <= p < i ==> poly[p] == Mod(old(poly[p]) as int + z * old(poly[p + len]))
      invariant forall p {:trigger poly[p]} :: start + len <= p < i + len ==> poly[p] == Mod(old(poly[p - len]) as int - z * old(poly[p]))
      invariant forall p {:trigger poly[p]} :: 0 <= p < poly.Length && !(start <= p < i) && !(start + len <= p < i + len) ==> poly[p] == old(poly[p])
    {
      ButterflyValues(poly[i], z, poly[i + len]);
      var tmp := Mul(z, poly[i + len]);
      poly[i + len] := Sub(poly[i], tmp);
      poly[i] := Add(poly[i], tmp);
    }
  }

  lemma ButterflyValues(a: zq, z: zq, b: zq)
    ensures Add(a, Mul(z, b)) == Mod(a as int + z * b)
    ensures Sub(a, Mul(z, b)) == Mod(a as int - z * b)
  {
    hide Mod, Add, Sub, Mul;
    CongMod(z * b);
    CongAdd(a, a, Mul(z, b), z * b);
  }

  /** Positions of block s, lower half then upper half. */
  lemma BlockPosition(l: nat, s: nat, i: nat)
    requires 1 <= l <= 7 && i < 256
    requires s * (2 * Len(l)) <= i < s * (2 * Len(l)) + 2 * Len(l)
    ensures i / (2 * Len(l)) == s && s < 128 / Len(l)
    ensures Upper(i, Len(l)) <==> i >= s * (2 * Len(l)) + Len(l)
  {
    Partner(i, Len(l));
    DivModUnique(i, 2 * Len(l), s, i - s * (2 * Len(l)));
  }

  lemma NttAtBlock(l: nat, a: Poly, s: nat, i: nat)
    requires 1 <= l <= 7 && i < 256 && s < Pow2(7 - l) && Pow2(7 - l) + s < 128
    requires s * (2 * Len(l)) <= i < s * (2 * Len(l)) + 2 * Len(l)
    ensures i < s * (2 * Len(l)) + Len(l) ==>
              i + Len(l) < 256 && NttAt(l, a, i) == Mod(a[i] as int + NttZeta(Pow2(7 - l) + s) * a[i + Len(l)])
    ensures i >= s * (2 * Len(l)) + Len(l) ==>
              i >= Len(l) && NttAt(l, a, i) == Mod(a[i - Len(l)] as int - NttZeta(Pow2(7 - l) + s) * a[i])
  {
    hide NttZeta, Mod, Pow2, Len, Upper;
    BlockPosition(l, s, i);
    Partner(i, Len(l));
  }

  /** The middle loop: every block of one forward layer. */
  method NttBlocks(poly: array<zq>, off: nat, l: nat)
    requires off + 256 <= poly.Length && 1 <= l <= 7
    modifies poly
    ensures Span(poly, off) == NttLayer(l, old(Span(poly, off)))
    ensures SameOutside(poly, off)
  {
    hide NttZeta, NttAt, Mod, Pow2, Len, Upper, IsLen;
    ghost var was := Span(poly, off);
    var len := Len(l);
    var start: nat := 0;
    ghost var block: nat := 0;
    BlockCount(len);
    while start < 256
      invariant start == block * (2 * len) && start <= 256
      invariant forall p {:trigger poly[p]} :: off <= p < off + start ==> poly[p] == NttAt(l, was, p - off)
      invariant forall p {:trigger poly[p]} :: off + start <= p < off + 256 ==> poly[p] == was[p - off]
      invariant SameOutside(poly, off)
    {
      BlockFits(block, len);
      BlockPosition(l, block, start);
      IndexBound(7 - l);
      label before:
      var k := Pow2(7 - l) + start / (2 * len);
      NttButterflies(poly, off + start, len, NttZeta(k));
      forall p | off + start <= p < off + start + 2 * len
        ensures poly[p] == NttAt(l, was, p - off)
      {
        NttAtBlock(l, was, block, p - off);
      }
      BlockNext(block, len);
      start := start + 2 * len;
      block := block + 1;
    }
    assert Span(poly, off) == NttLayer(l, was);
  }

  lemma BlockNext(block: nat, len: nat)
    ensures (block + 1) * (2 * len) == block * (2 * len) + 2 * len
  {
  }

  lemma BlockFits(block: nat, len: nat)
    requires IsLen(len) && block * (2 * len) < 256
    ensures block * (2 * len) + 2 * len <= 256
  {
    BlockCount(len);
    CancelLt(block, 128 / len, 2 * len);
    MulLe(block + 1, 128 / len, 2 * len);
  }

  method InttButterflies(poly: array<zq>, start: nat, len: nat, z: zq)
    requires len > 0 && start + 2 * len <= poly.Length
    modifies poly
    ensures forall p {:trigger poly[p]} :: start <= p < start + len ==> poly[p] == Mod(old(poly[p]) as int + old(poly[p + len]))
    ensures forall p {:trigger poly[p]} :: start + len <= p < start + 2 * len ==>
              poly[p] == Mod(z * (old(poly[p - len]) as int - old(poly[p])))
    ensures forall p {:trigger poly[p]} :: 0 <= p < poly.Length && !(start <= p < start + 2 * len) ==> poly[p] == old(poly[p])
  {
    hide Mul, Add, Sub, Mod;
    for i := start to start + len
      invariant forall p {:trigger poly[p]} :: start <= p < i ==> poly[p] == Mod(old(poly[p]) as int + old(poly[p + len]))
      invariant forall p {:trigger poly[p]} :: start + len <= p < i + len ==>
                  poly[p] == Mod(z * (old(poly[p - len]) as int - old(poly[p])))
      invariant forall p {:trigger poly[p]} :: 0 <= p < poly.Length && !(start <= p < i) && !(start + len <= p < i + len) ==> poly[p] == old(poly[p])
    {
      var tmp := poly[i];
      ModProduct(z, tmp as int - poly[i + len]);
      poly[i] := Add(poly[i], poly[i + len]);
      poly[i + len] := Mul(Sub(tmp, poly[i + len]), z);
    }
  }

  lemma ModProduct(z: int, d: int)
    ensures Mod(Mod(d) * z) == Mod(z * d)
  {
    CongMod(d);
    CongScale(Mod(d), d, z);
  }

  lemma InttAtBlock(l: nat, a: Poly, s: nat, i: nat)
    requires 1 <= l <= 7 && i < 256 && s < Pow2(7 - l) && 0 <= Pow2(7 - l + 1) - 1 - s < 128
    requires s * (2 * Len(l)) <= i < s * (2 * Len(l)) + 2 * Len(l)
    ensures i < s * (2 * Len(l)) + Len(l) ==>
              i + Len(l) < 256 && InttAt(l, a, i) == Mod(a[i] as int + a[i + Len(l)])
    ensures i >= s * (2 * Len(l)) + Len(l) ==>
              i >= Len(l) &&
              InttAt(l, a, i) == Mod(InttZeta(Pow2(7 - l + 1) - 1 - s) * (a[i - Len(l)] as int - a[i]))
  {
    hide InttZeta, Mod, Pow2, Len, Upper;
    BlockPosition(l, s, i);
    Partner(i, Len(l));
  }

  /** The middle loop: every block of one inverse layer. */
  method InttBlocks(poly: array<zq>, off: nat, l: nat)
    requires off + 256 <= poly.Length && 1 <= l <= 7
    modifies poly
    ensures Span(poly, off) == InttLayer(l, old(Span(poly, off)))
    ensures SameOutside(poly, off)
  {
    hide InttZeta, InttAt, Mod, Pow2, Len, Upper, IsLen;
    ghost var was := Span(poly, off);
    var len := Len(l);
    var start: nat := 0;
    ghost var block: nat := 0;
    BlockCount(len);
    while start < 256
      invariant start == block * (2 * len) && start <= 256
      invariant forall p {:trigger poly[p]} :: off <= p < off + start ==> poly[p] == InttAt(l, was, p - off)
      invariant forall p {:trigger poly[p]} :: off + start <= p < off + 256 ==> poly[p] == was[p - off]
      invariant SameOutside(poly, off)
    {
      BlockFits(block, len);
      BlockPosition(l, block, start);
      IndexBound(7 - l);
      var k := Pow2(7 - l + 1) - 1 - start / (2 * len);
      InttButterflies(poly, off + start, len, InttZeta(k));
      forall p | off + start <= p < off + start + 2 * len
        ensures poly[p] == InttAt(l, was, p - off)
      {
        InttAtBlock(l, was, block, p - off);
      }
      BlockNext(block, len);
      start := start + 2 * len;
      block := block + 1;
    }
    assert Span(poly, off) == InttLayer(l, was);
  }

  /** Forward transform in place: layers 7 down to 1. */
  method Ntt(poly: array<zq>, off: nat)
    requires off + 256 <= poly.Length
    modifies poly
    ensures Span(poly, off) == NttOf(old(Span(poly, off)))
    ensures SameOutside(poly, off)
  {
    hide NttLayer;
    var l := 7;
    while l >= 1
      invariant 0 <= l <= 7
      invariant Span(poly, off) == NttDown(old(Span(poly, off)), l + 1)
      invariant SameOutside(poly, off)
    {
      NttBlocks(poly, off, l);
      l := l - 1;
    }
  }

  /** Inverse transform in place: layers 1 up to 7, then the scaling by 1/128. */
  method Intt(poly: array<zq>, off: nat)
    requires off + 256 <= poly.Length
    modifies poly
    ensures Span(poly, off) == InttOf(old(Span(poly, off)))
    ensures SameOutside(poly, off)
  {
    hide InttLayer, Mul, Mod;
    for l := 1 to 8
      invariant Span(poly, off) == InttUp(old(Span(poly, off)), l - 1)
      invariant SameOutside(poly, off)
    {
      InttBlocks(poly, off, l);
    }
    ghost var up := Span(poly, off);
    for i := 0 to 256
      invariant forall p {:trigger poly[p]} :: off <= p < off + i ==> poly[p] == Mod(INV_N * up[p - off])
      invariant forall p {:trigger poly[p]} :: off + i <= p < off + 256 ==> poly[p] == up[p - off]
      invariant SameOutside(poly, off)
    {
      poly[off + i] := Mul(poly[off + i], INV_N);
      assert up[i] * INV_N == INV_N * up[i];
    }
    assert Span(poly, off) == Scale(INV_N, up);
  }
}
