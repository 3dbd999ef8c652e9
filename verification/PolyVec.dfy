/** In-place operations on vectors and matrices of polynomials stored as flat arrays of coefficients. */
module PolyVec {
  import opened Bits
  import opened Roots
  import opened Zq
  import opened Transform
  import opened TransformRing
  import opened PolyRing
  import opened Vectors
  import opened Compression

  // ----- polynomials inside a flat sequence --------------------------------------------------------

  function PolyAt(s: seq<zq>, i: nat): Poly
    requires 256 * i + 256 <= |s|
  {
    s[256 * i..256 * i + 256]
  }

  function Polys(s: seq<zq>, n: nat): (v: seq<Poly>)
    requires |s| == 256 * n
    ensures |v| == n
  {
    seq(n, i requires 0 <= i < n => PolyAt(s, i))
  }

  /** s with the polynomial at position off replaced. */
  function Patch(s: seq<zq>, off: nat, f: Poly): (t: seq<zq>)
    requires off + 256 <= |s|
    ensures |t| == |s|
  {
    s[..off] + f + s[off + 256..]
  }

  lemma PatchPolys(s: seq<zq>, n: nat, i: nat, f: Poly)
    requires |s| == 256 * n && i < n
    ensures Polys(Patch(s, 256 * i, f), n) == Polys(s, n)[i := f]
  {
    var t := Patch(s, 256 * i, f);
    forall j | 0 <= j < n
      ensures Polys(t, n)[j] == Polys(s, n)[i := f][j]
    {
      if j == i {
        assert t[256 * i..256 * i + 256] == f;
      } else {
        forall k | 0 <= k < 256
          ensures PolyAt(t, j)[k] == PolyAt(s, j)[k]
        {
        }
      }
    }
  }

  // ----- products ----------------------------------------------------------------------------------

  /** One pair of coefficients of the pairwise product. */
  method BaseMul(f: array<zq>, fo: nat, g: array<zq>, go: nat, h: array<zq>, ho: nat, zeta: zq)
    requires fo + 2 <= f.Length && go + 2 <= g.Length && ho + 2 <= h.Length && h != f && h != g
    modifies h
    ensures h[ho] == BaseMul0(f[fo], f[fo + 1], g[go], g[go + 1], zeta)
    ensures h[ho + 1] == BaseMul1(f[fo], f[fo + 1], g[go], g[go + 1])
    ensures forall p {:trigger h[p]} :: 0 <= p < h.Length && p != ho && p != ho + 1 ==> h[p] == old(h[p])
  {
    hide Mul, Add, Mod;
    var f0 := Mul(f[fo], g[go]);
    var f1 := Mul(f[fo + 1], g[go + 1]);
    f1 := Mul(f1, zeta);
    f1 := Add(f1, f0);
    h[ho] := f1;

    var g1 := Mul(g[go + 1], f[fo]);
    var g0 := Mul(g[go], f[fo + 1]);
    g1 := Add(g1, g0);
    h[ho + 1] := g1;
    BaseMulValues(f[fo], f[fo + 1], g[go], g[go + 1], zeta);
  }

  lemma BaseMulValues(f0: zq, f1: zq, g0: zq, g1: zq, z: zq)
    ensures Mod(Mod(Mod(f1 * g1) * z) as int + Mod(f0 * g0)) == BaseMul0(f0, f1, g0, g1, z)
    ensures Mod(Mod(g1 * f0) as int + Mod(g0 * f1)) == BaseMul1(f0, f1, g0, g1)
  {
    hide Mod;
    var a: int, b: int, c: int, d: int := f1 * g1, f0 * g0, g1 * f0, g0 * f1;
    CongMod(a);
    CongMod(b);
    CongMod(c);
    CongMod(d);
    CongScale(Mod(a), a, z);
    CongMod(Mod(a) * z);
    CongAdd(Mod(Mod(a) * z), a * z, Mod(b), b);
    CongAdd(Mod(c), c, Mod(d), d);
    assert a * z + b == f0 * g0 + z * (f1 * g1);
    assert c + d == f0 * g1 + f1 * g0;
  }

  /** The pairwise product of two polynomials in transformed form. */
  method PolyMulPairs(f: array<zq>, fo: nat, g: array<zq>, go: nat, h: array<zq>)
    requires fo + 256 <= f.Length && go + 256 <= g.Length && h.Length == 256 && h != f && h != g
    modifies h
    ensures h[..] == PairMul(f[fo..fo + 256], g[go..go + 256])
  {
    hide BaseMul0, BaseMul1, PolyMulZeta;
    ghost var u, v := f[fo..fo + 256], g[go..go + 256];
    for i := 0 to 128
      invariant forall p :: 0 <= p < 2 * i ==> h[p] == PairMulAt(u, v, p)
    {
      var off := i * 2;
      BaseMul(f, fo + off, g, go + off, h, off, PolyMulZeta(i));
      assert (2 * i) / 2 * 2 == 2 * i && (2 * i + 1) / 2 * 2 == 2 * i;
      assert h[2 * i] == PairMulAt(u, v, 2 * i) && h[2 * i + 1] == PairMulAt(u, v, 2 * i + 1);
    }
  }

  /** The body of the innermost matrix loop: c_ci += a_ai * b_bi, through the scratch polynomial. */
  method AddProduct(a: array<zq>, ao: nat, b: array<zq>, bo: nat, c: array<zq>, co: nat, tmp: array<zq>)
    requires ao + 256 <= a.Length && bo + 256 <= b.Length && co + 256 <= c.Length && tmp.Length == 256
    requires c != a && c != b && tmp != a && tmp != b && tmp != c
    modifies c, tmp
    ensures c[..] == Patch(old(c[..]), co, PolyAdd(old(c[co..co + 256]), PairMul(a[ao..ao + 256], b[bo..bo + 256])))
  {
    hide PairMul, Add, Mod;
    ghost var was := c[..];
    PolyMulPairs(a, ao, b, bo, tmp);
    ghost var product := tmp[..];
    for l := 0 to 256
      invariant tmp[..] == product
      invariant forall p {:trigger c[p]} :: co <= p < co + l ==> c[p] == Mod(was[p] as int + product[p - co])
      invariant forall p {:trigger c[p]} :: 0 <= p < c.Length && !(co <= p < co + l) ==> c[p] == was[p]
    {
      c[co + l] := Add(c[co + l], tmp[l]);
    }
    assert c[..] == Patch(was, co, PolyAdd(was[co..co + 256], product));
  }

  // ----- matrices ----------------------------------------------------------------------------------

  /** Entry (i, j) of a matrix with the given number of columns, in row-major order. */
  function Cell(i: nat, j: nat, cols: nat): nat {
    i * cols + j
  }

  lemma CellFits(i: nat, rows: nat, j: nat, cols: nat)
    requires i < rows && j < cols
    ensures Cell(i, j, cols) < rows * cols
  {
    MulLe(i + 1, rows, cols);
  }

  lemma CellDistinct(i: nat, j: nat, i': nat, j': nat, cols: nat)
    requires j < cols && j' < cols && Cell(i, j, cols) == Cell(i', j', cols)
    ensures i == i' && j == j'
  {
    DivModUnique(Cell(i, j, cols), cols, i, j);
    DivModUnique(Cell(i, j, cols), cols, i', j');
  }

  function RowOf(e: seq<Poly>, i: nat, rows: nat, cols: nat): (r: seq<Poly>)
    requires i < rows && |e| == rows * cols
    ensures |r| == cols
  {
    seq(cols, k requires 0 <= k < cols => CellFits(i, rows, k, cols); e[Cell(i, k, cols)])
  }

  function ColumnOf(e: seq<Poly>, j: nat, rows: nat, cols: nat): (c: seq<Poly>)
    requires j < cols && |e| == rows * cols
    ensures |c| == rows
  {
    seq(rows, k requires 0 <= k < rows => CellFits(k, rows, j, cols); e[Cell(k, j, cols)])
  }

  /** One entry of the product: row i of a against column j of b, added onto the entry of c. */
  method MatrixEntry(a: array<zq>, aRows: nat, aCols: nat, b: array<zq>, bCols: nat, c: array<zq>, tmp: array<zq>,
                     i: nat, j: nat)
    requires a.Length == 256 * (aRows * aCols) && b.Length == 256 * (aCols * bCols) && c.Length == 256 * (aRows * bCols)
    requires i < aRows && j < bCols && tmp.Length == 256
    requires c != a && c != b && tmp != a && tmp != b && tmp != c
    modifies c, tmp
    ensures Cell(i, j, bCols) < aRows * bCols
    ensures Polys(c[..], aRows * bCols) ==
            old(Polys(c[..], aRows * bCols))[Cell(i, j, bCols) :=
              PolyAdd(old(Polys(c[..], aRows * bCols))[Cell(i, j, bCols)],
                      Dot(RowOf(Polys(a[..], aRows * aCols), i, aRows, aCols),
                          ColumnOf(Polys(b[..], aCols * bCols), j, aCols, bCols)))]
  {
    hide PolyAdd, PairMul, Cell, Patch, Polys, RowOf, ColumnOf, Dot;
    var ci, n := Cell(i, j, bCols), aRows * bCols;
    CellFits(i, aRows, j, bCols);
    ghost var row := RowOf(Polys(a[..], aRows * aCols), i, aRows, aCols);
    ghost var col := ColumnOf(Polys(b[..], aCols * bCols), j, aCols, bCols);
    ghost var was := Polys(c[..], n);
    DotStarts(was[ci], row, col);
    assert was[ci := was[ci]] == was;
    for k := 0 to aCols
      invariant Polys(c[..], n) == was[ci := PolyAdd(was[ci], Dot(row[..k], col[..k]))]
    {
      CellFits(i, aRows, k, aCols);
      CellFits(k, aCols, j, bCols);
      RowEntry(a[..], i, k, aRows, aCols);
      ColumnEntry(b[..], j, k, aCols, bCols);
      EntryAt(c[..], n, ci);
      ghost var before := c[..];
      AddProduct(a, 256 * Cell(i, k, aCols), b, 256 * Cell(k, j, bCols), c, 256 * ci, tmp);
      PatchPolys(before, n, ci, PolyAdd(PolyAt(before, ci), PairMul(row[k], col[k])));
      DotExtends(was[ci], row, col, k);
    }
    assert row[..aCols] == row && col[..aCols] == col;
  }

  lemma RowEntry(a: seq<zq>, i: nat, k: nat, rows: nat, cols: nat)
    requires |a| == 256 * (rows * cols) && i < rows && k < cols
    ensures Cell(i, k, cols) < rows * cols
    ensures RowOf(Polys(a, rows * cols), i, rows, cols)[k] == PolyAt(a, Cell(i, k, cols))
  {
    CellFits(i, rows, k, cols);
  }

  lemma ColumnEntry(b: seq<zq>, j: nat, k: nat, rows: nat, cols: nat)
    requires |b| == 256 * (rows * cols) && j < cols && k < rows
    ensures Cell(k, j, cols) < rows * cols
    ensures ColumnOf(Polys(b, rows * cols), j, rows, cols)[k] == PolyAt(b, Cell(k, j, cols))
  {
    CellFits(k, rows, j, cols);
  }

  lemma EntryAt(c: seq<zq>, n: nat, ci: nat)
    requires |c| == 256 * n && ci < n
    ensures Polys(c, n)[ci] == PolyAt(c, ci)
  {
  }

  lemma DotStarts(x: Poly, u: seq<Poly>, v: seq<Poly>)
    ensures PolyAdd(x, Dot(u[..0], v[..0])) == x
  {
    AddZero(x);
  }

  lemma DotExtends(x: Poly, u: seq<Poly>, v: seq<Poly>, k: nat)
    requires k < |u| == |v|
    ensures PolyAdd(PolyAdd(x, Dot(u[..k], v[..k])), PairMul(u[k], v[k])) == PolyAdd(x, Dot(u[..k + 1], v[..k + 1]))
  {
    hide PolyAdd, PairMul;
    assert u[..k + 1][..k] == u[..k] && v[..k + 1][..k] == v[..k];
    AddAssociates(x, Dot(u[..k], v[..k]), PairMul(u[k], v[k]));
  }

  /** Entry (i, j) of e + a b, for matrices given entry by entry. */
  function ProductEntry(ea: seq<Poly>, aRows: nat, aCols: nat, eb: seq<Poly>, bCols: nat, e: seq<Poly>,
                        i: nat, j: nat): Poly
    requires |ea| == aRows * aCols && |eb| == aCols * bCols && |e| == aRows * bCols && i < aRows && j < bCols
  {
    CellFits(i, aRows, j, bCols);
    PolyAdd(e[Cell(i, j, bCols)], Dot(RowOf(ea, i, aRows, aCols), ColumnOf(eb, j, aCols, bCols)))
  }

  /** Matrix product, accumulated onto c, for matrices of any compatible dimensions. */
  method MatrixMultiply(a: array<zq>, aRows: nat, aCols: nat, b: array<zq>, bCols: nat, c: array<zq>)
    requires a.Length == 256 * (aRows * aCols) && b.Length == 256 * (aCols * bCols) && c.Length == 256 * (aRows * bCols)
    requires c != a && c != b
    modifies c
    ensures forall i, j {:trigger Cell(i, j, bCols)} :: 0 <= i < aRows && 0 <= j < bCols ==>
              Cell(i, j, bCols) < aRows * bCols &&
              Polys(c[..], aRows * bCols)[Cell(i, j, bCols)] ==
              ProductEntry(Polys(a[..], aRows * aCols), aRows, aCols, Polys(b[..], aCols * bCols), bCols,
                           old(Polys(c[..], aRows * bCols)), i, j)
  {
    hide PolyAdd, PairMul, Cell, Polys, RowOf, ColumnOf, Dot;
    var tmp := new zq[256](_ => 0);
    var n := aRows * bCols;
    ghost var ea, eb, was := Polys(a[..], aRows * aCols), Polys(b[..], aCols * bCols), Polys(c[..], n);
    forall i, j | 0 <= i < aRows && 0 <= j < bCols
      ensures Cell(i, j, bCols) < n
    {
      CellFits(i, aRows, j, bCols);
    }
    for i := 0 to aRows
      invariant forall i', j' {:trigger Cell(i', j', bCols)} :: 0 <= i' < aRows && 0 <= j' < bCols ==>
                  Cell(i', j', bCols) < n && Polys(c[..], n)[Cell(i', j', bCols)] ==
                  if i' < i then ProductEntry(ea, aRows, aCols, eb, bCols, was, i', j')
                  else was[Cell(i', j', bCols)]
    {
      for j := 0 to bCols
        invariant forall i', j' {:trigger Cell(i', j', bCols)} :: 0 <= i' < aRows && 0 <= j' < bCols ==>
                    Cell(i', j', bCols) < n && Polys(c[..], n)[Cell(i', j', bCols)] ==
                    if i' < i || (i' == i && j' < j) then ProductEntry(ea, aRows, aCols, eb, bCols, was, i', j')
                    else was[Cell(i', j', bCols)]
      {
        ghost var before := Polys(c[..], n);
        assert before[Cell(i, j, bCols)] == was[Cell(i, j, bCols)];
        MatrixEntry(a, aRows, aCols, b, bCols, c, tmp, i, j);
        forall i', j' | 0 <= i' < aRows && 0 <= j' < bCols
          ensures (i' == i && j' == j) || Cell(i', j', bCols) != Cell(i, j, bCols)
        {
          if Cell(i', j', bCols) == Cell(i, j, bCols) {
            CellDistinct(i, j, i', j', bCols);
          }
        }
      }
    }
  }

  // ----- vectors -----------------------------------------------------------------------------------

  /** A write confined to one span is a patch. */
  lemma PatchOf(s: seq<zq>, t: seq<zq>, off: nat)
    requires off + 256 <= |s| == |t|
    requires forall p :: 0 <= p < |s| && !(off <= p < off + 256) ==> t[p] == s[p]
    ensures t == Patch(s, off, t[off..off + 256])
  {
  }

  method NttEntry(vec: array<zq>, k: nat, i: nat)
    requires vec.Length == 256 * k && i < k
    modifies vec
    ensures Polys(vec[..], k) == old(Polys(vec[..], k))[i := NttOf(old(Polys(vec[..], k))[i])]
  {
    hide NttOf, Polys;
    ghost var before := vec[..];
    EntryAt(before, k, i);
    Ntt(vec, 256 * i);
    PatchOf(before, vec[..], 256 * i);
    PatchPolys(before, k, i, NttOf(PolyAt(before, i)));
  }

  method PolyVecNtt(vec: array<zq>, k: nat)
    requires vec.Length == 256 * k
    modifies vec
    ensures Polys(vec[..], k) == NttVec(old(Polys(vec[..], k)))
  {
    hide NttOf, Polys;
    ghost var was := Polys(vec[..], k);
    for i := 0 to k
      invariant Polys(vec[..], k) == NttVec(was)[..i] + was[i..]
    {
      NttEntry(vec, k, i);
    }
  }

  method InttEntry(vec: array<zq>, k: nat, i: nat)
    requires vec.Length == 256 * k && i < k
    modifies vec
    ensures Polys(vec[..], k) == old(Polys(vec[..], k))[i := InttOf(old(Polys(vec[..], k))[i])]
  {
    hide InttOf, Polys;
    ghost var before := vec[..];
    EntryAt(before, k, i);
    Intt(vec, 256 * i);
    PatchOf(before, vec[..], 256 * i);
    PatchPolys(before, k, i, InttOf(PolyAt(before, i)));
  }

  method PolyVecIntt(vec: array<zq>, k: nat)
    requires vec.Length == 256 * k
    modifies vec
    ensures Polys(vec[..], k) == InttVec(old(Polys(vec[..], k)))
  {
    hide InttOf, Polys;
    ghost var was := Polys(vec[..], k);
    for i := 0 to k
      invariant Polys(vec[..], k) == InttVec(was)[..i] + was[i..]
    {
      InttEntry(vec, k, i);
    }
  }

  method PolyVecAddTo(src: array<zq>, dst: array<zq>, k: nat)
    requires src.Length == dst.Length == 256 * k && src != dst
    modifies dst
    ensures Polys(dst[..], k) == VecAdd(old(Polys(dst[..], k)), Polys(src[..], k))
  {
    hide Add, Mod;
    for i := 0 to 256 * k
      invariant forall p {:trigger dst[p]} :: 0 <= p < i ==> dst[p] == Mod(old(dst[p]) as int + src[p])
      invariant forall p {:trigger dst[p]} :: i <= p < 256 * k ==> dst[p] == old(dst[p])
    {
      dst[i] := Add(dst[i], src[i]);
    }
    SumsByEntry(old(dst[..]), src[..], dst[..], k);
  }

  lemma SumsByEntry(x: seq<zq>, y: seq<zq>, s: seq<zq>, k: nat)
    requires |x| == |y| == |s| == 256 * k && forall p :: 0 <= p < |s| ==> s[p] == Mod(x[p] as int + y[p])
    ensures Polys(s, k) == VecAdd(Polys(x, k), Polys(y, k))
  {
    hide Mod;
    forall i | 0 <= i < k
      ensures Polys(s, k)[i] == VecAdd(Polys(x, k), Polys(y, k))[i]
    {
      assert PolyAt(s, i) == PolyAdd(PolyAt(x, i), PolyAt(y, i));
    }
  }

  method PolyVecSubFrom(src: array<zq>, dst: array<zq>, k: nat)
    requires src.Length == dst.Length == 256 * k && src != dst
    modifies dst
    ensures Polys(dst[..], k) == VecSub(old(Polys(dst[..], k)), Polys(src[..], k))
  {
    hide Sub, Mod;
    for i := 0 to 256 * k
      invariant forall p {:trigger dst[p]} :: 0 <= p < i ==> dst[p] == Mod(old(dst[p]) as int - src[p])
      invariant forall p {:trigger dst[p]} :: i <= p < 256 * k ==> dst[p] == old(dst[p])
    {
      dst[i] := Sub(dst[i], src[i]);
    }
    DifferencesByEntry(old(dst[..]), src[..], dst[..], k);
  }

  lemma DifferencesByEntry(x: seq<zq>, y: seq<zq>, s: seq<zq>, k: nat)
    requires |x| == |y| == |s| == 256 * k && forall p :: 0 <= p < |s| ==> s[p] == Mod(x[p] as int - y[p])
    ensures Polys(s, k) == VecSub(Polys(x, k), Polys(y, k))
  {
    hide Mod;
    forall i | 0 <= i < k
      ensures Polys(s, k)[i] == VecSub(Polys(x, k), Polys(y, k))[i]
    {
      assert PolyAt(s, i) == PolySub(PolyAt(x, i), PolyAt(y, i));
    }
  }

  // ----- compression ---------------------------------------------------------------------------------

  function CompressPoly(d: nat, f: Poly): Poly
    requires IsScale(d)
  {
    seq(256, i requires 0 <= i < 256 => Compress(d, f[i]))
  }

  predicate Compressed(d: nat, f: seq<nat>) {
    forall i :: 0 <= i < |f| ==> f[i] < Pow2(d)
  }

  function DecompressPoly(d: nat, f: Poly): Poly
    requires IsScale(d) && Compressed(d, f)
  {
    seq(256, i requires 0 <= i < 256 => Decompress(d, f[i]))
  }

  function CompressVec(d: nat, v: seq<Poly>): (w: seq<Poly>)
    requires IsScale(d)
    ensures |w| == |v|
  {
    seq(|v|, i requires 0 <= i < |v| => CompressPoly(d, v[i]))
  }

  predicate CompressedVec(d: nat, v: seq<Poly>) {
    forall i :: 0 <= i < |v| ==> Compressed(d, v[i])
  }

  function DecompressVec(d: nat, v: seq<Poly>): (w: seq<Poly>)
    requires IsScale(d) && CompressedVec(d, v)
    ensures |w| == |v|
  {
    seq(|v|, i requires 0 <= i < |v| => DecompressPoly(d, v[i]))
  }

  /** Compresses every coefficient of k polynomials in place. */
  method PolyVecCompress(d: nat, vec: array<zq>, k: nat)
    requires IsScale(d) && vec.Length == 256 * k
    modifies vec
    ensures Polys(vec[..], k) == CompressVec(d, old(Polys(vec[..], k)))
  {
    hide Compress;
    for i := 0 to 256 * k
      invariant forall p {:trigger vec[p]} :: 0 <= p < i ==> vec[p] == Compress(d, old(vec[p]))
      invariant forall p {:trigger vec[p]} :: i <= p < 256 * k ==> vec[p] == old(vec[p])
    {
      vec[i] := Compress(d, vec[i]);
    }
    forall i | 0 <= i < k
      ensures Polys(vec[..], k)[i] == CompressPoly(d, old(Polys(vec[..], k))[i])
    {
      assert PolyAt(vec[..], i) == CompressPoly(d, PolyAt(old(vec[..]), i));
    }
  }

  /** Decompresses every coefficient of k polynomials in place. */
  method PolyVecDecompress(d: nat, vec: array<zq>, k: nat)
    requires IsScale(d) && vec.Length == 256 * k && CompressedVec(d, Polys(vec[..], k))
    modifies vec
    ensures old(CompressedVec(d, Polys(vec[..], k)))
    ensures Polys(vec[..], k) == DecompressVec(d, old(Polys(vec[..], k)))
  {
    hide Decompress, Pow2;
    CompressedFlat(d, vec[..], k);
    for i := 0 to 256 * k
      invariant forall p :: 0 <= p < 256 * k ==> old(vec[p]) < Pow2(d)
      invariant forall p {:trigger vec[p]} :: 0 <= p < i ==> vec[p] == Decompress(d, old(vec[p]))
      invariant forall p {:trigger vec[p]} :: i <= p < 256 * k ==> vec[p] == old(vec[p])
    {
      vec[i] := Decompress(d, vec[i]);
    }
    forall i | 0 <= i < k
      ensures Polys(vec[..], k)[i] == DecompressPoly(d, old(Polys(vec[..], k))[i])
    {
      assert PolyAt(vec[..], i) == DecompressPoly(d, PolyAt(old(vec[..]), i));
    }
  }

  lemma CompressedFlat(d: nat, s: seq<zq>, k: nat)
    requires |s| == 256 * k && CompressedVec(d, Polys(s, k))
    ensures forall p :: 0 <= p < |s| ==> s[p] < Pow2(d)
  {
    hide Pow2;
    forall p | 0 <= p < |s|
      ensures s[p] < Pow2(d)
    {
      assert Compressed(d, Polys(s, k)[p / 256]);
      assert PolyAt(s, p / 256)[p % 256] == s[p];
    }
  }
}
