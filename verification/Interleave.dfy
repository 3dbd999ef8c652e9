/** Splitting the data codewords into blocks, adding error correction, and interleaving. */
module Interleave {
  import opened Bits
  import opened Octets
  import opened GaloisField
  import opened ReedSolomon
  import opened ReedSolomonCode

  /** Block count, error correction codewords per block and total codewords of one version and level. */
  datatype Layout = Layout(blocks: nat, ecc: nat, raw: nat) {
    ghost predicate Sound() {
      && blocks > 0 && 1 <= ecc <= 30 && ecc * blocks <= raw
    }

    /** Data codewords in a short block; long blocks have one more. */
    function ShortLen(): (n: nat)
      requires Sound()
    {
      CancelEcc(ecc, blocks, raw);
      raw / blocks - ecc
    }

    function DataLen(): (n: nat)
      requires Sound()
    {
      raw - ecc * blocks
    }

    /** Codewords taken from all blocks alike. */
    function ShortPart(): (n: nat)
      requires Sound()
    {
      CancelEcc(ecc, blocks, raw);
      DataLen() - raw % blocks
    }

    function NumShort(): (n: nat)
      requires Sound()
      ensures 0 < n <= blocks
    {
      blocks - raw % blocks
    }

    function BlockLen(i: nat): nat
      requires Sound()
    {
      ShortLen() + if i < NumShort() then 0 else 1
    }

    function BlockStart(i: nat): nat
      requires Sound()
    {
      i * ShortLen() + if i < NumShort() then 0 else i - NumShort()
    }
  }

  lemma ShortFacts(l: Layout)
    requires l.Sound()
    ensures l.ShortPart() == l.ShortLen() * l.blocks && l.DataLen() == l.ShortPart() + l.raw % l.blocks
  {
    CancelEcc(l.ecc, l.blocks, l.raw);
  }

  lemma CancelEcc(ecc: nat, blocks: nat, raw: nat)
    requires blocks > 0 && ecc * blocks <= raw
    ensures ecc <= raw / blocks && raw - ecc * blocks - raw % blocks == (raw / blocks - ecc) * blocks
    ensures raw % blocks <= raw - ecc * blocks
  {
    var q := raw / blocks;
    assert raw == q * blocks + raw % blocks;
    if q < ecc {
      MulLe(q + 1, ecc, blocks);
    }
    MulLe(ecc, q, blocks);
  }

  // ----- places ---------------------------------------------------------------------------------------------

  /** Codeword j of block i, before or after the block's data. */
  datatype Cell = Data(i: nat, j: nat) | Ecc(i: nat, j: nat)

  ghost predicate IsCell(l: Layout, c: Cell)
    requires l.Sound()
  {
    c.i < l.blocks && c.j < if c.Data? then l.BlockLen(c.i) else l.ecc
  }

  function Stride(i: nat, j: nat, n: nat): nat {
    i + j * n
  }

  lemma StrideNext(i: nat, j: nat, n: nat)
    ensures Stride(i, 0, n) == i && Stride(i, j + 1, n) == Stride(i, j, n) + n
  {
  }

  /** Where the loops put a cell. */
  function Place(l: Layout, c: Cell): int
    requires l.Sound()
  {
    match c
    case Data(i, j) => Stride(i, j, l.blocks) - if j == l.ShortLen() then l.NumShort() else 0
    case Ecc(i, j) => l.DataLen() + Stride(i, j, l.blocks)
  }

  /** Which cell an index of the result holds. */
  function Source(l: Layout, k: nat): Cell
    requires l.Sound()
  {
    if k < l.ShortPart() then QuotientNat(k, l.blocks); Data(k % l.blocks, k / l.blocks)
    else if k < l.DataLen() then Data(l.NumShort() + (k - l.ShortPart()), l.ShortLen())
    else QuotientNat(k - l.DataLen(), l.blocks); Ecc((k - l.DataLen()) % l.blocks, (k - l.DataLen()) / l.blocks)
  }

  lemma QuotientBelow(k: nat, n: nat, m: nat)
    requires n > 0 && k < m * n
    ensures k / n < m
  {
    QuotientNat(k, n);
    CancelLt(k / n, m, n);
  }

  /** Every index of the result is the place of exactly one cell. */
  lemma SourceHasPlace(l: Layout, k: nat)
    requires l.Sound() && k < l.raw
    ensures IsCell(l, Source(l, k)) && Place(l, Source(l, k)) == k
  {
    ShortFacts(l);
    var s, n := l.ShortLen(), l.blocks;
    if k < l.ShortPart() {
      QuotientBelow(k, n, s);
      QuotientNat(k, n);
    } else if k < l.DataLen() {
    } else {
      var e := k - l.DataLen();
      QuotientBelow(e, n, l.ecc);
      QuotientNat(e, n);
    }
  }

  /** Distinct cells have distinct places, all inside the result. */
  lemma PlaceHasSource(l: Layout, c: Cell)
    requires l.Sound() && IsCell(l, c)
    ensures 0 <= Place(l, c) < l.raw && Source(l, Place(l, c)) == c
  {
    match c
    case Data(i, j) =>
      if j < l.ShortLen() {
        ShortPlace(l, i, j);
      } else {
        LongPlace(l, i);
      }
    case Ecc(i, j) =>
      EccPlace(l, i, j);
  }

  lemma ShortPlace(l: Layout, i: nat, j: nat)
    requires l.Sound() && i < l.blocks && j < l.ShortLen()
    ensures 0 <= Place(l, Data(i, j)) < l.ShortPart() && Source(l, Place(l, Data(i, j))) == Data(i, j)
  {
    ShortFacts(l);
    CellBelow(i, j, l.blocks, l.ShortLen());
    DivModUnique(i + j * l.blocks, l.blocks, j, i);
  }

  lemma LongPlace(l: Layout, i: nat)
    requires l.Sound() && l.NumShort() <= i < l.blocks
    ensures
      var c := Data(i, l.ShortLen());
      && l.ShortPart() <= Place(l, c) < l.DataLen() && Source(l, Place(l, c)) == c
  {
    ShortFacts(l);
    assert Place(l, Data(i, l.ShortLen())) == l.ShortPart() + i - l.NumShort();
  }

  lemma EccPlace(l: Layout, i: nat, j: nat)
    requires l.Sound() && i < l.blocks && j < l.ecc
    ensures l.DataLen() <= Place(l, Ecc(i, j)) < l.raw && Source(l, Place(l, Ecc(i, j))) == Ecc(i, j)
  {
    ShortFacts(l);
    CellBelow(i, j, l.blocks, l.ecc);
    DivModUnique(i + j * l.blocks, l.blocks, j, i);
    assert Place(l, Ecc(i, j)) - l.DataLen() == i + j * l.blocks;
  }

  lemma CellBelow(i: nat, j: nat, n: nat, m: nat)
    requires i < n && j < m
    ensures i + j * n < m * n
  {
    MulLe(j + 1, m, n);
  }

  // ----- blocks -----------------------------------------------------------------------------------------------

  /** The blocks cut the data into consecutive stretches that end where the data ends. */
  lemma BlocksFollow(l: Layout, i: nat)
    requires l.Sound() && i < l.blocks
    ensures l.BlockStart(0) == 0 && l.BlockStart(i + 1) == l.BlockStart(i) + l.BlockLen(i)
    ensures l.BlockStart(l.blocks) == l.DataLen()
    ensures l.BlockStart(i + 1) <= l.DataLen()
  {
    ShortFacts(l);
    var s, m := l.ShortLen(), l.blocks - (i + 1);
    assert (i + 1) * s == i * s + s;
    assert l.blocks * s == s * l.blocks;
    assert l.blocks * s == (i + 1) * s + m * s;
    assert m * s >= 0;
  }

  function Block(l: Layout, data: seq<Byte>, i: nat): (b: seq<Byte>)
    requires l.Sound() && i < l.blocks && |data| == l.DataLen()
    ensures |b| == l.BlockLen(i)
  {
    BlocksFollow(l, i);
    data[l.BlockStart(i)..l.BlockStart(i + 1)]
  }

  function Divisor(ecc: nat): (g: Polynomial)
    ensures |g| == ecc
  {
    Generator(ecc)[1..]
  }

  function EccOf(l: Layout, data: seq<Byte>, i: nat): (e: seq<Byte>)
    requires l.Sound() && i < l.blocks && |data| == l.DataLen()
    ensures |e| == l.ecc
  {
    Remainder(Block(l, data, i), Divisor(l.ecc))
  }

  function CellValue(l: Layout, data: seq<Byte>, c: Cell): Byte
    requires l.Sound() && |data| == l.DataLen() && IsCell(l, c)
  {
    if c.Data? then Block(l, data, c.i)[c.j] else EccOf(l, data, c.i)[c.j]
  }

  /** The interleaved codewords. */
  ghost predicate Interleaved(l: Layout, data: seq<Byte>, result: seq<Byte>)
    requires l.Sound() && |data| == l.DataLen()
  {
    && |result| == l.raw
    && forall k :: 0 <= k < l.raw ==> HoldsSource(l, data, k, result[k])
  }

  ghost predicate HoldsSource(l: Layout, data: seq<Byte>, k: nat, b: Byte)
    requires l.Sound() && |data| == l.DataLen() && k < l.raw
  {
    SourceHasPlace(l, k);
    b == CellValue(l, data, Source(l, k))
  }

  /** De-interleaving: the codewords of block i, data first, read back from their places. */
  function ReadBlock(l: Layout, result: seq<Byte>, i: nat): (b: seq<Byte>)
    requires l.Sound() && |result| == l.raw && i < l.blocks
    ensures |b| == l.BlockLen(i) + l.ecc
  {
    seq<Byte>(l.BlockLen(i) + l.ecc, j requires 0 <= j < l.BlockLen(i) + l.ecc => ReadCell(l, result, CellOf(l, i, j)))
  }

  function CellOf(l: Layout, i: nat, j: nat): (c: Cell)
    requires l.Sound() && i < l.blocks && j < l.BlockLen(i) + l.ecc
    ensures IsCell(l, c)
  {
    if j < l.BlockLen(i) then Data(i, j) else Ecc(i, j - l.BlockLen(i))
  }

  function ReadCell(l: Layout, result: seq<Byte>, c: Cell): Byte
    requires l.Sound() && |result| == l.raw && IsCell(l, c)
  {
    PlaceHasSource(l, c);
    result[Place(l, c)]
  }

  /** Every block comes back with its error correction, and the two together are a codeword. */
  lemma BlocksRecovered(l: Layout, data: seq<Byte>, result: seq<Byte>, i: nat)
    requires l.Sound() && |data| == l.DataLen() && Interleaved(l, data, result) && i < l.blocks
    ensures ReadBlock(l, result, i) == Block(l, data, i) + EccOf(l, data, i)
    ensures forall e: nat | e < l.ecc :: Eval(ReadBlock(l, result, i), Power(Two(), e)) == ZeroByte()
  {
    hide Remainder, Generator, Place, Source, Eval, Power, Two;
    var b, w := ReadBlock(l, result, i), Block(l, data, i) + EccOf(l, data, i);
    forall j | 0 <= j < |b|
      ensures b[j] == w[j]
    {
      var c := CellOf(l, i, j);
      PlaceHasSource(l, c);
      assert HoldsSource(l, data, Place(l, c), result[Place(l, c)]);
    }
    assert b == w;
    forall e: nat | e < l.ecc
      ensures Eval(b, Power(Two(), e)) == ZeroByte()
    {
      IsCodeword(Block(l, data, i), l.ecc, e);
    }
  }

  // ----- the code ------------------------------------------------------------------------------------------------

  /** Blocks before i are done; of block i the data up to j, or all of it and the error correction up to e. */
  ghost predicate Before(c: Cell, i: nat, j: nat, e: nat) {
    c.i < i || (c.i == i && if c.Data? then c.j < j else c.j < e)
  }

  ghost predicate Progress(l: Layout, data: seq<Byte>, result: seq<Byte>, i: nat, j: nat, e: nat)
    requires l.Sound() && |data| == l.DataLen()
  {
    && |result| >= l.raw
    && forall k :: 0 <= k < l.raw && Before(Source(l, k), i, j, e) ==> HoldsSource(l, data, k, result[k])
  }

  /** Writing one cell keeps all others. */
  lemma ProgressOne(l: Layout, data: seq<Byte>, r: seq<Byte>, r': seq<Byte>, c: Cell, j: nat, e: nat)
    requires l.Sound() && |data| == l.DataLen() && IsCell(l, c) && |r| == |r'|
    requires Progress(l, data, r, c.i, j, e) && (if c.Data? then c.j == j else c.j == e)
    requires forall k :: 0 <= k < |r| && k != Place(l, c) ==> r'[k] == r[k]
    requires 0 <= Place(l, c) < |r| && r'[Place(l, c)] == CellValue(l, data, c)
    ensures Progress(l, data, r', c.i, if c.Data? then j + 1 else j, if c.Data? then e else e + 1)
  {
    hide Layout.Sound, Layout.ShortLen, Layout.DataLen, Layout.ShortPart, Layout.BlockLen, Layout.BlockStart, Layout.NumShort;
    hide CellValue, Place, Source;
    var j', e' := if c.Data? then j + 1 else j, if c.Data? then e else e + 1;
    forall k | 0 <= k < l.raw && Before(Source(l, k), c.i, j', e')
      ensures HoldsSource(l, data, k, r'[k])
    {
      SourceHasPlace(l, k);
      if k != Place(l, c) {
        assert Source(l, k) != c;
        assert Before(Source(l, k), c.i, j, e);
      } else {
        PlaceHasSource(l, c);
      }
    }
  }

  lemma BlockSlice(l: Layout, data: seq<Byte>, i: nat, j: nat)
    requires l.Sound() && |data| == l.DataLen() && i < l.blocks && j < l.BlockLen(i)
    ensures l.BlockStart(i) + j < l.DataLen() && CellValue(l, data, Data(i, j)) == data[l.BlockStart(i) + j]
  {
    hide Remainder, Generator;
    BlocksFollow(l, i);
  }

  /** Writes one codeword of the result. */
  method PutCell(result: array<Byte>, k: nat, b: Byte, ghost l: Layout, ghost d: seq<Byte>, ghost c: Cell,
                 ghost j: nat, ghost e: nat)
    requires l.Sound() && |d| == l.DataLen() && IsCell(l, c) && result.Length >= l.raw
    requires k == Place(l, c) && k < l.raw && b == CellValue(l, d, c)
    requires Progress(l, d, result[..], c.i, j, e) && (if c.Data? then c.j == j else c.j == e)
    modifies result
    ensures Progress(l, d, result[..], c.i, if c.Data? then j + 1 else j, if c.Data? then e else e + 1)
  {
    hide Layout.Sound, Layout.ShortLen, Layout.DataLen, Layout.ShortPart, Layout.BlockLen, Layout.BlockStart;
    hide CellValue, Place, Source, Progress, IsCell;
    ghost var r := result[..];
    result[k] := b;
    ProgressOne(l, d, r, result[..], c, j, e);
  }

  lemma PlaceIs(l: Layout, i: nat, j: nat)
    requires l.Sound()
    ensures Place(l, Data(i, j)) == Stride(i, j, l.blocks) - if j == l.ShortLen() then l.NumShort() else 0
    ensures Place(l, Ecc(i, j)) == l.DataLen() + Stride(i, j, l.blocks)
  {
  }

  /** Where byte j of block i goes, and what it is. */
  lemma DataCell(l: Layout, d: seq<Byte>, i: nat, j: nat, k: int)
    requires l.Sound() && |d| == l.DataLen() && i < l.blocks && j < l.BlockLen(i)
    requires k == Stride(i, j, l.blocks) - if j == l.ShortLen() then l.NumShort() else 0
    ensures IsCell(l, Data(i, j)) && k == Place(l, Data(i, j)) && 0 <= k < l.raw
    ensures l.BlockStart(i) + j < l.DataLen() && CellValue(l, d, Data(i, j)) == d[l.BlockStart(i) + j]
  {
    hide Place, Stride, CellValue, Source, Layout.Sound, Layout.DataLen, Layout.ShortPart, Layout.BlockLen, Layout.BlockStart;
    hide Layout.ShortLen, Layout.NumShort;
    PlaceHasSource(l, Data(i, j));
    PlaceIs(l, i, j);
    BlockSlice(l, d, i, j);
  }

  method CopyData(data: array<Byte>, l: Layout, ghost d: seq<Byte>, i: nat, dat: nat, result: array<Byte>)
    requires l.Sound() && data.Length >= l.raw && result.Length >= l.raw && data != result
    requires i < l.blocks && dat == l.BlockStart(i) && |d| == l.DataLen() && data[..l.DataLen()] == d
    requires Progress(l, d, result[..], i, 0, 0)
    modifies result
    ensures Progress(l, d, result[..], i, l.BlockLen(i), 0)
  {
    hide Place, Stride, CellValue, Source, Progress, Layout.Sound, Layout.DataLen, Layout.ShortPart, Layout.BlockLen, Layout.BlockStart;
    hide Layout.ShortLen, Layout.NumShort, IsCell, EccOf, Remainder, Block, Divisor;
    var k := i;
    ghost var m := l.DataLen();
    BlockFacts(l, d, i);
    LayoutFacts(l);
    StrideNext(i, 0, l.blocks);
    for j: nat := 0 to l.BlockLen(i)
      invariant Progress(l, d, result[..], i, j, 0)
      invariant j <= l.ShortLen() ==> k == Stride(i, j, l.blocks)
      invariant data[..m] == d
    {
      if j == l.ShortLen() {
        k := k - l.NumShort();
      }
      DataCell(l, d, i, j, k);
      assert data[dat + j] == data[..m][dat + j] == d[dat + j];
      PutCell(result, k, data[dat + j], l, d, Data(i, j), j, 0);
      StrideNext(i, j, l.blocks);
      k := k + l.blocks;
    }
  }

  method CopyEcc(data: array<Byte>, l: Layout, ghost d: seq<Byte>, i: nat, result: array<Byte>)
    requires l.Sound() && data.Length >= l.raw && result.Length >= l.raw && data != result
    requires i < l.blocks && |d| == l.DataLen() && EccFits(l)
    requires data[l.DataLen()..l.DataLen() + l.ecc] == EccOf(l, d, i)
    requires Progress(l, d, result[..], i, l.BlockLen(i), 0)
    modifies result
    ensures Progress(l, d, result[..], i, l.BlockLen(i), l.ecc)
  {
    hide Layout.Sound, Layout.DataLen, Layout.ShortPart, Layout.BlockLen, Layout.BlockStart, Layout.ShortLen;
    hide Place, Stride, Source, Progress, Remainder, Divisor, Block;
    var k := l.DataLen() + i;
    StrideNext(i, 0, l.blocks);
    for j := 0 to l.ecc
      invariant Progress(l, d, result[..], i, l.BlockLen(i), j)
      invariant k == l.DataLen() + Stride(i, j, l.blocks)
    {
      PlaceHasSource(l, Ecc(i, j));
      PlaceIs(l, i, j);
      assert data[l.DataLen() + j] == data[l.DataLen()..l.DataLen() + l.ecc][j];
      PutCell(result, k, data[l.DataLen() + j], l, d, Ecc(i, j), l.BlockLen(i), j);
      StrideNext(i, j, l.blocks);
      k := k + l.blocks;
    }
  }

  /** The work area behind the data is large enough for one block's error correction. */
  ghost predicate EccFits(l: Layout)
    requires l.Sound()
  {
    l.DataLen() + l.ecc <= l.raw
  }

  lemma WorkAreaFits(l: Layout)
    requires l.Sound()
    ensures EccFits(l)
  {
    MulLe(1, l.blocks, l.ecc);
  }

  lemma NextBlock(l: Layout, data: seq<Byte>, r: seq<Byte>, i: nat)
    requires l.Sound() && |data| == l.DataLen() && i < l.blocks && Progress(l, data, r, i, l.BlockLen(i), l.ecc)
    ensures Progress(l, data, r, i + 1, 0, 0)
  {
    hide Layout.Sound, Layout.ShortLen, Layout.DataLen, Layout.ShortPart, Layout.BlockLen, Layout.BlockStart, Layout.NumShort;
    hide CellValue, Source;
    forall k | 0 <= k < l.raw && Before(Source(l, k), i + 1, 0, 0)
      ensures HoldsSource(l, data, k, r[k])
    {
      SourceHasPlace(l, k);
      assert Before(Source(l, k), i, l.BlockLen(i), l.ecc);
    }
  }

  lemma AllBlocks(l: Layout, data: seq<Byte>, r: seq<Byte>)
    requires l.Sound() && |data| == l.DataLen() && Progress(l, data, r, l.blocks, 0, 0)
    ensures Interleaved(l, data, r[..l.raw])
  {
    hide Layout.Sound, Layout.ShortLen, Layout.DataLen, Layout.ShortPart, Layout.BlockLen, Layout.BlockStart, Layout.NumShort;
    hide CellValue, Source;
    forall k | 0 <= k < l.raw
      ensures HoldsSource(l, data, k, r[..l.raw][k])
    {
      SourceHasPlace(l, k);
      assert Before(Source(l, k), l.blocks, 0, 0);
    }
  }

  lemma LayoutFacts(l: Layout)
    requires l.Sound()
    ensures 1 <= l.ecc <= 30 && l.DataLen() + l.ecc <= l.raw && l.BlockStart(0) == 0 && l.blocks > 0
  {
    WorkAreaFits(l);
    BlocksFollow(l, 0);
  }

  lemma BlockFacts(l: Layout, data: seq<Byte>, i: nat)
    requires l.Sound() && i < l.blocks && |data| == l.DataLen()
    ensures l.BlockLen(i) == l.ShortLen() + if i < l.NumShort() then 0 else 1
    ensures l.BlockStart(i) + l.BlockLen(i) == l.BlockStart(i + 1) <= l.DataLen()
    ensures data[l.BlockStart(i)..l.BlockStart(i) + l.BlockLen(i)] == Block(l, data, i)
    ensures EccOf(l, data, i) == Remainder(Block(l, data, i), Divisor(l.ecc))
  {
    BlocksFollow(l, i);
  }

  lemma ArraySlice(a: array<Byte>, m: nat, i: nat, n: nat)
    requires i + n <= m <= a.Length
    ensures a[i..i + n] == a[..m][i..i + n]
  {
  }

  method AddEccAndInterleave(data: array<Byte>, l: Layout, result: array<Byte>)
    requires l.Sound() && data.Length >= l.raw && result.Length >= l.raw && data != result
    modifies data, result
    ensures Interleaved(l, old(data[..l.DataLen()]), result[..l.raw])
    ensures data[..l.DataLen()] == old(data[..l.DataLen()])
  {
    hide Layout.Sound, Layout.ShortLen, Layout.DataLen, Layout.ShortPart, Layout.BlockLen, Layout.BlockStart;
    hide Layout.NumShort, CellValue, Source, Progress, Remainder, Generator, Interleaved, One, Block, EccOf;
    LayoutFacts(l);
    var dataLen := l.DataLen();
    ghost var d := data[..dataLen];
    var rsdiv := new Byte[30](_ => ZeroByte());
    ComputeDivisor(l.ecc, rsdiv);
    ghost var g := Divisor(l.ecc);
    assert rsdiv[..l.ecc] == g;
    hide Divisor;
    var dat := 0;
    NothingYet(l, d, result[..]);
    for i: nat := 0 to l.blocks
      invariant dat == l.BlockStart(i) && data[..dataLen] == d && rsdiv[..l.ecc] == g
      invariant Progress(l, d, result[..], i, 0, 0)
    {
      BlockFacts(l, d, i);
      var datLen := l.ShortLen() + if i < l.NumShort() then 0 else 1;
      ArraySlice(data, dataLen, dat, datLen);
      ghost var before := data[..];
      ComputeRemainder(data, dat, datLen, rsdiv, l.ecc, data, dataLen);
      assert forall k {:trigger data[k]} :: 0 <= k < dataLen ==> data[k] == before[k];
      assert data[..dataLen] == before[..dataLen] == d;
      ArraySlice(data, dataLen, dat, datLen);
      assert data[dataLen..dataLen + l.ecc] == EccOf(l, d, i);
      CopyData(data, l, d, i, dat, result);
      CopyEcc(data, l, d, i, result);
      NextBlock(l, d, result[..], i);
      dat := dat + datLen;
    }
    AllBlocks(l, d, result[..]);
    assert result[..][..l.raw] == result[..l.raw];
  }

  lemma NothingYet(l: Layout, data: seq<Byte>, r: seq<Byte>)
    requires l.Sound() && |data| == l.DataLen() && |r| >= l.raw
    ensures Progress(l, data, r, 0, 0, 0)
  {
    hide CellValue, Source;
  }
}
