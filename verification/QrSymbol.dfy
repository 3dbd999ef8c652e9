/** From the finished symbol back to the text: the encoder's stages undone in reverse order. */
module QrSymbol {
  import opened Common
  import opened Octets
  import opened Grid
  import opened Interleave
  import opened Placement
  import opened Masking
  import opened TextCoding
  import opened QrEncoder

  // ----- reading codewords out of bits --------------------------------------------------------------------------

  function CodewordsOf(bits: BitString, n: nat): (data: seq<Byte>)
    requires |bits| >= 8 * n
    ensures |data| == n
  {
    seq<Byte>(n, k requires 0 <= k < n => ByteAt(bits, k))
  }

  function ByteAt(bits: BitString, k: nat): Byte
    requires |bits| >= 8 * k + 8
  {
    seq(8, j requires 0 <= j < 8 => bits[8 * k + 7 - j])
  }

  lemma BytesOfCodewords(data: seq<Byte>, bits: BitString)
    requires |bits| >= 8 * |data| && bits[..8 * |data|] == CodewordBits(data)
    ensures CodewordsOf(bits, |data|) == data
  {
    forall k | 0 <= k < |data|
      ensures CodewordsOf(bits, |data|)[k] == data[k]
    {
      forall j | 0 <= j < 8
        ensures ByteAt(bits, k)[j] == data[k][j]
      {
        var i := 8 * k + 7 - j;
        assert i / 8 == k && i % 8 == 7 - j;
        assert bits[i] == bits[..8 * |data|][i];
      }
    }
  }

  /** The data codewords of the first count blocks, one block after the other. */
  function Gathered(l: Layout, result: seq<Byte>, count: nat): seq<Byte>
    requires l.Sound() && |result| == l.raw && count <= l.blocks
  {
    if count == 0 then []
    else Gathered(l, result, count - 1) + ReadBlock(l, result, count - 1)[..l.BlockLen(count - 1)]
  }

  lemma DataOfBlock(l: Layout, data: seq<Byte>, result: seq<Byte>, i: nat)
    requires l.Sound() && |data| == l.DataLen() && Interleaved(l, data, result) && i < l.blocks
    ensures ReadBlock(l, result, i)[..l.BlockLen(i)] == Block(l, data, i)
  {
    hide Interleaved, Layout.Sound, Layout.DataLen, Layout.BlockLen, Layout.BlockStart, ReadBlock, EccOf, Block;
    BlocksRecovered(l, data, result, i);
    FrontOf(Block(l, data, i), EccOf(l, data, i));
  }

  lemma FrontOf(a: seq<Byte>, b: seq<Byte>)
    ensures (a + b)[..|a|] == a
  {
  }

  lemma PrefixStep(data: seq<Byte>, i: nat, n: nat)
    requires i + n <= |data|
    ensures data[..i] + data[i..i + n] == data[..i + n]
  {
  }

  lemma {:induction false} GatheredIsData(l: Layout, data: seq<Byte>, result: seq<Byte>, count: nat)
    requires l.Sound() && |data| == l.DataLen() && Interleaved(l, data, result) && count <= l.blocks
    ensures l.BlockStart(count) <= l.DataLen() && Gathered(l, result, count) == data[..l.BlockStart(count)]
  {
    hide Interleaved, Layout.Sound, Layout.DataLen, Layout.BlockLen, Layout.BlockStart, ReadBlock, Block, EccOf;
    if count == 0 {
      LayoutFacts(l);
    } else {
      GatheredIsData(l, data, result, count - 1);
      DataOfBlock(l, data, result, count - 1);
      BlockFacts(l, data, count - 1);
      PrefixStep(data, l.BlockStart(count - 1), l.BlockLen(count - 1));
    }
  }

  // ----- the reader -------------------------------------------------------------------------------------------------

  /** Unmasks, reads the free modules in scan order, collects the data codewords and parses the text. */
  function ReadSymbol(n: nat, version: nat, functions: Modules, l: Layout, mask: nat, g: Modules): Option<string>
    requires IsSide(n) && 1 <= version <= 40 && |functions| == |g| == Area(n) && l.Sound() && mask < 8
    requires 8 * l.raw <= Free(n, functions, Steps(n))
  {
    var bits := ReadBits(n, functions, Masked(n, functions, g, mask), Steps(n));
    var codewords := Gathered(l, CodewordsOf(bits, l.raw), l.blocks);
    ParseText(CodewordBits(codewords), version)
  }

  /** Only the modules left free by the marks are read. */
  lemma {:induction false} ReadsOnlyFree(n: nat, marks: Modules, g: Modules, h: Modules, t: nat)
    requires IsSide(n) && |marks| == |g| == |h| == Area(n) && t <= Steps(n)
    requires forall i :: 0 <= i < Area(n) && !marks[i] ==> g[i] == h[i]
    ensures ReadBits(n, marks, g, t) == ReadBits(n, marks, h, t)
  {
    hide Area, Visited, Steps;
    if t > 0 {
      ReadsOnlyFree(n, marks, g, h, t - 1);
    }
  }

  /** Unmasking a finished candidate leaves the drawn codeword modules. */
  lemma UnmaskedAgrees(n: nat, functions: Modules, fmt: nat -> seq<bool>, g: Modules, mask: nat, i: nat)
    requires IsSide(n) && |functions| == |g| == Area(n) && mask < 8 && |fmt(mask)| == 15
    requires MarksFormat(n, functions) && i < Area(n) && !functions[i]
    ensures Masked(n, functions, Candidate(n, functions, fmt, g, mask), mask)[i] == g[i]
  {
    hide Area, FormatBitAt, Inverts;
    assert !IsFormat(n, i);
  }

  /**
   * For every text, version, block layout, function map and mask: the symbol made from the padded text, whose
   * function modules may be redrawn freely, reads back as the text.
   */
  lemma SymbolReadsBack(text: string, version: nat, n: nat, functions: Modules, l: Layout, data: seq<Byte>,
                        result: seq<Byte>, drawn: Modules, finished: Modules, fmt: nat -> seq<bool>, mask: nat)
    requires IsText(text) && 1 <= version <= 40 && IsSide(n) && |functions| == Area(n) && l.Sound() && mask < 8
    requires Masking.Sound(fmt) && MarksFormat(n, functions) && 8 * l.raw <= Free(n, functions, Steps(n))
    requires |data| == l.DataLen() > 0 && TextFits(text, version, |data|)
    requires CodewordBits(data) == Padded(TextBits(text, version), |data|)
    requires Interleaved(l, data, result)
    requires DrawnTo(n, functions, CodewordBits(result), Steps(n), drawn)
    requires |finished| == Area(n) && forall i :: 0 <= i < Area(n) && !functions[i] ==> finished[i] == drawn[i]
    ensures ReadSymbol(n, version, functions, l, mask, Candidate(n, functions, fmt, finished, mask)) == Some(text)
  {
    hide ParseText, Padded, TextBits, CodewordBits, Interleaved, DrawnTo, ReadBits, Masked, Candidate, Gathered, Area;
    hide Layout.Sound, Layout.DataLen, Steps, Free, MarksFormat, TextFits, Layout.BlockStart;
    var final := Candidate(n, functions, fmt, finished, mask);
    var plain := Masked(n, functions, final, mask);
    SizeOfDrawn(n, functions, CodewordBits(result), drawn);
    forall i | 0 <= i < Area(n) && !functions[i]
      ensures plain[i] == drawn[i]
    {
      UnmaskedAgrees(n, functions, fmt, finished, mask, i);
    }
    ReadsOnlyFree(n, functions, plain, drawn, Steps(n));
    SizeOfResult(l, data, result);
    ReadBack(n, functions, result, drawn);
    var bits := ReadBits(n, functions, drawn, Steps(n));
    BytesOfCodewords(result, bits);
    GatheredIsData(l, data, result, l.blocks);
    AllBlocksGathered(l);
    assert data[..|data|] == data;
    CodewordsReadBack(text, version, |data|);
  }

  lemma SizeOfDrawn(n: nat, marks: Modules, bits: BitString, g: Modules)
    requires IsSide(n) && |marks| == Area(n) && DrawnTo(n, marks, bits, Steps(n), g)
    ensures |g| == Area(n)
  {
  }

  lemma SizeOfResult(l: Layout, data: seq<Byte>, result: seq<Byte>)
    requires l.Sound() && |data| == l.DataLen() && Interleaved(l, data, result)
    ensures |result| == l.raw
  {
  }

  lemma AllBlocksGathered(l: Layout)
    requires l.Sound()
    ensures l.BlockStart(l.blocks) == l.DataLen()
  {
    BlocksFollow(l, 0);
  }
}
