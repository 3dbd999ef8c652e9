/** The whole encoder in one method: from a text to a finished symbol that reads back as the text. */
module QrGenerator {
  import FormatInfo
  import opened Common
  import opened Octets
  import opened Grid
  import opened Interleave
  import opened Placement
  import opened Masking
  import opened TextCoding
  import opened QrEncoder
  import opened QrSymbol
  import opened FunctionModules
  import opened FunctionCount
  import opened FunctionPatterns
  import opened FunctionCode

  // ----- parameters of a version and level ---------------------------------------------------------------------------

  /** The tables of ECC lengths and block counts, by version and level. */
  datatype Tables = Tables(eccLen: (nat, nat) -> nat, numBlocks: (nat, nat) -> nat) {
    function EccTotal(v: nat, e: nat): nat {
      eccLen(v, e) * numBlocks(v, e)
    }

    /** ECC leaves room for data in every version and level. */
    ghost predicate Usable() {
      forall v: nat, e: nat {:trigger EccTotal(v, e)} | 1 <= v <= 40 && e < 4 ::
        0 < numBlocks(v, e) && 1 <= eccLen(v, e) <= 30 && EccTotal(v, e) < RawCodewords(v)
    }

    /** getNumDataCodewords. */
    function NumDataCodewords(v: nat, e: nat): nat {
      if EccTotal(v, e) <= RawCodewords(v) then RawCodewords(v) - EccTotal(v, e) else 0
    }

    function LayoutOf(v: nat, e: nat): Layout {
      Layout(numBlocks(v, e), eccLen(v, e), RawCodewords(v))
    }
  }

  function RawCodewords(version: nat): nat {
    if RawDataModules(version) < 0 then 0 else RawDataModules(version) / 8
  }

  lemma CodewordsFit(version: nat)
    requires 1 <= version <= 40
    ensures 0 <= 8 * RawCodewords(version) <= RawDataModules(version) < 8 * RawCodewords(version) + 8
    ensures RawCodewords(version) <= BufferLen(version)
    ensures 8 * RawCodewords(version) <= Free(Side(version), FunctionMap(version), Steps(Side(version)))
  {
    hide Free, Steps, FunctionMap, RawDataModules, FreeCells;
    FreeIsRaw(version);
    FreeCellsSize(version);
    FreeInGrid(version);
  }

  lemma FreeInGrid(version: nat)
    requires 1 <= version <= 40
    ensures RawDataModules(version) <= Side(version) * Side(version)
  {
    var a := version / 7 + 2;
    assert Side(version) * Side(version) == 16 * (version * version) + 136 * version + 289;
    assert (16 * version + 128) * version == 16 * (version * version) + 128 * version;
    if version >= 2 {
      assert (25 * a - 10) * a >= 40 * a;
    }
  }

  lemma CapacitySound(tables: Tables)
    requires tables.Usable()
    ensures SoundCapacity((v: nat, e: nat) => tables.NumDataCodewords(v, e))
  {
    hide BufferLen, RawCodewords, Tables.EccTotal;
    forall v: nat, e: nat | 1 <= v <= 40 && e < 4
      ensures 0 < tables.NumDataCodewords(v, e) <= BufferLen(v)
    {
      CodewordsFit(v);
      assert tables.EccTotal(v, e) < RawCodewords(v);
    }
  }

  lemma LayoutSound(tables: Tables, v: nat, e: nat)
    requires tables.Usable() && 1 <= v <= 40 && e < 4
    ensures
      var l := tables.LayoutOf(v, e);
      l.Sound() && l.raw == RawCodewords(v) && l.DataLen() == tables.NumDataCodewords(v, e) > 0
  {
    hide RawCodewords;
    assert tables.EccTotal(v, e) < RawCodewords(v);
  }

  /** Format modules are function modules of every version. */
  lemma FormatIsMarked(version: nat)
    requires 1 <= version <= 40
    ensures MarksFormat(Side(version), FunctionMap(version))
  {
    hide Area, FormatBitAt;
    var n := Side(version);
    forall i | 0 <= i < Area(n) && IsFormat(n, i)
      ensures FunctionMap(version)[i]
    {
      AtOfIndex(n, i);
      FormatInCorners(n, i % n, i / n);
    }
  }

  // ----- the encoder ----------------------------------------------------------------------------------------------------

  /** The finished grid is what its own mask and format bits make of it once it is unmasked. */
  ghost predicate IsCandidate(version: nat, level: nat, mask: nat, final: Modules)
    requires 1 <= version <= 40 && mask < 8 && |final| == Area(Side(version))
  {
    var n, functions, fmt := Side(version), FunctionMap(version), FormatInfo.Formats(level);
    Candidate(n, functions, fmt, Masked(n, functions, final, mask), mask) == final
  }

  /** No mask has a lower penalty on the same modules, and no lower-numbered one an equal penalty. */
  ghost predicate IsBest(version: nat, level: nat, mask: nat, final: Modules)
    requires 1 <= version <= 40 && mask < 8 && |final| == Area(Side(version))
  {
    var n, functions, fmt := Side(version), FunctionMap(version), FormatInfo.Formats(level);
    BestOf(n, functions, fmt, Masked(n, functions, final, mask), mask, 8)
  }

  /** Every function module outside the format areas shows its pattern. */
  ghost predicate ShowsPatterns(version: nat, final: Modules)
    requires 1 <= version <= 40 && |final| == Area(Side(version))
  {
    var n := Side(version);
    forall x: nat, y: nat | x < n && y < n && IsFunction(version, x, y) && FormatBitAt(n, x, y) == -1 ::
      Black(n, final, x, y) == Painted(version, x, y, true)
  }

  /** The format modules hold the bits of a level and a mask, in both copies. */
  ghost predicate ShowsFormat(version: nat, level: nat, mask: nat, final: Modules)
    requires 1 <= version <= 40 && |final| == Area(Side(version))
  {
    var n := Side(version);
    forall x: nat, y: nat | x < n && y < n && FormatBitAt(n, x, y) != -1 ::
      Black(n, final, x, y) == (FormatBitAt(n, x, y) == 15 || FormatInfo.FormatBits(level, mask)[FormatBitAt(n, x, y)])
  }

  lemma FormatShows(version: nat, level: nat, mask: nat, final: Modules)
    requires 1 <= version <= 40 && mask < 8 && |final| == Area(Side(version)) && IsCandidate(version, level, mask, final)
    ensures ShowsFormat(version, level, mask, final)
  {
    hide Area, At, Masked, FormatBitAt, FunctionMap, FormatInfo.FormatBits;
    var n := Side(version);
    forall x: nat, y: nat | x < n && y < n && FormatBitAt(n, x, y) != -1
      ensures Black(n, final, x, y) ==
              (FormatBitAt(n, x, y) == 15 || FormatInfo.FormatBits(level, mask)[FormatBitAt(n, x, y)])
    {
      AtUnique(n, x, y);
    }
  }

  /** A symbol shows one level and one mask. */
  lemma OneFormat(version: nat, level: nat, mask: nat, level': nat, mask': nat, final: Modules)
    requires 1 <= version <= 40 && level < 4 && mask < 8 && level' < 4 && mask' < 8 && |final| == Area(Side(version))
    requires ShowsFormat(version, level, mask, final) && ShowsFormat(version, level', mask', final)
    ensures level == level' && mask == mask'
  {
    hide Area, At, FormatBitAt, FormatInfo.FormatBits;
    var n, a, b := Side(version), FormatInfo.FormatBits(level, mask), FormatInfo.FormatBits(level', mask');
    forall k: nat | k < 15
      ensures a[k] == b[k]
    {
      var x, y := FirstCopy(k).0, FirstCopy(k).1;
      CopiesShow(n, k);
      assert Black(n, final, x, y) == a[k] && Black(n, final, x, y) == b[k];
    }
    FormatInfo.FormatTells(level, mask, level', mask');
  }

  /** A reader that takes level and mask from the symbol. */
  ghost function ReadFinished(tables: Tables, version: nat, g: Modules): Option<string>
    requires tables.Usable() && 1 <= version <= 40 && |g| == Area(Side(version))
  {
    if exists level: nat, mask: nat :: level < 4 && mask < 8 && ShowsFormat(version, level, mask, g) then
      var level: nat, mask: nat :| level < 4 && mask < 8 && ShowsFormat(version, level, mask, g);
      LayoutSound(tables, version, level);
      CodewordsFit(version);
      ReadSymbol(Side(version), version, FunctionMap(version), tables.LayoutOf(version, level), mask, g)
    else None
  }

  lemma ReadsWithoutHints(tables: Tables, version: nat, level: nat, mask: nat, g: Modules, text: string)
    requires tables.Usable() && 1 <= version <= 40 && level < 4 && mask < 8 && |g| == Area(Side(version))
    requires ShowsFormat(version, level, mask, g) && tables.LayoutOf(version, level).Sound()
    requires 8 * RawCodewords(version) <= Free(Side(version), FunctionMap(version), Steps(Side(version)))
    requires ReadSymbol(Side(version), version, FunctionMap(version), tables.LayoutOf(version, level), mask, g) == Some(text)
    ensures ReadFinished(tables, version, g) == Some(text)
  {
    hide ShowsFormat, ReadSymbol, Free, FunctionMap, RawCodewords, Area, Layout.Sound, Layout.DataLen, Tables.NumDataCodewords;
    var level': nat, mask': nat :| level' < 4 && mask' < 8 && ShowsFormat(version, level', mask', g) &&
      ReadFinished(tables, version, g) ==
      (LayoutSound(tables, version, level'); CodewordsFit(version);
       ReadSymbol(Side(version), version, FunctionMap(version), tables.LayoutOf(version, level'), mask', g));
    OneFormat(version, level, mask, level', mask', g);
  }

  /** Masking and format bits leave the patterns as they were drawn. */
  lemma PatternsShow(version: nat, fmt: nat -> seq<bool>, bits: BitString, drawn: Modules, finished: Modules, mask: nat)
    requires 1 <= version <= 40 && Masking.Sound(fmt) && mask < 8
    requires DrawnTo(Side(version), FunctionMap(version), bits, Steps(Side(version)), drawn)
    requires FunctionCode.Drawn(version, drawn, finished)
    ensures ShowsPatterns(version, Candidate(Side(version), FunctionMap(version), fmt, finished, mask))
  {
    hide Area, At, Steps, DrawnTo, FunctionMap, Painted, IsFunction, Masked, Formatted;
    var n, marks := Side(version), FunctionMap(version);
    var final := Candidate(n, marks, fmt, finished, mask);
    forall x: nat, y: nat | x < n && y < n && IsFunction(version, x, y) && FormatBitAt(n, x, y) == -1
      ensures Black(n, final, x, y) == Painted(version, x, y, true)
    {
      var i := At(n, x, y);
      FunctionAt(version, x, y);
      MarksStay(n, marks, bits, drawn, i);
      MaskSparesFunctions(n, marks, finished, mask, i);
      FormatSpares(n, fmt(mask), Masked(n, marks, finished, mask), x, y);
      assert Black(n, drawn, x, y);
      assert Black(n, finished, x, y) == Painted(version, x, y, true);
      assert final[i] == finished[i];
    }
  }

  lemma FormatSpares(n: nat, bits: BitString, g: Modules, x: nat, y: nat)
    requires IsSide(n) && |bits| == 15 && |g| == Area(n) && x < n && y < n && FormatBitAt(n, x, y) == -1
    ensures Formatted(n, bits, g)[At(n, x, y)] == g[At(n, x, y)]
  {
    hide Area, At, FormatBitAt;
    AtUnique(n, x, y);
  }

  /** From the codewords in the buffer to the finished symbol. */
  method DrawSymbol(text: string, tempBuffer: array<Byte>, qrcode: array<Byte>, version: nat, level: nat, requested: int,
                    tables: Tables) returns (mask: nat)
    requires IsText(text) && 1 <= version <= 40 && level < 4 && -1 <= requested <= 7 && tables.Usable()
    requires qrcode.Length >= BufferLen(version) && tempBuffer.Length >= BufferLen(version) && tempBuffer != qrcode
    requires
      var count := tables.NumDataCodewords(version, level);
      && TextFits(text, version, count) && count <= qrcode.Length
      && CodewordBits(qrcode[..count]) == Padded(TextBits(text, version), count)
    modifies tempBuffer, qrcode
    ensures mask < 8 && (requested >= 0 ==> mask == requested) && IsGrid(qrcode[..], Side(version))
    ensures IsCandidate(version, level, mask, ModulesOf(qrcode[..], Side(version)))
    ensures ShowsPatterns(version, ModulesOf(qrcode[..], Side(version)))
    ensures requested == -1 ==> IsBest(version, level, mask, ModulesOf(qrcode[..], Side(version)))
    ensures ShowsFormat(version, level, mask, ModulesOf(qrcode[..], Side(version)))
    ensures ReadFinished(tables, version, ModulesOf(qrcode[..], Side(version))) == Some(text)
    ensures tables.LayoutOf(version, level).Sound()
    ensures 8 * RawCodewords(version) <= Free(Side(version), FunctionMap(version), Steps(Side(version)))
    ensures
      ReadSymbol(Side(version), version, FunctionMap(version), tables.LayoutOf(version, level), mask,
                 ModulesOf(qrcode[..], Side(version))) == Some(text)
  {
    hide BufferLen, RawCodewords, TextFits, Padded, TextBits, CodewordBits, Layout.Sound, Layout.DataLen;
    hide Interleaved, DrawnTo, ReadSymbol, ModulesOf, FunctionMap, Free, Steps, Area, ByteValue, Candidate, MarksFormat;
    hide FunctionCode.Drawn, ShowsPatterns, ShowsFormat, ReadFinished, Masking.Sound, Tables.Usable, BestOf, Tables.NumDataCodewords;
    var n, l := Side(version), tables.LayoutOf(version, level);
    ghost var fmt := FormatInfo.Formats(level);
    LayoutSound(tables, version, level);
    CodewordsFit(version);
    BufferArea(version);
    ghost var data := qrcode[..l.DataLen()];
    AddEccAndInterleave(qrcode, l, tempBuffer);
    ghost var result := tempBuffer[..l.raw];
    InitializeFunctionModules(version, qrcode);
    DrawCodewords(tempBuffer, l.raw, qrcode, n);
    ghost var drawn := ModulesOf(qrcode[..], n);
    DrawWhiteFunctionModules(qrcode, version);
    ghost var finished := ModulesOf(qrcode[..], n);
    InitializeFunctionModules(version, tempBuffer);
    FormatIsMarked(version);
    mask := ChooseMask(tempBuffer, qrcode, requested, level, n);
    forall i | 0 <= i < Area(n) && !FunctionMap(version)[i]
      ensures finished[i] == drawn[i]
    {
      DrawnKeeps(version, drawn, finished, i);
    }
    FormatsSound(level);
    PatternsShow(version, fmt, CodewordBits(result), drawn, finished, mask);
    FinalIsBest(n, FunctionMap(version), fmt, finished, mask, ModulesOf(qrcode[..], n));
    FormatShows(version, level, mask, ModulesOf(qrcode[..], n));
    SymbolReadsBack(text, version, n, FunctionMap(version), l, data, result, drawn, finished, fmt, mask);
    ReadsWithoutHints(tables, version, level, mask, ModulesOf(qrcode[..], n), text);
  }

  lemma BufferArea(version: nat)
    ensures BufferLen(version) == (Area(Side(version)) + 7) / 8 + 1
  {
  }

  /**
   * For every text: a symbol is made exactly when some version in range holds the text; it has the smallest such
   * version, and reading it back gives the text.
   */
  method EncodeSymbol(text: string, tempBuffer: array<Byte>, qrcode: array<Byte>, ecl: nat, minVersion: nat,
                      maxVersion: nat, requested: int, boost: bool, tables: Tables)
    returns (ok: bool, version: nat, level: nat, mask: nat)
    requires IsText(text) && ecl < 4 && 1 <= minVersion <= maxVersion <= 40 && -1 <= requested <= 7
    requires tables.Usable()
    requires qrcode.Length >= BufferLen(maxVersion) && tempBuffer.Length >= BufferLen(maxVersion) && tempBuffer != qrcode
    modifies tempBuffer, qrcode
    ensures ok <==> exists v: nat :: minVersion <= v <= maxVersion && TextFits(text, v, tables.NumDataCodewords(v, ecl))
    ensures ok ==> minVersion <= version <= maxVersion && ecl <= level < 4 && mask < 8
    ensures ok ==> forall v: nat :: minVersion <= v < version ==> !TextFits(text, v, tables.NumDataCodewords(v, ecl))
    ensures ok ==> TextFits(text, version, tables.NumDataCodewords(version, level)) && (!boost ==> level == ecl)
    ensures ok && boost ==> forall e: nat :: level < e < 4 ==> !TextFits(text, version, tables.NumDataCodewords(version, e))
    ensures ok ==> IsGrid(qrcode[..], Side(version)) && (requested >= 0 ==> mask == requested)
    ensures ok ==> IsCandidate(version, level, mask, ModulesOf(qrcode[..], Side(version)))
    ensures ok ==> ShowsPatterns(version, ModulesOf(qrcode[..], Side(version)))
    ensures ok && requested == -1 ==> IsBest(version, level, mask, ModulesOf(qrcode[..], Side(version)))
    ensures ok ==> ShowsFormat(version, level, mask, ModulesOf(qrcode[..], Side(version)))
    ensures ok ==> ReadFinished(tables, version, ModulesOf(qrcode[..], Side(version))) == Some(text)
    ensures ok ==> tables.LayoutOf(version, level).Sound()
    ensures ok ==> 8 * RawCodewords(version) <= Free(Side(version), FunctionMap(version), Steps(Side(version)))
    ensures ok ==>
      ReadSymbol(Side(version), version, FunctionMap(version), tables.LayoutOf(version, level), mask,
                 ModulesOf(qrcode[..], Side(version))) == Some(text)
    ensures !ok ==> qrcode[0] == ZeroByte()
  {
    hide RawCodewords, TextFits, Padded, TextBits, CodewordBits, Layout.Sound, Tables.Usable, Masking.Sound;
    hide ReadSymbol, ModulesOf, FunctionMap, Free, Steps, Tables.NumDataCodewords, BufferLen, IsBest, IsCandidate, Area;
    hide ShowsPatterns, ShowsFormat, ReadFinished;
    var cap: Capacity := (v: nat, e: nat) => tables.NumDataCodewords(v, e);
    CapacitySound(tables);
    mask := 0;
    ok, version, level := EncodeText(text, tempBuffer, qrcode, ecl, minVersion, maxVersion, boost, cap);
    forall v: nat | minVersion <= v <= maxVersion
      ensures TextFits(text, v, cap(v, ecl)) == TextFits(text, v, tables.NumDataCodewords(v, ecl))
    {
    }
    if ok {
      forall e: nat | e < 4
        ensures TextFits(text, version, cap(version, e)) == TextFits(text, version, tables.NumDataCodewords(version, e))
      {
      }
      BufferGrows(version, maxVersion);
      mask := DrawSymbol(text, tempBuffer, qrcode, version, level, requested, tables);
    }
  }
}
