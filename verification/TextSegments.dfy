/** Building the segment of a text in a byte buffer. */
module TextSegments {
  import opened Common
  import opened Bits
  import opened Octets
  import opened BitBuffer
  import opened TextCoding

  const INT16_MAX: nat := 32767

  /** Bits for the given number of characters, or -1 when that is too much. */
  function CalcSegmentBitLength(m: Mode, numChars: nat): (n: int)
    requires m != Eci || numChars == 0
  {
    if numChars > 32767 then -1
    else
      var n :=
        match m
        case Numeric => (numChars * 10 + 2) / 3
        case Alphanumeric => (numChars * 11 + 1) / 2
        case Bytes => numChars * 8
        case Kanji => numChars * 13
        case Eci => 24;
      if n > 32767 then -1 else n
  }

  function GroupsLength(c: Coding, n: nat): nat
    requires c.Sound()
  {
    if n == 0 then 0 else c.widths[Least(n, c.size)] + GroupsLength(c, n - Least(n, c.size))
  }

  lemma {:induction false} EncodedLength(c: Coding, d: seq<nat>)
    requires c.Sound()
    ensures |EncodeDigits(c, d)| == GroupsLength(c, |d|)
    decreases |d|
  {
    hide NumberBits, GroupValue;
    if d != [] {
      EncodedLength(c, d[Least(|d|, c.size)..]);
    }
  }

  /** The formula of calcSegmentBitLength is the length of the coded digits. */
  lemma {:induction false} LengthFormula(n: nat)
    ensures forall m :: CodingOf(m).Sound()
    ensures GroupsLength(CodingOf(Numeric), n) == (n * 10 + 2) / 3
    ensures GroupsLength(CodingOf(Alphanumeric), n) == (n * 11 + 1) / 2
    ensures GroupsLength(CodingOf(Bytes), n) == n * 8
  {
    hide Pow2, Coding.Sound;
    CodingsSound();
    if n > 0 {
      LengthFormula(n - 1);
      if n > 1 {
        LengthFormula(n - 2);
      }
      if n > 2 {
        LengthFormula(n - 3);
      }
    }
  }

  lemma TextLength(m: Mode, text: string)
    requires m == Numeric || m == Alphanumeric || m == Bytes
    requires CalcSegmentBitLength(m, |text|) != -1
    ensures CodingOf(m).Sound()
    ensures |EncodeDigits(CodingOf(m), DigitsOfText(m, text))| == CalcSegmentBitLength(m, |text|)
  {
    hide Pow2, Coding.Sound, EncodeDigits, GroupsLength, CodingOf;
    LengthFormula(|text|);
    EncodedLength(CodingOf(m), DigitsOfText(m, text));
  }

  // ----- classification -------------------------------------------------------------------------------------

  method CheckNumeric(text: string) returns (yes: bool)
    ensures yes == IsNumeric(text)
  {
    for i := 0 to |text|
      invariant IsNumeric(text[..i])
    {
      if text[i] < '0' || text[i] > '9' {
        return false;
      }
    }
    return true;
  }

  method CheckAlphanumeric(text: string) returns (yes: bool)
    ensures yes == IsAlphanumeric(text)
  {
    for i := 0 to |text|
      invariant IsAlphanumeric(text[..i])
    {
      if text[i] !in CHARSET {
        return false;
      }
    }
    return true;
  }

  // ----- groups of digits in the buffer ------------------------------------------------------------------------

  /** After i digits: whole groups are in the buffer, the last few digits in the accumulator. */
  ghost predicate Accumulated(c: Coding, d: seq<nat>, i: nat, accum: nat, count: nat, bits: BitString)
    requires c.Sound()
  {
    && count <= i <= |d| && count <= c.size && (i - count) % c.size == 0
    && accum == GroupValue(c.base, d[i - count..i])
    && bits == EncodeDigits(c, d[..i - count])
  }

  lemma AccumulateStarts(c: Coding, d: seq<nat>)
    requires c.Sound()
    ensures Accumulated(c, d, 0, 0, 0, [])
  {
    assert d[..0] == [] && d[0..0] == [];
  }

  lemma AccumulateDigit(c: Coding, d: seq<nat>, i: nat, accum: nat, count: nat, bits: BitString)
    requires c.Sound() && Accumulated(c, d, i, accum, count, bits) && i < |d| && count < c.size
    ensures Accumulated(c, d, i + 1, accum * c.base + d[i], count + 1, bits)
  {
    hide EncodeDigits;
    var p := i - count;
    var h := d[p..i];
    assert d[p..i + 1] == h + [d[i]];
    assert (h + [d[i]])[..count] == h;
    assert i + 1 - (count + 1) == p;
  }

  /** A group that is complete, or the last one, goes to the buffer. */
  lemma AccumulateGroup(c: Coding, d: seq<nat>, i: nat, accum: nat, count: nat, bits: BitString)
    requires c.Sound() && Accumulated(c, d, i, accum, count, bits) && count > 0 && AreDigits(c.base, d)
    ensures accum < Pow2(c.widths[count])
    ensures bits + NumberBits(accum, c.widths[count]) == EncodeDigits(c, d[..i])
    ensures count == c.size ==> Accumulated(c, d, i, 0, 0, bits + NumberBits(accum, c.widths[count]))
  {
    hide NumberBits, Pow2, PowerOf, GroupValue, EncodeDigits;
    var a, g := d[..i - count], d[i - count..i];
    assert a + g == d[..i];
    EncodeAppend(c, a, g);
    OneGroup(c, g);
    GroupRoundTrip(c.base, g);
    if count == c.size {
      NextGroup(i - count, c.size);
      assert GroupValue(c.base, d[i..i]) == 0 by { EmptyGroup(c.base, d[i..i]); }
      assert d[..i - 0] == d[..i];
    }
  }

  lemma EmptyGroup(base: nat, d: seq<nat>)
    requires d == []
    ensures GroupValue(base, d) == 0
  {
  }

  lemma NextGroup(n: nat, size: nat)
    requires size > 0 && n % size == 0
    ensures (n + size) % size == 0
  {
    DivModUnique(n + size, size, n / size + 1, 0);
  }

  /** The accumulated bits never exceed the whole. */
  lemma AccumulatedFits(c: Coding, d: seq<nat>, i: nat, accum: nat, count: nat, bits: BitString)
    requires c.Sound() && Accumulated(c, d, i, accum, count, bits) && 0 < count && (count == c.size || i == |d|)
    ensures |bits| + c.widths[count] <= |EncodeDigits(c, d)|
  {
    hide NumberBits, GroupValue, EncodeDigits;
    var a, g, rest := d[..i - count], d[i - count..i], d[i..];
    assert a + (g + rest) == d;
    EncodeAppend(c, a, g + rest);
    OneGroup(c, g);
    if count == c.size {
      WholeSize(c.size);
      EncodeAppend(c, g, rest);
    } else {
      assert g + rest == g;
    }
  }

  lemma WholeSize(size: nat)
    requires size > 0
    ensures size % size == 0
  {
    DivModUnique(size, size, 1, 0);
  }

  /** The bytes that a number of bits fills. */
  function BytesFor(bitLen: nat): nat {
    (bitLen + 7) / 8
  }

  method MakeNumeric(text: string, buf: array<Byte>) returns (bitLength: nat)
    requires IsNumeric(text) && CalcSegmentBitLength(Numeric, |text|) != -1
    requires BytesFor(CalcSegmentBitLength(Numeric, |text|)) <= buf.Length
    modifies buf
    ensures CodingOf(Numeric).Sound() && bitLength == CalcSegmentBitLength(Numeric, |text|)
    ensures Holds(buf[..BytesFor(bitLength)], bitLength, EncodeDigits(CodingOf(Numeric), DigitsOfText(Numeric, text)))
  {
    hide Holds, Pow2, NumberBits, Accumulated, EncodeDigits, Coding.Sound, AreDigits;
    CodingsSound();
    ghost var c, d := CodingOf(Numeric), DigitsOfText(Numeric, text);
    TextLength(Numeric, text);
    CharsRoundTrip(Numeric, text);
    ghost var whole := CalcSegmentBitLength(Numeric, |text|);
    ghost var m := BytesFor(whole);
    ClearBuffer(buf, BytesFor(CalcSegmentBitLength(Numeric, |text|)));
    bitLength := 0;
    var accumData: nat, accumCount: nat := 0, 0;
    ghost var bits: BitString := [];
    AccumulateStarts(c, d);
    for i: nat := 0 to |text|
      invariant Holds(buf[..m], bitLength, bits) && |bits| == bitLength
      invariant Accumulated(c, d, i, accumData, accumCount, bits) && accumCount < 3
    {
      AccumulateDigit(c, d, i, accumData, accumCount, bits);
      accumData := accumData * 10 + (text[i] as int - '0' as int);
      accumCount := accumCount + 1;
      if accumCount == 3 {
        AccumulateGroup(c, d, i + 1, accumData, 3, bits);
        AccumulatedFits(c, d, i + 1, accumData, 3, bits);
        bitLength := AppendBits(accumData, 10, buf, bitLength, m, bits);
        bits := bits + NumberBits(accumData, 10);
        accumData := 0;
        accumCount := 0;
      }
    }
    assert d[..|text|] == d;
    if accumCount > 0 {
      AccumulateGroup(c, d, |text|, accumData, accumCount, bits);
      AccumulatedFits(c, d, |text|, accumData, accumCount, bits);
      bitLength := AppendBits(accumData, accumCount * 3 + 1, buf, bitLength, m, bits);
    } else {
      AccumulateDone(c, d, accumData, bits);
    }
    HoldsLength(buf[..m], bitLength, EncodeDigits(c, d));
  }

  lemma AccumulateDone(c: Coding, d: seq<nat>, accum: nat, bits: BitString)
    requires c.Sound() && Accumulated(c, d, |d|, accum, 0, bits)
    ensures bits == EncodeDigits(c, d)
  {
    hide EncodeDigits;
    assert d[..|d| - 0] == d;
  }

  lemma HoldsLength(buffer: seq<Byte>, len: nat, bits: BitString)
    requires Holds(buffer, len, bits)
    ensures len == |bits|
  {
  }

  method MakeAlphanumeric(text: string, buf: array<Byte>) returns (bitLength: nat)
    requires IsAlphanumeric(text) && CalcSegmentBitLength(Alphanumeric, |text|) != -1
    requires BytesFor(CalcSegmentBitLength(Alphanumeric, |text|)) <= buf.Length
    modifies buf
    ensures CodingOf(Alphanumeric).Sound() && bitLength == CalcSegmentBitLength(Alphanumeric, |text|)
    ensures
      var bits := EncodeDigits(CodingOf(Alphanumeric), DigitsOfText(Alphanumeric, text));
      Holds(buf[..BytesFor(bitLength)], bitLength, bits)
  {
    hide Holds, Pow2, NumberBits, Accumulated, EncodeDigits, Coding.Sound, AreDigits, PlaceOf;
    CodingsSound();
    ghost var c, d := CodingOf(Alphanumeric), DigitsOfText(Alphanumeric, text);
    TextLength(Alphanumeric, text);
    CharsRoundTrip(Alphanumeric, text);
    ghost var whole := CalcSegmentBitLength(Alphanumeric, |text|);
    ghost var m := BytesFor(whole);
    ClearBuffer(buf, BytesFor(CalcSegmentBitLength(Alphanumeric, |text|)));
    bitLength := 0;
    var accumData: nat, accumCount: nat := 0, 0;
    ghost var bits: BitString := [];
    AccumulateStarts(c, d);
    for i: nat := 0 to |text|
      invariant Holds(buf[..m], bitLength, bits) && |bits| == bitLength
      invariant Accumulated(c, d, i, accumData, accumCount, bits) && accumCount < 2
    {
      AccumulateDigit(c, d, i, accumData, accumCount, bits);
      accumData := accumData * 45 + PlaceOf(text[i], CHARSET);
      accumCount := accumCount + 1;
      if accumCount == 2 {
        AccumulateGroup(c, d, i + 1, accumData, 2, bits);
        AccumulatedFits(c, d, i + 1, accumData, 2, bits);
        bitLength := AppendBits(accumData, 11, buf, bitLength, m, bits);
        bits := bits + NumberBits(accumData, 11);
        accumData := 0;
        accumCount := 0;
      }
    }
    assert d[..|text|] == d;
    if accumCount > 0 {
      AccumulateGroup(c, d, |text|, accumData, accumCount, bits);
      AccumulatedFits(c, d, |text|, accumData, accumCount, bits);
      bitLength := AppendBits(accumData, 6, buf, bitLength, m, bits);
    } else {
      AccumulateDone(c, d, accumData, bits);
    }
    HoldsLength(buf[..m], bitLength, EncodeDigits(c, d));
  }
}
