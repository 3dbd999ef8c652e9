/** Choosing the version and filling the data codewords, up to the capacity. */
module QrEncoder {
  import opened Common
  import opened Bits
  import opened Octets
  import opened BitBuffer
  import opened TextCoding
  import opened TextSegments

  /** A segment: its data bits are the first bitLength bits of the data bytes. */
  datatype Segment = Segment(mode: Mode, numChars: nat, bitLength: nat, data: seq<Byte>) {
    ghost predicate Sound() {
      numChars <= 32767 && bitLength <= 32767 && bitLength <= 8 * |data|
    }

    ghost function DataBits(): (bits: BitString)
      requires Sound()
      ensures |bits| == bitLength
    {
      CodewordBits(data)[..bitLength]
    }
  }

  ghost predicate AllSound(segs: seq<Segment>) {
    forall i :: 0 <= i < |segs| ==> segs[i].Sound()
  }

  /** The concatenated segments. */
  ghost function SegmentsBits(segs: seq<Segment>, version: nat): BitString
    requires AllSound(segs) && 1 <= version <= 40
  {
    if segs == [] then []
    else
      var last := segs[|segs| - 1];
      SegmentsBits(segs[..|segs| - 1], version) + SegmentBits(last.mode, last.numChars, last.DataBits(), version)
  }

  /** Every segment's length fits its count field. */
  ghost predicate CountsFit(segs: seq<Segment>, version: nat)
    requires 1 <= version <= 40
  {
    forall i :: 0 <= i < |segs| ==> segs[i].numChars < Pow2(CountBits(segs[i].mode, version))
  }

  /** The segments fit a version with the given number of data codewords. */
  ghost predicate Fits(segs: seq<Segment>, version: nat, codewords: nat)
    requires AllSound(segs) && 1 <= version <= 40
  {
    CountsFit(segs, version) && |SegmentsBits(segs, version)| <= 32767 && |SegmentsBits(segs, version)| <= 8 * codewords
  }

  lemma {:induction false} PrefixShorter(segs: seq<Segment>, version: nat, k: nat)
    requires AllSound(segs) && 1 <= version <= 40 && k <= |segs|
    ensures |SegmentsBits(segs[..k], version)| <= |SegmentsBits(segs, version)|
    decreases |segs|
  {
    hide SegmentBits;
    if k < |segs| {
      var rest := segs[..|segs| - 1];
      PrefixShorter(rest, version, k);
      assert rest[..k] == segs[..k];
    } else {
      assert segs[..k] == segs;
    }
  }

  lemma OneMoreSegment(segs: seq<Segment>, version: nat, i: nat)
    requires AllSound(segs) && 1 <= version <= 40 && i < |segs|
    ensures
      var s := segs[i];
      && SegmentsBits(segs[..i + 1], version) ==
         SegmentsBits(segs[..i], version) + SegmentBits(s.mode, s.numChars, s.DataBits(), version)
      && |SegmentBits(s.mode, s.numChars, s.DataBits(), version)| == 4 + CountBits(s.mode, version) + s.bitLength
  {
    assert segs[..i + 1][..i] == segs[..i];
  }

  /** -1 when a length does not fit its field or the total exceeds 16 bits; otherwise the total. */
  method GetTotalBits(segs: seq<Segment>, version: nat) returns (total: int)
    requires AllSound(segs) && 1 <= version <= 40
    ensures
      var n := |SegmentsBits(segs, version)|;
      total == if CountsFit(segs, version) && n <= 32767 then n else -1
  {
    hide SegmentsBits, SegmentBits, Pow2, CountBits;
    total := 0;
    assert segs[..0] == [];
    assert SegmentsBits(segs[..0], version) == [] by { NoSegments(version); }
    for i: nat := 0 to |segs|
      invariant total == |SegmentsBits(segs[..i], version)| <= 32767
      invariant forall k :: 0 <= k < i ==> segs[k].numChars < Pow2(CountBits(segs[k].mode, version))
    {
      var ccbits := CountBits(segs[i].mode, version);
      if segs[i].numChars >= Pow2(ccbits) {
        return -1;
      }
      OneMoreSegment(segs, version, i);
      PrefixShorter(segs, version, i + 1);
      total := total + (4 + ccbits + segs[i].bitLength);
      if total > INT16_MAX {
        return -1;
      }
    }
    assert segs[..|segs|] == segs;
  }

  lemma NoSegments(version: nat)
    requires 1 <= version <= 40
    ensures SegmentsBits([], version) == []
  {
  }

  // ----- version and level ---------------------------------------------------------------------------------

  /** Data codewords for each version and error correction level, as tabulated. */
  type Capacity = (nat, nat) -> nat

  function BufferLen(version: nat): (n: nat)
    ensures n > 0
  {
    ((4 * version + 17) * (4 * version + 17) + 7) / 8 + 1
  }

  ghost predicate SoundCapacity(cap: Capacity) {
    forall v: nat, e: nat :: 1 <= v <= 40 && e < 4 ==> 0 < cap(v, e) <= BufferLen(v)
  }

  /** The smallest version in the range that holds the segments, if there is one. */
  method ChooseVersion(segs: seq<Segment>, ecl: nat, minVersion: nat, maxVersion: nat, cap: Capacity)
    returns (version: nat, usedBits: nat, found: bool)
    requires AllSound(segs) && ecl < 4 && 1 <= minVersion <= maxVersion <= 40
    ensures found ==> minVersion <= version <= maxVersion && Fits(segs, version, cap(version, ecl))
    ensures found ==> usedBits == |SegmentsBits(segs, version)|
    ensures
      var tried := if found then version else maxVersion + 1;
      forall v: nat :: minVersion <= v < tried ==> !Fits(segs, v, cap(v, ecl))
  {
    hide SegmentsBits, CountsFit;
    version := minVersion;
    while true
      invariant minVersion <= version <= maxVersion
      invariant forall v: nat :: minVersion <= v < version ==> !Fits(segs, v, cap(v, ecl))
      decreases maxVersion - version
    {
      var dataCapacityBits := cap(version, ecl) * 8;
      var dataUsedBits := GetTotalBits(segs, version);
      if dataUsedBits != -1 && dataUsedBits <= dataCapacityBits {
        return version, dataUsedBits, true;
      }
      if version >= maxVersion {
        return version, 0, false;
      }
      version := version + 1;
    }
  }

  /** The level after boosting: the highest above Low that still holds the data, or the requested one. */
  method BoostLevel(ecl: nat, boost: bool, usedBits: nat, version: nat, cap: Capacity) returns (level: nat)
    requires ecl < 4 && usedBits <= 8 * cap(version, ecl)
    ensures ecl <= level < 4 && usedBits <= 8 * cap(version, level)
    ensures if boost then forall e: nat :: level < e < 4 ==> usedBits > 8 * cap(version, e) else level == ecl
  {
    level := ecl;
    for i: nat := 1 to 4
      invariant level < 4 && usedBits <= 8 * cap(version, level)
      invariant !boost ==> level == ecl
      invariant boost ==> level < i || level == ecl
      invariant boost && i > ecl ==> level >= ecl
      invariant boost ==> forall e: nat :: level < e < i ==> usedBits > 8 * cap(version, e)
    {
      if boost && usedBits <= cap(version, i) * 8 {
        level := i;
      }
    }
  }

  // ----- filling the codewords ----------------------------------------------------------------------------------

  /** Appends the data bits of a segment, one at a time. */
  method AppendData(seg: Segment, buffer: array<Byte>, bitLen: nat, ghost m: nat, ghost bits: BitString)
    returns (bitLen': nat)
    requires seg.Sound() && m <= buffer.Length && bitLen + seg.bitLength <= 8 * m && Holds(buffer[..m], bitLen, bits)
    modifies buffer
    ensures bitLen' == bitLen + seg.bitLength && Holds(buffer[..m], bitLen', bits + seg.DataBits())
  {
    hide Holds, NumberBits, CodewordBits, Pow2;
    bitLen' := bitLen;
    assert bits + seg.DataBits()[..0] == bits;
    for j: nat := 0 to seg.bitLength
      invariant bitLen' == bitLen + j && Holds(buffer[..m], bitLen', bits + seg.DataBits()[..j])
    {
      BitOfCodeword(seg.data, j);
      var bit := if seg.data[j / 8][7 - j % 8] then 1 else 0;
      OneBit(bit);
      ghost var sofar := bits + seg.DataBits()[..j];
      bitLen' := AppendBits(bit, 1, buffer, bitLen', m, sofar);
      assert sofar + [seg.DataBits()[j]] == bits + seg.DataBits()[..j + 1];
    }
    assert seg.DataBits()[..seg.bitLength] == seg.DataBits();
  }

  lemma OneBit(b: nat)
    requires b < 2
    ensures NumberBits(b, 1) == [b == 1] && b < Pow2(1)
  {
    Pow2Values();
    assert NumberBits(b / 2, 0) == [];
  }

  method AppendSegment(seg: Segment, version: nat, buffer: array<Byte>, bitLen: nat, ghost m: nat, ghost bits: BitString)
    returns (bitLen': nat)
    requires seg.Sound() && 1 <= version <= 40 && seg.numChars < Pow2(CountBits(seg.mode, version))
    requires m <= buffer.Length && Holds(buffer[..m], bitLen, bits)
    requires bitLen + 4 + CountBits(seg.mode, version) + seg.bitLength <= 8 * m
    modifies buffer
    ensures
      var all := bits + SegmentBits(seg.mode, seg.numChars, seg.DataBits(), version);
      bitLen' == |all| && Holds(buffer[..m], bitLen', all)
  {
    hide Holds, NumberBits, CodewordBits, Pow2, CountBits;
    assert ModeValue(seg.mode) < Pow2(4) by { Pow2Values(); }
    assert bitLen == |bits| by { HoldsLength(buffer[..m], bitLen, bits); }
    bitLen' := AppendBits(ModeValue(seg.mode), 4, buffer, bitLen, m, bits);
    ghost var b1 := bits + NumberBits(ModeValue(seg.mode), 4);
    bitLen' := AppendBits(seg.numChars, CountBits(seg.mode, version), buffer, bitLen', m, b1);
    ghost var b2 := b1 + NumberBits(seg.numChars, CountBits(seg.mode, version));
    bitLen' := AppendData(seg, buffer, bitLen', m, b2);
    assert b2 + seg.DataBits() == bits + SegmentBits(seg.mode, seg.numChars, seg.DataBits(), version);
  }

  /** Terminator, fill bits and pad bytes. */
  method AppendPadding(codewords: nat, buffer: array<Byte>, bitLen: nat, ghost m: nat, ghost bits: BitString)
    requires m <= buffer.Length && codewords <= m && Holds(buffer[..m], bitLen, bits) && bitLen <= 8 * codewords
    modifies buffer
    ensures |bits| == bitLen && Holds(buffer[..m], 8 * codewords, Padded(bits, codewords))
  {
    hide Holds, NumberBits, CodewordBits, Pow2, Zeros, PadBits;
    HoldsLength(buffer[..m], bitLen, bits);
    var dataCapacityBits := codewords * 8;
    var terminatorBits := dataCapacityBits - bitLen;
    if terminatorBits > 4 {
      terminatorBits := 4;
    }
    ghost var t := terminatorBits;
    SmallPowers();
    var length := AppendBits(0, terminatorBits, buffer, bitLen, m, bits);
    ZeroBits(terminatorBits);
    ghost var b1 := bits + Zeros(t);
    var fill := (8 - length % 8) % 8;
    FillFits(length, codewords);
    ZeroBits(fill);
    length := AppendBits(0, fill, buffer, length, m, b1);
    ghost var b2 := b1 + Zeros(fill);
    assert length % 8 == 0;
    ghost var pads: BitString := [];
    ghost var k: nat := 0;
    ghost var total: nat := codewords - length / 8;
    var padByte := 0xEC;
    assert b2 + pads == b2;
    PadStarts(total);
    while length < dataCapacityBits
      invariant length % 8 == 0 && length <= dataCapacityBits && k == total - (codewords - length / 8)
      invariant padByte == if k % 2 == 0 then 0xEC else 0x11
      invariant Holds(buffer[..m], length, b2 + pads) && pads + PadBits(total - k, k % 2 == 1) == PadBits(total, false)
    {
      ghost var more := NumberBits(padByte, 8);
      length := AppendBits(padByte, 8, buffer, length, m, b2 + pads);
      PadStep(total, k, pads);
      assert (b2 + pads) + more == b2 + (pads + more);
      pads := pads + more;
      padByte := if padByte == 0xEC then 0x11 else 0xEC;
      k := k + 1;
    }
    PadEnds(pads, total);
    assert b2 + PadBits(total, false) == Padded(bits, codewords);
  }

  lemma SmallPowers()
    ensures forall n: nat :: 0 < Pow2(n) && 0xEC < Pow2(8) && 0x11 < Pow2(8)
  {
    Pow2Values();
  }

  lemma FillFits(length: nat, codewords: nat)
    requires length <= 8 * codewords
    ensures length + (8 - length % 8) % 8 <= 8 * codewords && (length + (8 - length % 8) % 8) % 8 == 0
  {
  }

  lemma PadStarts(total: nat)
    ensures [] + PadBits(total - 0, false) == PadBits(total, false)
  {
  }

  lemma PadStep(total: nat, k: nat, pads: BitString)
    requires k < total && pads + PadBits(total - k, k % 2 == 1) == PadBits(total, false)
    ensures
      var more := NumberBits(if k % 2 == 0 then 0xEC else 0x11, 8);
      (pads + more) + PadBits(total - (k + 1), (k + 1) % 2 == 1) == PadBits(total, false)
  {
    hide NumberBits;
    var more := NumberBits(if k % 2 == 0 then 0xEC else 0x11, 8);
    assert PadBits(total - k, k % 2 == 1) == more + PadBits(total - (k + 1), (k + 1) % 2 == 1);
    Grouping(pads, more, PadBits(total - (k + 1), (k + 1) % 2 == 1));
  }

  lemma PadEnds(pads: BitString, total: nat)
    requires pads + PadBits(0, total % 2 == 1) == PadBits(total, false)
    ensures pads == PadBits(total, false)
  {
    assert pads + [] == pads;
  }

  /** The data part of encodeSegmentsAdvanced: on success the data codewords are in the buffer. */
  method EncodeSegments(segs: seq<Segment>, ecl: nat, minVersion: nat, maxVersion: nat, boost: bool, cap: Capacity,
                        qrcode: array<Byte>) returns (ok: bool, version: nat, level: nat)
    requires AllSound(segs) && ecl < 4 && 1 <= minVersion <= maxVersion <= 40 && SoundCapacity(cap)
    requires qrcode.Length >= BufferLen(maxVersion)
    modifies qrcode
    ensures ok <==> exists v: nat :: minVersion <= v <= maxVersion && Fits(segs, v, cap(v, ecl))
    ensures ok ==> minVersion <= version <= maxVersion && Fits(segs, version, cap(version, ecl))
    ensures ok ==> forall v: nat :: minVersion <= v < version ==> !Fits(segs, v, cap(v, ecl))
    ensures ok ==> ecl <= level < 4 && Fits(segs, version, cap(version, level))
    ensures ok && boost ==> forall e: nat :: level < e < 4 ==> !Fits(segs, version, cap(version, e))
    ensures ok && !boost ==> level == ecl
    ensures ok ==> qrcode.Length >= cap(version, level)
    ensures ok ==> CodewordBits(qrcode[..cap(version, level)]) == Padded(SegmentsBits(segs, version), cap(version, level))
    ensures !ok ==> qrcode[0] == ZeroByte()
  {
    var usedBits, found;
    version, usedBits, found := ChooseVersion(segs, ecl, minVersion, maxVersion, cap);
    if !found {
      qrcode[0] := ZeroByte();
      return false, 0, 0;
    }
    level := BoostLevel(ecl, boost, usedBits, version, cap);
    BufferGrows(version, maxVersion);
    FillCodewords(segs, version, cap(version, level), qrcode);
    ok := true;
  }

  lemma BufferGrows(v: nat, w: nat)
    requires v <= w
    ensures BufferLen(v) <= BufferLen(w)
  {
    var a, b := 4 * v + 17, 4 * w + 17;
    MulLe(a, b, a);
    MulLe(a, b, b);
  }

  method FillCodewords(segs: seq<Segment>, version: nat, codewords: nat, qrcode: array<Byte>)
    requires AllSound(segs) && 1 <= version <= 40 && Fits(segs, version, codewords)
    requires codewords <= BufferLen(version) <= qrcode.Length
    modifies qrcode
    ensures CodewordBits(qrcode[..codewords]) == Padded(SegmentsBits(segs, version), codewords)
  {
    hide Holds, NumberBits, CodewordBits, Pow2, SegmentsBits, SegmentBits, CountBits, Padded, BufferLen;
    var m := BufferLen(version);
    ClearBuffer(qrcode, m);
    var bitLen: nat := 0;
    ghost var bits: BitString := [];
    assert segs[..0] == [];
    assert SegmentsBits(segs[..0], version) == [] by { NoSegments(version); }
    for i: nat := 0 to |segs|
      invariant bits == SegmentsBits(segs[..i], version) && |bits| == bitLen && Holds(qrcode[..m], bitLen, bits)
    {
      OneMoreSegment(segs, version, i);
      PrefixShorter(segs, version, i + 1);
      ghost var s := segs[i];
      bitLen := AppendSegment(segs[i], version, qrcode, bitLen, m, bits);
      bits := bits + SegmentBits(s.mode, s.numChars, s.DataBits(), version);
    }
    assert segs[..|segs|] == segs;
    AppendPadding(codewords, qrcode, bitLen, m, bits);
    PrefixBits(qrcode[..m], codewords, Padded(bits, codewords));
    assert qrcode[..m][..codewords] == qrcode[..codewords];
  }

  lemma PrefixBits(buffer: seq<Byte>, n: nat, bits: BitString)
    requires Holds(buffer, 8 * n, bits) && n <= |buffer|
    ensures CodewordBits(buffer[..n]) == bits
  {
    forall i | 0 <= i < 8 * n
      ensures CodewordBits(buffer[..n])[i] == bits[i]
    {
      assert CodewordBits(buffer)[i] == (bits + Zeros(8 * |buffer| - 8 * n))[i];
    }
  }

  // ----- text ------------------------------------------------------------------------------------------------

  /** A text fits a version with the given number of data codewords. */
  ghost predicate TextFits(text: string, version: nat, codewords: nat)
    requires 1 <= version <= 40
  {
    && (text != "" ==> |text| < Pow2(CountBits(ModeOf(text), version)))
    && |TextBits(text, version)| <= 32767 && |TextBits(text, version)| <= 8 * codewords
  }

  /** The segment that stands for a text. */
  ghost predicate IsTextSegment(seg: Segment, text: string) {
    && seg.Sound() && seg.mode == ModeOf(text) && seg.numChars == |text|
    && CodingOf(seg.mode).Sound() && seg.DataBits() == EncodeDigits(CodingOf(seg.mode), DigitsOfText(seg.mode, text))
  }

  lemma TextSegmentBits(seg: Segment, text: string, version: nat, codewords: nat)
    requires text != "" && IsTextSegment(seg, text) && 1 <= version <= 40
    ensures AllSound([seg]) && SegmentsBits([seg], version) == TextBits(text, version)
    ensures Fits([seg], version, codewords) <==> TextFits(text, version, codewords)
  {
    hide EncodeDigits, DigitsOfText, CodewordBits, Pow2, Coding.Sound, CountBits, NumberBits, CodingOf, IsNumeric;
    hide IsAlphanumeric;
    assert [seg][..0] == [];
    NoSegments(version);
    var bits := SegmentBits(seg.mode, seg.numChars, seg.DataBits(), version);
    assert [] + bits == bits;
    assert SegmentsBits([seg], version) == bits;
  }

  lemma EmptyTextBits(version: nat, codewords: nat)
    requires 1 <= version <= 40
    ensures AllSound([]) && SegmentsBits([], version) == TextBits("", version)
    ensures Fits([], version, codewords) <==> TextFits("", version, codewords)
  {
  }

  /** A text that is too long for the buffer or the bit counter fits no version. */
  lemma TooLong(text: string, maxVersion: nat, cap: Capacity, ecl: nat)
    requires text != "" && 1 <= maxVersion <= 40 && SoundCapacity(cap) && ecl < 4
    requires
      var n := CalcSegmentBitLength(ModeOf(text), |text|);
      n == -1 || BytesFor(n) > BufferLen(maxVersion)
    ensures forall v: nat :: 1 <= v <= maxVersion ==> !TextFits(text, v, cap(v, ecl))
  {
    hide Pow2, Coding.Sound, EncodeDigits, GroupsLength, CodingOf, CountBits, NumberBits, BufferLen, IsNumeric, IsAlphanumeric;
    hide DigitsOfText;
    var m := ModeOf(text);
    LengthFormula(|text|);
    EncodedLength(CodingOf(m), DigitsOfText(m, text));
    forall v: nat | 1 <= v <= maxVersion
      ensures !TextFits(text, v, cap(v, ecl))
    {
      BufferGrows(v, maxVersion);
      assert |TextBits(text, v)| >= GroupsLength(CodingOf(m), |text|);
    }
  }

  /** Byte mode: eight bits for every character. */
  lemma {:induction false} OctetsEncode(d: seq<nat>, data: seq<Byte>)
    requires |data| == |d| && forall i :: 0 <= i < |d| ==> data[i] == OctetOf(d[i])
    ensures CodingOf(Bytes).Sound() && CodewordBits(data) == EncodeDigits(CodingOf(Bytes), d)
  {
    hide Pow2, Coding.Sound, NumberBit, OctetOf, CodewordBits, EncodeDigits;
    CodingsSound();
    if d == [] {
      assert EncodeDigits(CodingOf(Bytes), d) == [] by { NoDigits(d); }
    } else {
      OctetsEncode(d[1..], data[1..]);
      FirstOctet(d[0], data);
      hide CodewordBits;
      EncodeOne(d);
    }
  }

  lemma NoDigits(d: seq<nat>)
    requires d == [] && CodingOf(Bytes).Sound()
    ensures EncodeDigits(CodingOf(Bytes), d) == []
  {
  }

  lemma EncodeOne(d: seq<nat>)
    requires d != [] && CodingOf(Bytes).Sound()
    ensures EncodeDigits(CodingOf(Bytes), d) == NumberBits(d[0], 8) + EncodeDigits(CodingOf(Bytes), d[1..])
  {
    hide Coding.Sound, NumberBits;
    EncodeStep(CodingOf(Bytes), d, 1);
    assert d[..1] == [d[0]];
    assert [d[0]][..0] == [];
    assert GroupValue(256, []) == 0;
  }

  lemma FirstOctet(v: nat, data: seq<Byte>)
    requires |data| > 0 && data[0] == OctetOf(v)
    ensures CodewordBits(data) == NumberBits(v, 8) + CodewordBits(data[1..])
  {
    hide Pow2, NumberBit, NumberBits;
    var u, w := CodewordBits(data), NumberBits(v, 8) + CodewordBits(data[1..]);
    forall i | 0 <= i < |u|
      ensures u[i] == w[i]
    {
      if i < 8 {
        NumberBitAt(v, 8, 7 - i);
      } else {
        assert (i - 8) / 8 == i / 8 - 1 && (i - 8) % 8 == i % 8;
      }
    }
  }

  lemma HeldData(buffer: seq<Byte>, m: nat, len: nat, bits: BitString)
    requires m <= |buffer| && Holds(buffer[..m], len, bits)
    ensures len <= 8 * |buffer| && CodewordBits(buffer)[..len] == bits
  {
    forall i | 0 <= i < len
      ensures CodewordBits(buffer)[i] == bits[i]
    {
      assert CodewordBits(buffer[..m])[i] == (bits + Zeros(8 * m - len))[i];
    }
  }

  lemma SegmentOfBuffer(m: Mode, text: string, bitLength: nat, buffer: seq<Byte>)
    requires m == ModeOf(text) && CodingOf(m).Sound() && CalcSegmentBitLength(m, |text|) == bitLength
    requires BytesFor(bitLength) <= |buffer|
    requires Holds(buffer[..BytesFor(bitLength)], bitLength, EncodeDigits(CodingOf(m), DigitsOfText(m, text)))
    ensures IsTextSegment(Segment(m, |text|, bitLength, buffer), text)
  {
    hide EncodeDigits, DigitsOfText, CodewordBits, Pow2, Coding.Sound, CodingOf, Holds, IsNumeric, IsAlphanumeric;
    HeldData(buffer, BytesFor(bitLength), bitLength, EncodeDigits(CodingOf(m), DigitsOfText(m, text)));
  }

  /** Copies the characters as bytes. */
  method CopyText(text: string, tempBuffer: array<Byte>)
    requires IsText(text) && |text| <= tempBuffer.Length
    modifies tempBuffer
    ensures CodingOf(Bytes).Sound()
    ensures CodewordBits(tempBuffer[..|text|]) == EncodeDigits(CodingOf(Bytes), DigitsOfText(Bytes, text))
  {
    hide EncodeDigits, CodewordBits, Pow2, Coding.Sound, CodingOf, OctetOf;
    ghost var d := DigitsOfText(Bytes, text);
    for i: nat := 0 to |text|
      invariant forall k {:trigger tempBuffer[k]} :: 0 <= k < i ==> tempBuffer[k] == OctetOf(d[k])
    {
      tempBuffer[i] := OctetOf(text[i] as int);
    }
    OctetsEncode(d, tempBuffer[..|text|]);
  }

  lemma WholeBytes(buffer: seq<Byte>)
    ensures Holds(buffer, 8 * |buffer|, CodewordBits(buffer)) && BytesFor(8 * |buffer|) == |buffer|
  {
    assert CodewordBits(buffer) + Zeros(0) == CodewordBits(buffer);
  }

  /** The data part of encodeText: the text becomes one segment in the temporary buffer. */
  method MakeTextSegment(text: string, tempBuffer: array<Byte>, bufLen: nat) returns (ok: bool, seg: Segment)
    requires text != "" && IsText(text) && bufLen <= tempBuffer.Length
    modifies tempBuffer
    ensures ok ==> IsTextSegment(seg, text)
    ensures
      var n := CalcSegmentBitLength(ModeOf(text), |text|);
      ok <==> n != -1 && BytesFor(n) <= bufLen
  {
    hide EncodeDigits, DigitsOfText, CodewordBits, Pow2, Coding.Sound, NumberBits, CodingOf, Holds, IsNumeric;
    hide IsAlphanumeric, OctetOf, IsTextSegment;
    seg := Segment(Bytes, 0, 0, []);
    var bitLength: nat;
    var numeric := CheckNumeric(text);
    if numeric {
      var n := CalcSegmentBitLength(Numeric, |text|);
      if n == -1 || BytesFor(n) > bufLen {
        return false, seg;
      }
      bitLength := MakeNumeric(text, tempBuffer);
      assert tempBuffer[..][..BytesFor(bitLength)] == tempBuffer[..BytesFor(bitLength)];
      SegmentOfBuffer(Numeric, text, bitLength, tempBuffer[..]);
      return true, Segment(Numeric, |text|, bitLength, tempBuffer[..]);
    }
    var alphanumeric := CheckAlphanumeric(text);
    if alphanumeric {
      var n := CalcSegmentBitLength(Alphanumeric, |text|);
      if n == -1 || BytesFor(n) > bufLen {
        return false, seg;
      }
      bitLength := MakeAlphanumeric(text, tempBuffer);
      assert tempBuffer[..][..BytesFor(bitLength)] == tempBuffer[..BytesFor(bitLength)];
      SegmentOfBuffer(Alphanumeric, text, bitLength, tempBuffer[..]);
      return true, Segment(Alphanumeric, |text|, bitLength, tempBuffer[..]);
    }
    if |text| > bufLen {
      return false, seg;
    }
    CopyText(text, tempBuffer);
    var n := CalcSegmentBitLength(Bytes, |text|);
    if n == -1 {
      return false, seg;
    }
    WholeBytes(tempBuffer[..|text|]);
    assert tempBuffer[..][..|text|] == tempBuffer[..|text|];
    SegmentOfBuffer(Bytes, text, n, tempBuffer[..]);
    return true, Segment(Bytes, |text|, n, tempBuffer[..]);
  }

  /** encodeText up to the data codewords: it succeeds exactly when some version in the range can hold the text. */
  method EncodeText(text: string, tempBuffer: array<Byte>, qrcode: array<Byte>, ecl: nat, minVersion: nat,
                    maxVersion: nat, boost: bool, cap: Capacity) returns (ok: bool, version: nat, level: nat)
    requires IsText(text) && ecl < 4 && 1 <= minVersion <= maxVersion <= 40 && SoundCapacity(cap)
    requires qrcode.Length >= BufferLen(maxVersion) && tempBuffer.Length >= BufferLen(maxVersion) && tempBuffer != qrcode
    modifies tempBuffer, qrcode
    ensures ok <==> exists v: nat :: minVersion <= v <= maxVersion && TextFits(text, v, cap(v, ecl))
    ensures ok ==> minVersion <= version <= maxVersion && TextFits(text, version, cap(version, ecl))
    ensures ok ==> forall v: nat :: minVersion <= v < version ==> !TextFits(text, v, cap(v, ecl))
    ensures ok ==> ecl <= level < 4 && TextFits(text, version, cap(version, level))
    ensures ok && boost ==> forall e: nat :: level < e < 4 ==> !TextFits(text, version, cap(version, e))
    ensures ok && !boost ==> level == ecl
    ensures ok ==> qrcode.Length >= cap(version, level)
    ensures ok ==> CodewordBits(qrcode[..cap(version, level)]) == Padded(TextBits(text, version), cap(version, level))
    ensures !ok ==> qrcode[0] == ZeroByte()
  {
    hide TextFits, TextBits, CodewordBits, Padded, Fits, IsTextSegment, SegmentsBits, BufferLen, Holds;
    if text == "" {
      forall v: nat, n: nat | 1 <= v <= 40
        ensures SegmentsBits([], v) == TextBits("", v) && (Fits([], v, n) <==> TextFits("", v, n))
      {
        EmptyTextBits(v, n);
      }
      ok, version, level := EncodeSegments([], ecl, minVersion, maxVersion, boost, cap, qrcode);
      return;
    }
    var made, seg := MakeTextSegment(text, tempBuffer, BufferLen(maxVersion));
    if !made {
      TooLong(text, maxVersion, cap, ecl);
      qrcode[0] := ZeroByte();
      return false, 0, 0;
    }
    forall v: nat, n: nat | 1 <= v <= 40
      ensures AllSound([seg]) && SegmentsBits([seg], v) == TextBits(text, v) && (Fits([seg], v, n) <==> TextFits(text, v, n))
    {
      TextSegmentBits(seg, text, v, n);
    }
    assert AllSound([seg]) by { TextSegmentBits(seg, text, 1, 0); }
    ok, version, level := EncodeSegments([seg], ecl, minVersion, maxVersion, boost, cap, qrcode);
  }

  /** The padded codewords of an accepted text read back as the text. */
  lemma CodewordsReadBack(text: string, version: nat, codewords: nat)
    requires IsText(text) && 1 <= version <= 40 && TextFits(text, version, codewords) && codewords > 0
    ensures ParseText(Padded(TextBits(text, version), codewords), version) == Some(text)
  {
    hide TextBits, ParseText, CountBits, IsNumeric, IsAlphanumeric, PadBits;
    var bits := TextBits(text, version);
    var t := Least(4, 8 * codewords - |bits|);
    var b := (8 - (|bits| + t) % 8) % 8;
    FillFits(|bits| + t, codewords);
    var tail := Zeros(t) + (Zeros(b) + PadBits(codewords - (|bits| + t + b) / 8, false));
    assert Padded(bits, codewords) == bits + tail;
    if text == "" {
      EmptyText(version);
      assert tail[..4] == Zeros(4);
      assert 0 < Pow2(CountBits(ModeOf(text), version));
    }
    TextRoundTrips(text, version, tail);
  }

  lemma EmptyText(version: nat)
    requires 1 <= version <= 40
    ensures TextBits("", version) == []
  {
  }
}
