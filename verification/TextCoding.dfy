/** How text becomes the data bits of a QR Code, and how it is read back. */
module TextCoding {
  import opened Octets
  import opened Common
  import opened Bits
  import opened BitBuffer


  // ----- groups of digits -----------------------------------------------------------------------------------

  /** Digits are taken in groups; a group of k digits is one number of widths[k] bits. */
  datatype Coding = Coding(base: nat, size: nat, widths: seq<nat>) {
    ghost predicate Sound() {
      && base > 0 && size > 0 && |widths| == size + 1
      && forall k: nat :: k <= size ==> PowerOf(base, k) <= Pow2(widths[k])
    }
  }

  function PowerOf(base: nat, k: nat): nat {
    if k == 0 then 1 else PowerOf(base, k - 1) * base
  }

  ghost predicate AreDigits(base: nat, d: seq<nat>) {
    forall i :: 0 <= i < |d| ==> d[i] < base
  }

  /** The number whose digits, most significant first, are given. */
  function GroupValue(base: nat, d: seq<nat>): nat {
    if d == [] then 0 else GroupValue(base, d[..|d| - 1]) * base + d[|d| - 1]
  }

  function DigitsOf(base: nat, n: nat, v: nat): (d: seq<nat>)
    requires base > 0
    ensures |d| == n
  {
    if n == 0 then [] else QuotientNat(v, base); DigitsOf(base, n - 1, v / base) + [v % base]
  }

  lemma {:induction false} GroupRoundTrip(base: nat, d: seq<nat>)
    requires base > 0 && AreDigits(base, d)
    ensures DigitsOf(base, |d|, GroupValue(base, d)) == d && GroupValue(base, d) < PowerOf(base, |d|)
  {
    hide PowerOf;
    if d == [] {
      assert PowerOf(base, 0) == 1 by { PowerStep(base, 0); }
    } else {
      var n := |d| - 1;
      var rest, last := d[..n], d[n];
      GroupRoundTrip(base, rest);
      OneMoreDigit(base, n, GroupValue(base, rest), last);
      hide DigitsOf;
      assert rest + [last] == d;
    }
  }

  lemma PowerStep(base: nat, n: nat)
    ensures PowerOf(base, 0) == 1 && PowerOf(base, n + 1) == PowerOf(base, n) * base
  {
  }

  lemma OneMoreDigit(base: nat, n: nat, v: nat, last: nat)
    requires last < base && v < PowerOf(base, n)
    ensures v * base + last >= 0 && DigitsOf(base, n + 1, v * base + last) == DigitsOf(base, n, v) + [last]
    ensures v * base + last < PowerOf(base, n + 1)
  {
    hide PowerOf;
    DivModUnique(v * base + last, base, v, last);
    MulLe(v + 1, PowerOf(base, n), base);
    PowerStep(base, n);
  }

  function EncodeDigits(c: Coding, d: seq<nat>): BitString
    requires c.Sound()
    decreases |d|
  {
    if d == [] then []
    else
      var k := Least(|d|, c.size);
      NumberBits(GroupValue(c.base, d[..k]), c.widths[k]) + EncodeDigits(c, d[k..])
  }

  /** The digits of count characters at the front of a bit string. */
  function DecodeDigits(c: Coding, count: nat, bits: BitString): Option<seq<nat>>
    requires c.Sound()
  {
    if count == 0 then Some([])
    else
      var k := Least(count, c.size);
      if |bits| < c.widths[k] then None
      else
        match DecodeDigits(c, count - k, bits[c.widths[k]..])
        case None => None
        case Some(rest) => Some(DigitsOf(c.base, k, ValueOf(bits[..c.widths[k]])) + rest)
  }

  lemma EncodeStep(c: Coding, d: seq<nat>, k: nat)
    requires c.Sound() && d != [] && k == Least(|d|, c.size)
    ensures EncodeDigits(c, d) == NumberBits(GroupValue(c.base, d[..k]), c.widths[k]) + EncodeDigits(c, d[k..])
  {
    hide NumberBits, GroupValue;
  }

  lemma DecodeStep(c: Coding, count: nat, head: BitString, bits: BitString, rest: seq<nat>)
    requires c.Sound() && count > 0 && |head| == c.widths[Least(count, c.size)]
    requires DecodeDigits(c, count - Least(count, c.size), bits) == Some(rest)
    ensures DecodeDigits(c, count, head + bits) == Some(DigitsOf(c.base, Least(count, c.size), ValueOf(head)) + rest)
  {
    hide DigitsOf, ValueOf;
    assert (head + bits)[..|head|] == head && (head + bits)[|head|..] == bits;
  }

  lemma SoundAt(c: Coding, k: nat)
    requires c.Sound() && k <= c.size
    ensures c.base > 0 && c.size > 0 && |c.widths| == c.size + 1 && PowerOf(c.base, k) <= Pow2(c.widths[k])
  {
    hide PowerOf, Pow2;
  }

  lemma SplitDigits(base: nat, d: seq<nat>, k: nat)
    requires AreDigits(base, d) && k <= |d|
    ensures AreDigits(base, d[..k]) && AreDigits(base, d[k..]) && d[..k] + d[k..] == d
  {
  }

  /** Decoding returns the encoded digits, whatever follows them. */
  lemma {:induction false} DigitsRoundTrip(c: Coding, d: seq<nat>, tail: BitString)
    requires c.Sound() && AreDigits(c.base, d)
    ensures DecodeDigits(c, |d|, EncodeDigits(c, d) + tail) == Some(d)
    decreases |d|
  {
    if d != [] {
      hide Pow2, PowerOf, GroupValue, DigitsOf, ValueOf, NumberBits, EncodeDigits, DecodeDigits, Coding.Sound, AreDigits;
      var k := Least(|d|, c.size);
      SoundAt(c, 0);
      SoundAt(c, k);
      SplitDigits(c.base, d, k);
      var w, group, rest := c.widths[k], d[..k], d[k..];
      var head := NumberBits(GroupValue(c.base, group), w);
      GroupRoundTrip(c.base, group);
      NumberRoundTrip(GroupValue(c.base, group), w);
      DigitsRoundTrip(c, rest, tail);
      EncodeStep(c, d, k);
      DecodeStep(c, |d|, head, EncodeDigits(c, rest) + tail, rest);
      Grouping(head, EncodeDigits(c, rest), tail);
    }
  }

  lemma {:induction false} EncodeAppend(c: Coding, a: seq<nat>, b: seq<nat>)
    requires c.Sound() && |a| % c.size == 0
    ensures EncodeDigits(c, a + b) == EncodeDigits(c, a) + EncodeDigits(c, b)
    decreases |a|
  {
    hide NumberBits, GroupValue;
    if a == [] {
      assert a + b == b;
    } else {
      WholeGroup(|a|, c.size);
      var head, rest := a[..c.size], a[c.size..];
      assert (a + b)[..c.size] == head && (a + b)[c.size..] == rest + b;
      EncodeAppend(c, rest, b);
    }
  }

  lemma WholeGroup(n: nat, size: nat)
    requires size > 0 && n > 0 && n % size == 0
    ensures size <= n && (n - size) % size == 0
  {
    var q := n / size;
    assert n == q * size;
    if q < 1 {
      MulLe(q, 0, size);
    }
    MulLe(1, q, size);
    DivModUnique(n - size, size, q - 1, 0);
  }

  lemma OneGroup(c: Coding, d: seq<nat>)
    requires c.Sound() && 0 < |d| <= c.size
    ensures EncodeDigits(c, d) == NumberBits(GroupValue(c.base, d), c.widths[|d|])
  {
    hide NumberBits, GroupValue;
    assert d[..|d|] == d;
    assert EncodeDigits(c, d[|d|..]) == [];
  }

  // ----- modes ------------------------------------------------------------------------------------------------

  datatype Mode = Numeric | Alphanumeric | Bytes | Kanji | Eci

  function ModeValue(m: Mode): (v: nat)
    ensures v < 16
  {
    match m
    case Numeric => 1
    case Alphanumeric => 2
    case Bytes => 4
    case Kanji => 8
    case Eci => 7
  }

  /** The width of the character count in a version. */
  function CountBits(m: Mode, version: nat): (w: nat)
    requires 1 <= version <= 40
    ensures w <= 16
  {
    var i := (version + 7) / 17;
    match m
    case Numeric => [10, 12, 14][i]
    case Alphanumeric => [9, 11, 13][i]
    case Bytes => [8, 16, 16][i]
    case Kanji => [8, 10, 12][i]
    case Eci => 0
  }

  const CHARSET: string := "0123456789" + "ABCDEFGHIJKLM" + "NOPQRSTUVWXYZ" + " $%*+-./:"

  /** The characters of a C string: no terminator inside, one byte each. */
  ghost predicate IsText(text: string) {
    forall i :: 0 <= i < |text| ==> 0 < text[i] as int < 256
  }

  predicate IsNumeric(text: string) {
    forall i :: 0 <= i < |text| ==> '0' <= text[i] <= '9'
  }

  predicate IsAlphanumeric(text: string) {
    forall i :: 0 <= i < |text| ==> text[i] in CHARSET
  }

  /** The place of a character in a string that has it. */
  function PlaceOf(c: char, s: string): (k: nat)
    requires c in s
    ensures k < |s| && s[k] == c
  {
    if s[0] == c then 0 else 1 + PlaceOf(c, s[1..])
  }

  /** The mode that is chosen for a text. */
  function ModeOf(text: string): Mode {
    if IsNumeric(text) then Numeric else if IsAlphanumeric(text) then Alphanumeric else Bytes
  }

  function CodingOf(m: Mode): Coding {
    match m
    case Numeric => Coding(10, 3, [0, 4, 7, 10])
    case Alphanumeric => Coding(45, 2, [0, 6, 11])
    case _ => Coding(256, 1, [0, 8])
  }

  lemma CodingsSound()
    ensures forall m :: CodingOf(m).Sound()
  {
    hide Pow2;
    Pow2Values();
    assert Pow2(0) == 1 by { PowZero(); }
    assert PowerOf(10, 1) == 10 && PowerOf(10, 2) == 100 && PowerOf(10, 3) == 1000;
    assert PowerOf(45, 1) == 45 && PowerOf(45, 2) == 2025;
    assert PowerOf(256, 1) == 256;
    forall m: Mode, k: nat | k <= CodingOf(m).size
      ensures PowerOf(CodingOf(m).base, k) <= Pow2(CodingOf(m).widths[k])
    {
      assert k == 0 || k == 1 || k == 2 || k == 3;
    }
  }

  /** Whether every character of a text has a digit in a mode. */
  ghost predicate Suits(m: Mode, text: string) {
    match m
    case Numeric => IsNumeric(text)
    case Alphanumeric => IsAlphanumeric(text)
    case Bytes => IsText(text)
    case _ => false
  }

  function DigitOf(m: Mode, c: char): (d: nat) {
    match m
    case Numeric => if '0' <= c <= '9' then c as int - '0' as int else 0
    case Alphanumeric => if c in CHARSET then PlaceOf(c, CHARSET) else 0
    case _ => c as int
  }

  function DigitsOfText(m: Mode, text: string): (d: seq<nat>)
    ensures |d| == |text|
  {
    seq(|text|, i requires 0 <= i < |text| => DigitOf(m, text[i]))
  }

  function CharOf(m: Mode, d: nat): char {
    match m
    case Numeric => if d < 10 then ('0' as int + d) as char else '?'
    case Alphanumeric => if d < 45 then CHARSET[d] else '?'
    case _ => if d < 256 then d as char else '?'
  }

  function TextOf(m: Mode, d: seq<nat>): (text: string)
    ensures |text| == |d|
  {
    seq(|d|, i requires 0 <= i < |d| => CharOf(m, d[i]))
  }

  lemma CharsRoundTrip(m: Mode, text: string)
    requires Suits(m, text)
    ensures TextOf(m, DigitsOfText(m, text)) == text && AreDigits(CodingOf(m).base, DigitsOfText(m, text))
  {
    hide PlaceOf;
    assert |CHARSET| == 45;
  }

  // ----- the data bits of a text ----------------------------------------------------------------------------------

  /** Mode, character count and characters. */
  function SegmentBits(m: Mode, count: nat, data: BitString, version: nat): BitString
    requires 1 <= version <= 40
  {
    NumberBits(ModeValue(m), 4) + NumberBits(count, CountBits(m, version)) + data
  }

  /** A text is one segment; the empty text is none. */
  function TextBits(text: string, version: nat): BitString
    requires 1 <= version <= 40
  {
    if text == "" then []
    else
      CodingsSound();
      var m := ModeOf(text);
      SegmentBits(m, |text|, EncodeDigits(CodingOf(m), DigitsOfText(m, text)), version)
  }

  /** 0xEC and 0x11 by turns. */
  function PadBits(n: nat, turn: bool): (bits: BitString)
    ensures |bits| == 8 * n
  {
    if n == 0 then [] else NumberBits(if turn then 0x11 else 0xEC, 8) + PadBits(n - 1, !turn)
  }

  /** Terminator, fill to a byte, and pad bytes up to the capacity. */
  function Padded(bits: BitString, codewords: nat): (all: BitString)
    requires |bits| <= 8 * codewords
    ensures |all| == 8 * codewords
  {
    var t := Least(4, 8 * codewords - |bits|);
    var b := (8 - (|bits| + t) % 8) % 8;
    bits + Zeros(t) + Zeros(b) + PadBits(codewords - (|bits| + t + b) / 8, false)
  }

  /** A reader for data bits that start with at most one text segment. */
  function ParseText(bits: BitString, version: nat): Option<string>
    requires 1 <= version <= 40
  {
    if |bits| < 4 then None
    else
      var v := ValueOf(bits[..4]);
      if v == 0 then Some("")
      else if v == 1 then ParseBody(Numeric, bits[4..], version)
      else if v == 2 then ParseBody(Alphanumeric, bits[4..], version)
      else if v == 4 then ParseBody(Bytes, bits[4..], version)
      else None
  }

  function ParseBody(m: Mode, bits: BitString, version: nat): Option<string>
    requires 1 <= version <= 40
  {
    CodingsSound();
    var w := CountBits(m, version);
    if |bits| < w then None
    else
      match DecodeDigits(CodingOf(m), ValueOf(bits[..w]), bits[w..])
      case None => None
      case Some(d) => Some(TextOf(m, d))
  }

  lemma FrontAndRest(head: BitString, rest: BitString)
    ensures (head + rest)[..|head|] == head && (head + rest)[|head|..] == rest
  {
  }

  lemma ParsedBody(m: Mode, head: BitString, rest: BitString, version: nat, digits: seq<nat>)
    requires 1 <= version <= 40 && |head| == CountBits(m, version) && CodingOf(m).Sound()
    requires DecodeDigits(CodingOf(m), ValueOf(head), rest) == Some(digits)
    ensures ParseBody(m, head + rest, version) == Some(TextOf(m, digits))
  {
    hide DecodeDigits, ValueOf, TextOf, CountBits, CodingOf, Coding.Sound;
    FrontAndRest(head, rest);
  }

  lemma BodyRoundTrip(text: string, m: Mode, version: nat, tail: BitString)
    requires Suits(m, text) && 1 <= version <= 40 && |text| < Pow2(CountBits(m, version))
    ensures CodingOf(m).Sound()
    ensures
      var body := NumberBits(|text|, CountBits(m, version)) + EncodeDigits(CodingOf(m), DigitsOfText(m, text));
      ParseBody(m, body + tail, version) == Some(text)
  {
    hide Pow2, NumberBits, EncodeDigits, DecodeDigits, ValueOf, DigitsOfText, TextOf, CountBits, CodingOf, ParseBody;
    CodingsSound();
    var w := CountBits(m, version);
    var digits := DigitsOfText(m, text);
    var head, data := NumberBits(|text|, w), EncodeDigits(CodingOf(m), digits);
    Grouping(head, data, tail);
    FrontAndRest(head, data + tail);
    NumberRoundTrip(|text|, w);
    CharsRoundTrip(m, text);
    DigitsRoundTrip(CodingOf(m), digits, tail);
    ParsedBody(m, head, data + tail, version, digits);
  }

  /** Reading the data bits of any text that fits its count field gives the text back, whatever follows. */
  lemma TextRoundTrips(text: string, version: nat, tail: BitString)
    requires IsText(text) && 1 <= version <= 40 && |text| < Pow2(CountBits(ModeOf(text), version))
    requires text == "" ==> |tail| >= 4 && tail[..4] == Zeros(4)
    ensures ParseText(TextBits(text, version) + tail, version) == Some(text)
  {
    hide Pow2, EncodeDigits, DigitsOfText, CountBits, CodingOf, ParseBody;
    Pow2Values();
    if text == "" {
      assert [] + tail == tail;
      ZeroBits(4);
      NumberRoundTrip(0, 4);
    } else {
      CodingsSound();
      var m := ModeOf(text);
      var head := NumberBits(ModeValue(m), 4);
      var body := NumberBits(|text|, CountBits(m, version)) + EncodeDigits(CodingOf(m), DigitsOfText(m, text));
      var bits := TextBits(text, version) + tail;
      assert bits == head + (body + tail);
      assert bits[..4] == head && bits[4..] == body + tail;
      NumberRoundTrip(ModeValue(m), 4);
      BodyRoundTrip(text, m, version, tail);
    }
  }
}
