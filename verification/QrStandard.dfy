/** The numbers of ISO/IEC 18004 that the encoder works with, written out. */
module QrStandard {
  import opened Bits
  import opened Octets
  import opened BitBuffer
  import opened TextCoding
  import opened Common
  import opened GaloisField
  import opened ReedSolomon
  import opened Interleave
  import opened Grid
  import FunctionModules
  import FunctionPatterns
  import FormatInfo
  import Masking

  // ----- mask patterns -------------------------------------------------------------------------------------------

  /** The eight patterns of figure 21 as tiles; # stands for an inverted module. */
  function Tile(mask: nat): (rows: seq<string>)
    requires mask < 8
    ensures |rows| == 4 || |rows| == 6
    ensures forall k :: 0 <= k < |rows| ==> |rows[k]| == 6
  {
    match mask
    case 0 => ["#.#.#.", ".#.#.#", "#.#.#.", ".#.#.#", "#.#.#.", ".#.#.#"]
    case 1 => ["######", "......", "######", "......", "######", "......"]
    case 2 => ["#..#..", "#..#..", "#..#..", "#..#..", "#..#..", "#..#.."]
    case 3 => ["#..#..", "..#..#", ".#..#.", "#..#..", "..#..#", ".#..#."]
    case 4 => ["###...", "###...", "...###", "...###"]
    case 5 => ["######", "#.....", "#..#..", "#.#.#.", "#..#..", "#....."]
    case 6 => ["######", "###...", "##.##.", "#.#.#.", "#.##.#", "#...##"]
    case _ => ["#.#.#.", "...###", "#...##", ".#.#.#", "###...", ".###.."]
  }

  lemma TileCell(mask: nat, x: nat, y: nat)
    requires mask < 8 && x < 6 && y < |Tile(mask)|
    ensures Masking.Inverts(mask, x, y) <==> Tile(mask)[y][x] == '#'
  {
    if mask < 3 {
      TileOfLines(mask, x, y);
    } else if mask == 3 {
      TileOfSums(x, y);
    } else if mask == 4 {
      TileOfHalves(x, y);
    } else if mask == 5 {
      TileOfProduct(x, y);
    } else if mask == 6 {
      TileOfParity(x, y);
    } else {
      TileOfSumParity(x, y);
    }
  }

  lemma TileOfLines(mask: nat, x: nat, y: nat)
    requires mask < 3 && x < 6 && y < |Tile(mask)|
    ensures Masking.Inverts(mask, x, y) <==> Tile(mask)[y][x] == '#'
  {
  }

  lemma TileOfSums(x: nat, y: nat)
    requires x < 6 && y < 6
    ensures Masking.Inverts(3, x, y) <==> Tile(3)[y][x] == '#'
  {
  }

  lemma TileOfHalves(x: nat, y: nat)
    requires x < 6 && y < 4
    ensures Masking.Inverts(4, x, y) <==> Tile(4)[y][x] == '#'
  {
  }

  lemma TileOfProduct(x: nat, y: nat)
    requires x < 6 && y < 6
    ensures Masking.Inverts(5, x, y) <==> Tile(5)[y][x] == '#'
  {
    match y
    case 0 =>
    case 1 =>
    case 2 =>
    case 3 =>
    case 4 =>
    case 5 =>
  }

  lemma TileOfParity(x: nat, y: nat)
    requires x < 6 && y < 6
    ensures Masking.Inverts(6, x, y) <==> Tile(6)[y][x] == '#'
  {
    match y
    case 0 =>
    case 1 =>
    case 2 =>
    case 3 =>
    case 4 =>
    case 5 =>
  }

  lemma TileOfSumParity(x: nat, y: nat)
    requires x < 6 && y < 6
    ensures Masking.Inverts(7, x, y) <==> Tile(7)[y][x] == '#'
  {
    match y
    case 0 =>
    case 1 =>
    case 2 =>
    case 3 =>
    case 4 =>
    case 5 =>
  }

  lemma SixTimes(k: nat, r: nat)
    ensures (6 * k + r) % 2 == r % 2 && (6 * k + r) % 3 == r % 3
  {
    DivModUnique(6 * k + r, 2, 3 * k + r / 2, r % 2);
    DivModUnique(6 * k + r, 3, 2 * k + r / 3, r % 3);
  }

  lemma ProductResidue(x: nat, y: nat)
    ensures x * y % 2 == (x % 6) * (y % 6) % 2 && x * y % 3 == (x % 6) * (y % 6) % 3
  {
    var a, b := x / 6, y / 6;
    var u, v := x % 6, y % 6;
    var k := 6 * (a * b) + a * v + b * u;
    assert (6 * a + u) * (6 * b + v) == 6 * k + u * v;
    assert x == 6 * a + u && y == 6 * b + v;
    SixTimes(k, u * v);
  }

  /** The patterns repeat their tiles over the whole symbol. */
  lemma MaskIsTiled(mask: nat, x: nat, y: nat)
    requires mask < 8
    ensures Masking.Inverts(mask, x, y) <==> Tile(mask)[y % |Tile(mask)|][x % 6] == '#'
  {
    var h := |Tile(mask)|;
    TileCell(mask, x % 6, y % h);
    hide Tile;
    if mask < 5 {
      LinearRepeats(mask, x, y, h);
    } else {
      ProductRepeats(mask, x, y);
    }
  }

  lemma LinearRepeats(mask: nat, x: nat, y: nat, h: nat)
    requires mask < 5 && h == if mask == 4 then 4 else 6
    ensures Masking.Inverts(mask, x, y) <==> Masking.Inverts(mask, x % 6, y % h)
  {
    var a, u := x / 6, x % 6;
    if mask == 4 {
      var b, v := y / 4, y % 4;
      assert x / 3 == 2 * a + u / 3;
      assert y / 2 == 2 * b + v / 2;
      TwoTimes(a + b, u / 3 + v / 2);
    } else {
      var b, v := y / 6, y % 6;
      SixTimes(a, u);
      SixTimes(b, v);
      SixTimes(a + b, u + v);
      hide Masking.Inverts;
      SumRepeats(mask, x, y, u, v);
    }
  }

  lemma TwoTimes(k: nat, r: nat)
    ensures (2 * k + r) % 2 == r % 2
  {
  }

  lemma SumRepeats(mask: nat, x: nat, y: nat, u: nat, v: nat)
    requires mask < 4 && x % 3 == u % 3 && y % 2 == v % 2 && (x + y) % 2 == (u + v) % 2 && (x + y) % 3 == (u + v) % 3
    ensures Masking.Inverts(mask, x, y) <==> Masking.Inverts(mask, u, v)
  {
  }

  lemma ProductRepeats(mask: nat, x: nat, y: nat)
    requires 5 <= mask < 8
    ensures Masking.Inverts(mask, x, y) <==> Masking.Inverts(mask, x % 6, y % 6)
  {
    hide Masking.Inverts;
    ProductResidue(x, y);
    SixTimes(x / 6 + y / 6, x % 6 + y % 6);
    TermsRepeat(mask, x, y, x % 6, y % 6);
  }

  lemma TermsRepeat(mask: nat, x: nat, y: nat, u: nat, v: nat)
    requires 5 <= mask < 8 && x * y % 2 == u * v % 2 && x * y % 3 == u * v % 3 && (x + y) % 2 == (u + v) % 2
    ensures Masking.Inverts(mask, x, y) <==> Masking.Inverts(mask, u, v)
  {
  }

  // ----- format and version information ----------------------------------------------------------------------------

  /** Table C.1, by level and mask. */
  function FormatWord(level: nat, mask: nat): bv16
    requires level < 4 && mask < 8
  {
    match level
    case 0 => [0x77C4, 0x72F3, 0x7DAA, 0x789D, 0x662F, 0x6318, 0x6C41, 0x6976][mask]
    case 1 => [0x5412, 0x5125, 0x5E7C, 0x5B4B, 0x45F9, 0x40CE, 0x4F97, 0x4AA0][mask]
    case 2 => [0x355F, 0x3068, 0x3F31, 0x3A06, 0x24B4, 0x2183, 0x2EDA, 0x2BED][mask]
    case _ => [0x1689, 0x13BE, 0x1CE7, 0x19D0, 0x0762, 0x0255, 0x0D0C, 0x083B][mask]
  }

  lemma FormatIsTable(level: nat, mask: nat)
    requires level < 4 && mask < 8
    ensures FormatInfo.FormatWord(FormatInfo.FormatData(level, mask)) == FormatWord(level, mask)
  {
    hide FormatInfo.FormatWord;
    FormatInfo.WordByRows(FormatInfo.FormatData(level, mask));
    match mask
    case 0 =>
    case 1 =>
    case 2 =>
    case 3 =>
    case 4 =>
    case 5 =>
    case 6 =>
    case 7 =>
  }

  /** The example of section 7.9.1: level M and mask 5 give 100000011001110, the first bit being bit 14. */
  lemma FormatExample()
    ensures FormatInfo.FormatBits(1, 5) ==
            [false, true, true, true, false, false, true, true, false, false, false, false, false, false, true]
  {
    hide FormatInfo.FormatWord;
    FormatIsTable(1, 5);
  }

  function TwelveSteps(d: bv32): bv32 {
    FourSteps(FourSteps(FourSteps(d)))
  }

  function FourSteps(d: bv32): bv32 {
    FunctionPatterns.CheckStep(FunctionPatterns.CheckStep(FunctionPatterns.CheckStep(FunctionPatterns.CheckStep(d))))
  }

  lemma FourMore(version: nat, n: nat)
    requires version <= 40
    ensures FunctionPatterns.CheckBits(version, n + 4) == FourSteps(FunctionPatterns.CheckBits(version, n))
  {
    hide FunctionPatterns.CheckStep;
    assert FunctionPatterns.CheckBits(version, n + 2) ==
           FunctionPatterns.CheckStep(FunctionPatterns.CheckStep(FunctionPatterns.CheckBits(version, n)));
  }

  /** The rows of the code that the bits of the version number select. */
  function VersionRows(d: bv32): bv32 {
    VersionRow(d, 0x1F25) ^ VersionRow(d >> 1, 0x216F) ^ VersionRow(d >> 2, 0x42DE) ^ VersionRow(d >> 3, 0x85BC)
    ^ VersionRow(d >> 4, 0x10B78) ^ VersionRow(d >> 5, 0x209D5)
  }

  function VersionRow(d: bv32, row: bv32): bv32 {
    if d & 1 != 0 then row else 0
  }

  lemma RowsOfNumber(d: bv32)
    requires d < 64
    ensures FunctionPatterns.Joined(d, TwelveSteps(d)) == VersionRows(d)
  {
  }

  /** The version word is the sum of the rows that belong to the bits of the version number. */
  lemma VersionByRows(version: nat)
    requires version <= 40
    ensures FunctionPatterns.VersionWord(version) == VersionRows(version as bv32)
  {
    hide FourSteps, FunctionPatterns.CheckBits, FunctionPatterns.Joined, VersionRows;
    FourMore(version, 0);
    FourMore(version, 4);
    FourMore(version, 8);
    NoCheckSteps(version);
    RowsOfNumber(version as bv32);
  }

  lemma NoCheckSteps(version: nat)
    requires version <= 40
    ensures FunctionPatterns.CheckBits(version, 0) == version as bv32
  {
  }

  /** Entries of table D.1. */
  lemma VersionExamples()
    ensures FunctionPatterns.VersionWord(7) == 0x07C94 && FunctionPatterns.VersionWord(21) == 0x15683
    ensures FunctionPatterns.VersionWord(40) == 0x28C69
  {
    hide FunctionPatterns.VersionWord;
    VersionByRows(7);
    VersionByRows(21);
    VersionByRows(40);
  }

  /** The bits of a word are taken from the lowest on: those of 000111110010010100 for version 7. */
  lemma VersionBits(k: nat)
    requires k < 18
    ensures FunctionPatterns.VersionBit(7, k) <==> k in {2, 4, 7, 10, 11, 12, 13, 14}
  {
    hide FunctionPatterns.ShiftedWord;
    assert FunctionPatterns.ShiftedWord(7, 0) == 0x07C94 by { VersionExamples(); NoShift(); }
    ShiftStep(0, 0x07C94, 0x03E4A);
    ShiftStep(1, 0x03E4A, 0x01F25);
    ShiftStep(2, 0x01F25, 0x00F92);
    ShiftStep(3, 0x00F92, 0x007C9);
    ShiftStep(4, 0x007C9, 0x003E4);
    ShiftStep(5, 0x003E4, 0x001F2);
    ShiftStep(6, 0x001F2, 0x000F9);
    ShiftStep(7, 0x000F9, 0x0007C);
    ShiftStep(8, 0x0007C, 0x0003E);
    ShiftStep(9, 0x0003E, 0x0001F);
    ShiftStep(10, 0x0001F, 0x0000F);
    ShiftStep(11, 0x0000F, 0x00007);
    ShiftStep(12, 0x00007, 0x00003);
    ShiftStep(13, 0x00003, 0x00001);
    ShiftStep(14, 0x00001, 0x00000);
    ShiftStep(15, 0x00000, 0x00000);
    ShiftStep(16, 0x00000, 0x00000);
  }

  lemma NoShift()
    ensures FunctionPatterns.ShiftedWord(7, 0) == FunctionPatterns.VersionWord(7)
  {
  }

  lemma ShiftStep(k: nat, w: bv32, next: bv32)
    requires FunctionPatterns.ShiftedWord(7, k) == w && next == w >> 1
    ensures FunctionPatterns.ShiftedWord(7, k + 1) == next
  {
    hide FunctionPatterns.VersionWord;
  }

  // ----- alignment patterns --------------------------------------------------------------------------------------

  /** The spacing of the alignment pattern centres in table E.1, by version. */
  function Spacing(version: nat): nat
    requires 2 <= version <= 40
  {
    if version <= 6 then [12, 16, 20, 24, 28][version - 2]
    else if version <= 13 then [16, 18, 20, 22, 24, 26, 28][version - 7]
    else if version <= 20 then [20, 22, 24, 24, 26, 28, 28][version - 14]
    else if version <= 27 then [22, 24, 24, 26, 26, 28, 28][version - 21]
    else if version <= 34 then [24, 24, 26, 26, 26, 28, 28][version - 28]
    else [24, 26, 26, 26, 28, 28][version - 35]
  }

  lemma SpacingIsTable(version: nat)
    requires 2 <= version <= 40
    ensures FunctionModules.AlignStep(version) == Spacing(version)
  {
    if version <= 20 {
      SpacingOfSmall(version);
    } else {
      SpacingOfLarge(version);
    }
  }

  lemma SpacingOfSmall(version: nat)
    requires 2 <= version <= 20
    ensures FunctionModules.AlignStep(version) == Spacing(version)
  {
  }

  lemma SpacingOfLarge(version: nat)
    requires 21 <= version <= 40
    ensures FunctionModules.AlignStep(version) == Spacing(version)
  {
  }

  /**
   * From the second centre on, the centres are that far apart, and the last one is six modules from the edge; the first
   * one is at 6. There is one more centre for every seven versions.
   */
  lemma CentresAreSpaced(version: nat, i: nat)
    requires 2 <= version <= 40 && i < FunctionModules.NumAlign(version)
    ensures FunctionModules.NumAlign(version) ==
            if version <= 6 then 2 else if version <= 13 then 3 else if version <= 20 then 4
            else if version <= 27 then 5 else if version <= 34 then 6 else 7
    ensures i == 0 ==> FunctionModules.AlignPos(version, i) == 6
    ensures i == FunctionModules.NumAlign(version) - 1 ==> FunctionModules.AlignPos(version, i) == 4 * version + 17 - 7
    ensures 1 <= i < FunctionModules.NumAlign(version) - 1 ==>
      FunctionModules.AlignPos(version, i + 1) == FunctionModules.AlignPos(version, i) + Spacing(version)
  {
    hide FunctionModules.AlignStep, Spacing;
    SpacingIsTable(version);
    FunctionModules.AlignArithmetic(version);
    var s, m := FunctionModules.AlignStep(version), FunctionModules.NumAlign(version) - 1 - i;
    assert s * m == s * (m - 1) + s;
  }

  // ----- text ----------------------------------------------------------------------------------------------------

  /** Three digits take ten bits, two take seven and one takes four. */
  lemma NumericGroups(a: nat, b: nat, c: nat)
    requires a < 10 && b < 10 && c < 10
    ensures CodingOf(Numeric).Sound() && EncodeDigits(CodingOf(Numeric), [a, b, c]) == NumberBits(100 * a + 10 * b + c, 10)
    ensures EncodeDigits(CodingOf(Numeric), [a, b]) == NumberBits(10 * a + b, 7)
    ensures EncodeDigits(CodingOf(Numeric), [a]) == NumberBits(a, 4)
  {
    hide NumberBits;
    CodingsSound();
    OneGroup(CodingOf(Numeric), [a, b, c]);
    OneGroup(CodingOf(Numeric), [a, b]);
    OneGroup(CodingOf(Numeric), [a]);
    ThreeDigits(10, a, b, c);
  }

  lemma ThreeDigits(base: nat, a: nat, b: nat, c: nat)
    ensures GroupValue(base, [a]) == a && GroupValue(base, [a, b]) == a * base + b
    ensures GroupValue(base, [a, b, c]) == (a * base + b) * base + c
  {
    assert [a, b, c][..2] == [a, b] && [a, b][..1] == [a] && [a][..0] == [];
    assert GroupValue(base, []) == 0;
    assert GroupValue(base, [a]) == 0 * base + a;
  }

  /** Two characters of the 45 take eleven bits and one takes six; a byte takes eight. */
  lemma CharacterGroups(a: nat, b: nat)
    requires a < 45 && b < 45
    ensures CodingOf(Alphanumeric).Sound() && CodingOf(Bytes).Sound()
    ensures EncodeDigits(CodingOf(Alphanumeric), [a, b]) == NumberBits(45 * a + b, 11)
    ensures EncodeDigits(CodingOf(Alphanumeric), [a]) == NumberBits(a, 6)
    ensures EncodeDigits(CodingOf(Bytes), [a]) == NumberBits(a, 8)
  {
    hide NumberBits;
    CodingsSound();
    OneGroup(CodingOf(Alphanumeric), [a, b]);
    OneGroup(CodingOf(Alphanumeric), [a]);
    OneGroup(CodingOf(Bytes), [a]);
    ThreeDigits(45, a, b, 0);
    ThreeDigits(256, a, b, 0);
  }

  /** Table 5: the values of the 45 characters. */
  lemma CharacterValues(c: char)
    requires c in CHARSET
    ensures DigitOf(Alphanumeric, c) == CharacterValue(c)
  {
    hide PlaceOf, CharacterValue;
    CharacterAt(PlaceOf(c, CHARSET));
  }

  function CharacterValue(c: char): int {
    if '0' <= c <= '9' then c as int - '0' as int
    else if 'A' <= c <= 'Z' then c as int - 'A' as int + 10
    else if c == ' ' then 36 else if c == '$' then 37 else if c == '%' then 38 else if c == '*' then 39
    else if c == '+' then 40 else if c == '-' then 41 else if c == '.' then 42 else if c == '/' then 43 else 44
  }

  lemma CharacterAt(k: nat)
    requires k < |CHARSET|
    ensures CharacterValue(CHARSET[k]) == k
  {
    assert |CHARSET| == 45;
  }

  /** Mode indicators, and table 3: the widths of the character count. */
  lemma ModesAndCounts(version: nat)
    requires 1 <= version <= 40
    ensures ModeValue(Numeric) == 1 && ModeValue(Alphanumeric) == 2 && ModeValue(Bytes) == 4 && ModeValue(Kanji) == 8
    ensures CountBits(Numeric, version) == if version <= 9 then 10 else if version <= 26 then 12 else 14
    ensures CountBits(Alphanumeric, version) == if version <= 9 then 9 else if version <= 26 then 11 else 13
    ensures CountBits(Bytes, version) == if version <= 9 then 8 else 16
    ensures CountBits(Kanji, version) == if version <= 9 then 8 else if version <= 26 then 10 else 12
  {
  }

  /** Numbers are written with the most significant bit first. */
  lemma {:induction false} HighBitFirst(v: nat, n: nat)
    requires v < Pow2(n)
    ensures n > 0 ==> (NumberBits(v, n)[0] <==> v >= Pow2(n - 1)) && (NumberBits(v, n)[n - 1] <==> v % 2 == 1)
  {
    if n > 1 {
      HighBitFirst(v / 2, n - 1);
      assert Pow2(n) == 2 * Pow2(n - 1) && Pow2(n - 1) == 2 * Pow2(n - 2);
    } else if n == 1 {
      assert Pow2(0) == 1 && Pow2(1) == 2;
      assert NumberBits(v, 1) == [v % 2 == 1];
    }
  }

  /** Unused codewords are filled with 11101100 and 00010001 by turns. */
  lemma {:induction false} PadCodeword(n: nat, k: nat)
    requires k < n
    ensures PadBits(n, false)[8 * k..8 * k + 8] ==
            if k % 2 == 0 then [true, true, true, false, true, true, false, false]
            else [false, false, false, true, false, false, false, true]
  {
    PadTurns(n, k, false);
    PadValues();
  }

  lemma PadValues()
    ensures NumberBits(0xEC, 8) == [true, true, true, false, true, true, false, false]
    ensures NumberBits(0x11, 8) == [false, false, false, true, false, false, false, true]
  {
    assert NumberBits(0xEC, 4) == [true, true, false, false];
  }

  lemma {:induction false} PadTurns(n: nat, k: nat, turn: bool)
    requires k < n
    ensures PadBits(n, turn)[8 * k..8 * k + 8] == NumberBits(if turn != (k % 2 == 1) then 0x11 else 0xEC, 8)
    decreases k
  {
    hide NumberBits;
    var head, rest := NumberBits(if turn then 0x11 else 0xEC, 8), PadBits(n - 1, !turn);
    assert PadBits(n, turn) == head + rest;
    if k == 0 {
      assert (head + rest)[0..8] == head;
    } else {
      PadTurns(n - 1, k - 1, !turn);
      assert (head + rest)[8 * k..8 * k + 8] == rest[8 * (k - 1)..8 * (k - 1) + 8];
    }
  }

  // ----- error correction ------------------------------------------------------------------------------------------

  /** Doubling moves the bits up, and what leaves at the top comes back as 29: the field is that of 0x11D. */
  lemma Doubling(z: Byte)
    ensures ByteValue(XTime(z)) % 2 == (if z[7] then 1 else 0)
    ensures !z[7] ==> ByteValue(XTime(z)) == 2 * ByteValue(z)
    ensures z[7] ==> Add(XTime(z), OctetOf29()) == [false] + z[..7]
    ensures ByteValue(OctetOf29()) == 29
  {
  }

  function OctetOf29(): Byte {
    [true, false, true, true, true, false, false, false]
  }

  /** The roots of the generator are powers of 2. */
  lemma RootIsTwo()
    ensures ByteValue(Two()) == 2
  {
  }

  /** How many blocks are short, and that the short ones come first. */
  lemma ShortBlocksFirst(l: Layout, b: nat)
    requires l.Sound() && b < l.blocks
    ensures l.raw / l.blocks >= l.ecc
    ensures l.BlockLen(b) == l.raw / l.blocks - l.ecc + if b < l.blocks - l.raw % l.blocks then 0 else 1
  {
    CancelEcc(l.ecc, l.blocks, l.raw);
  }

  /** First codeword j of every block in turn. */
  lemma DataInTurn(l: Layout, data: seq<Byte>, result: seq<Byte>, b: nat, j: nat)
    requires l.Sound() && |data| == l.DataLen() && Interleaved(l, data, result) && b < l.blocks
    requires j + l.ecc < l.raw / l.blocks
    ensures j < l.BlockLen(b) && b + j * l.blocks < |result| && result[b + j * l.blocks] == Block(l, data, b)[j]
  {
    hide Interleaved, Block, EccOf;
    HoldsCell(l, data, result, Data(b, j));
  }

  /** Then the last codeword of each long block. */
  lemma LongBlocksThen(l: Layout, data: seq<Byte>, result: seq<Byte>, b: nat)
    requires l.Sound() && |data| == l.DataLen() && Interleaved(l, data, result)
    requires l.blocks - l.raw % l.blocks <= b < l.blocks && l.ecc <= l.raw / l.blocks
    ensures
      var s := l.raw / l.blocks - l.ecc;
      var k := b + s * l.blocks - (l.blocks - l.raw % l.blocks);
      s < l.BlockLen(b) && 0 <= k < |result| && result[k] == Block(l, data, b)[s]
  {
    hide Interleaved, Block, EccOf;
    HoldsCell(l, data, result, Data(b, l.ShortLen()));
  }

  /** After all data, error correction codeword j of every block in turn. */
  lemma EccInTurn(l: Layout, data: seq<Byte>, result: seq<Byte>, b: nat, j: nat)
    requires l.Sound() && |data| == l.DataLen() && Interleaved(l, data, result) && b < l.blocks && j < l.ecc
    ensures |data| + (b + j * l.blocks) < |result| && result[|data| + (b + j * l.blocks)] == EccOf(l, data, b)[j]
  {
    hide Interleaved, Block, EccOf;
    HoldsCell(l, data, result, Ecc(b, j));
  }

  lemma HoldsCell(l: Layout, data: seq<Byte>, result: seq<Byte>, c: Cell)
    requires l.Sound() && |data| == l.DataLen() && Interleaved(l, data, result) && IsCell(l, c)
    ensures |result| == l.raw && 0 <= Place(l, c) < l.raw && result[Place(l, c)] == CellValue(l, data, c)
  {
    hide CellValue, Source, Place;
    PlaceHasSource(l, c);
    assert HoldsSource(l, data, Place(l, c), result[Place(l, c)]);
  }

  // ----- the packed grid -------------------------------------------------------------------------------------------

  /** Modules are packed row by row, eight to a byte from the lowest bit, behind one byte that holds the side. */
  lemma PackedModule(q: seq<Byte>, n: nat, x: nat, y: nat)
    requires IsGrid(q, n) && x < n && y < n
    ensures (y * n + x) / 8 + 1 < |q|
    ensures ModulesOf(q, n)[At(n, x, y)] == q[(y * n + x) / 8 + 1][(y * n + x) % 8] && ByteValue(q[0]) == n
  {
  }
}
