/** The fifteen format bits: error correction level and mask with ten check bits. */
module FormatInfo {
  import opened Octets

  // ----- the words -------------------------------------------------------------------------------------------------

  /** One step of dividing by the generator of the code. */
  function FormatStep(rem: bv16): bv16 {
    (rem << 1) ^ ((rem >> 9) * 0x537)
  }

  function FormatCheck(data: bv16, steps: nat): bv16 {
    if steps == 0 then data else FormatStep(FormatCheck(data, steps - 1))
  }

  /** Data, check bits and the fixed pattern that keeps the bits from being all white. */
  function FormatWord(data: bv16): bv16 {
    Packed(data, FormatCheck(data, 10))
  }

  function Packed(data: bv16, check: bv16): bv16 {
    ((data << 10) | check) ^ 0x5412
  }

  function LevelNumber(level: nat): bv16 {
    if level == 0 then 1 else if level == 1 then 0 else if level == 2 then 3 else 2
  }

  function FormatData(level: nat, mask: nat): (data: bv16)
    requires level < 4 && mask < 8
    ensures data < 32
  {
    (LevelNumber(level) << 3) | (mask as bv16)
  }

  function Low(word: bv16): bool {
    word & 1 != 0
  }

  /** The bits of a word, lowest first. */
  function WordBits(w: bv16): (bits: BitString)
    ensures |bits| == 15
  {
    [Low(w), Low(w >> 1), Low(w >> 2), Low(w >> 3), Low(w >> 4), Low(w >> 5), Low(w >> 6), Low(w >> 7),
     Low(w >> 8), Low(w >> 9), Low(w >> 10), Low(w >> 11), Low(w >> 12), Low(w >> 13), Low(w >> 14)]
  }

  function FormatBits(level: nat, mask: nat): (bits: BitString)
    ensures |bits| == 15
  {
    WordBits(if level < 4 && mask < 8 then FormatWord(FormatData(level, mask)) else 0)
  }

  /** The format bits of each mask at a level. */
  function Formats(level: nat): (fmt: nat -> BitString)
    ensures forall mask: nat :: |fmt(mask)| == 15
  {
    (mask: nat) => FormatBits(level, mask)
  }

  // ----- how far apart they are ------------------------------------------------------------------------------------

  function Plus(x: bv16, y: bv16): bv16 {
    x + y
  }

  function Ones0(x: bv16): bv16 {
    (x & 1) + ((x >> 1) & 1) + ((x >> 2) & 1) + ((x >> 3) & 1)
  }

  function Ones1(x: bv16): bv16 {
    ((x >> 4) & 1) + ((x >> 5) & 1) + ((x >> 6) & 1) + ((x >> 7) & 1)
  }

  function Ones2(x: bv16): bv16 {
    ((x >> 8) & 1) + ((x >> 9) & 1) + ((x >> 10) & 1) + ((x >> 11) & 1)
  }

  function Ones3(x: bv16): bv16 {
    ((x >> 12) & 1) + ((x >> 13) & 1) + ((x >> 14) & 1) + ((x >> 15) & 1)
  }

  /** The number of ones. */
  function Weight(x: bv16): bv16 {
    Plus(Plus(Ones0(x), Ones1(x)), Plus(Ones2(x), Ones3(x)))
  }

  /** In how many bits two words differ. */
  function Distance(x: bv16, y: bv16): bv16 {
    Weight(x ^ y)
  }

  lemma OnesTriangle(u: bv16, v: bv16, w: bv16)
    requires w == u ^ v
    ensures Ones0(w) <= Plus(Ones0(u), Ones0(v)) && Ones0(u) <= 4 && Ones0(v) <= 4
    ensures Ones1(w) <= Plus(Ones1(u), Ones1(v)) && Ones1(u) <= 4 && Ones1(v) <= 4
    ensures Ones2(w) <= Plus(Ones2(u), Ones2(v)) && Ones2(u) <= 4 && Ones2(v) <= 4
    ensures Ones3(w) <= Plus(Ones3(u), Ones3(v)) && Ones3(u) <= 4 && Ones3(v) <= 4
  {
  }

  /** Sums keep the triangle inequality as long as they are small. */
  lemma PairSum(a: bv16, a': bv16, b: bv16, b': bv16, c: bv16, c': bv16)
    requires b <= 8 && b' <= 8 && c <= 8 && c' <= 8 && a <= Plus(b, c) && a' <= Plus(b', c')
    ensures Plus(a, a') <= Plus(Plus(b, b'), Plus(c, c'))
    ensures b <= 4 && b' <= 4 ==> Plus(b, b') <= 8
    ensures c <= 4 && c' <= 4 ==> Plus(c, c') <= 8
  {
  }

  lemma WeightTriangle(u: bv16, v: bv16, w: bv16)
    requires w == u ^ v
    ensures Weight(w) <= Plus(Weight(u), Weight(v))
  {
    hide Ones0, Ones1, Ones2, Ones3, Plus;
    OnesTriangle(u, v, w);
    PairSum(Ones0(w), Ones1(w), Ones0(u), Ones1(u), Ones0(v), Ones1(v));
    PairSum(Ones2(w), Ones3(w), Ones2(u), Ones3(u), Ones2(v), Ones3(v));
    PairSum(Plus(Ones0(w), Ones1(w)), Plus(Ones2(w), Ones3(w)),
            Plus(Ones0(u), Ones1(u)), Plus(Ones2(u), Ones3(u)), Plus(Ones0(v), Ones1(v)), Plus(Ones2(v), Ones3(v)));
  }

  lemma Triangle(x: bv16, y: bv16, z: bv16)
    ensures Distance(x, z) <= Plus(Distance(x, y), Distance(y, z))
  {
    hide Weight, Plus;
    assert (x ^ y) ^ (y ^ z) == x ^ z;
    WeightTriangle(x ^ y, y ^ z, x ^ z);
  }

  lemma DistanceCommutes(x: bv16, y: bv16)
    ensures Distance(x, y) == Distance(y, x) && Distance(x, x) == 0
  {
    hide Weight;
    assert x ^ y == y ^ x && x ^ x == 0;
    NoOnes();
  }

  lemma NoOnes()
    ensures Weight(0) == 0
  {
  }

  function Unrolled(d: bv16): bv16 {
    FormatStep(FormatStep(FormatStep(FormatStep(FormatStep(
      FormatStep(FormatStep(FormatStep(FormatStep(FormatStep(d))))))))))
  }

  lemma CheckUnrolled(d: bv16)
    ensures FormatCheck(d, 10) == Unrolled(d)
  {
    hide FormatStep;
    assert FormatCheck(d, 1) == FormatStep(FormatCheck(d, 0)) == FormatStep(d);
    assert FormatCheck(d, 2) == FormatStep(FormatStep(d));
    assert FormatCheck(d, 4) == FormatStep(FormatStep(FormatCheck(d, 2)));
    assert FormatCheck(d, 6) == FormatStep(FormatStep(FormatCheck(d, 4)));
    assert FormatCheck(d, 8) == FormatStep(FormatStep(FormatCheck(d, 6)));
    assert FormatCheck(d, 10) == FormatStep(FormatStep(FormatCheck(d, 8)));
  }

  /** The words by rows of the code: one row for each data bit that is set. */
  function Rows(d: bv16): bv16 {
    0x5412 ^ Row(d, 0x537) ^ Row(d >> 1, 0xA6E) ^ Row(d >> 2, 0x11EB) ^ Row(d >> 3, 0x23D6) ^ Row(d >> 4, 0x429B)
  }

  function Row(d: bv16, row: bv16): bv16 {
    if d & 1 != 0 then row else 0
  }

  lemma WordByRows(d: bv16)
    requires d < 32
    ensures FormatWord(d) == Rows(d)
  {
    hide FormatCheck;
    CheckUnrolled(d);
  }

  lemma RowsApart(a: bv16, b: bv16)
    requires a < 32 && b < 32 && a != b
    ensures Distance(Rows(a), Rows(b)) >= 7
  {
  }

  /** Any two format words differ in at least seven bits. */
  lemma WordsApart(a: bv16, b: bv16)
    requires a < 32 && b < 32 && a != b
    ensures Distance(FormatWord(a), FormatWord(b)) >= 7
  {
    hide Rows, FormatWord, Distance;
    WordByRows(a);
    WordByRows(b);
    RowsApart(a, b);
  }

  /** However three bits or fewer are misread, only one level and mask is that close. */
  lemma ThreeErrorsCorrected(a: bv16, b: bv16, received: bv16)
    requires a < 32 && b < 32
    requires Distance(FormatWord(a), received) <= 3 && Distance(FormatWord(b), received) <= 3
    ensures a == b
  {
    hide Distance, FormatWord;
    if a != b {
      WordsApart(a, b);
      DistanceCommutes(received, FormatWord(b));
      Triangle(FormatWord(a), received, FormatWord(b));
    }
  }

  lemma DataTells(level: nat, mask: nat, level': nat, mask': nat)
    requires level < 4 && mask < 8 && level' < 4 && mask' < 8
    requires FormatData(level, mask) == FormatData(level', mask')
    ensures level == level' && mask == mask'
  {
  }

  lemma WordFits(data: bv16)
    requires data < 32
    ensures FormatWord(data) < 0x8000
  {
    hide FormatWord;
    WordByRows(data);
  }

  lemma BitsTell(v: bv16, w: bv16)
    requires v < 0x8000 && w < 0x8000 && WordBits(v) == WordBits(w)
    ensures v == w
  {
    var a, b := WordBits(v), WordBits(w);
    hide Low;
    assert forall i | 0 <= i < 15 :: a[i] == b[i];
    SameLows(v, w);
  }

  lemma SameLows(v: bv16, w: bv16)
    requires v < 0x8000 && w < 0x8000 && Low(v) == Low(w) && Low(v >> 1) == Low(w >> 1) && Low(v >> 2) == Low(w >> 2)
    requires Low(v >> 3) == Low(w >> 3) && Low(v >> 4) == Low(w >> 4) && Low(v >> 5) == Low(w >> 5)
    requires Low(v >> 6) == Low(w >> 6) && Low(v >> 7) == Low(w >> 7) && Low(v >> 8) == Low(w >> 8)
    requires Low(v >> 9) == Low(w >> 9) && Low(v >> 10) == Low(w >> 10) && Low(v >> 11) == Low(w >> 11)
    requires Low(v >> 12) == Low(w >> 12) && Low(v >> 13) == Low(w >> 13) && Low(v >> 14) == Low(w >> 14)
    ensures v == w
  {
  }

  /** The format bits tell level and mask. */
  lemma FormatTells(level: nat, mask: nat, level': nat, mask': nat)
    requires level < 4 && mask < 8 && level' < 4 && mask' < 8
    requires FormatBits(level, mask) == FormatBits(level', mask')
    ensures level == level' && mask == mask'
  {
    hide WordBits, FormatWord, FormatData, Distance;
    var a, b := FormatData(level, mask), FormatData(level', mask');
    WordFits(a);
    WordFits(b);
    BitsTell(FormatWord(a), FormatWord(b));
    DistanceCommutes(FormatWord(a), FormatWord(b));
    if a != b {
      WordsApart(a, b);
    }
    DataTells(level, mask, level', mask');
  }

  // ----- the code --------------------------------------------------------------------------------------------------

  method ComputeFormatBits(level: nat, mask: nat) returns (bits: BitString)
    requires level < 4 && mask < 8
    ensures bits == FormatBits(level, mask)
  {
    hide FormatStep, FormatData, WordBits, Packed;
    var data := FormatData(level, mask);
    var rem := data;
    var i: nat := 0;
    while i < 10
      invariant i <= 10 && rem == FormatCheck(data, i)
    {
      rem := FormatStep(rem);
      i := i + 1;
    }
    bits := WordBits(Packed(data, rem));
  }
}
