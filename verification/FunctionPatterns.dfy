/** What the function patterns of a version look like. */
module FunctionPatterns {
  import opened Bits
  import opened Grid
  import opened FunctionModules
  import FunctionCount

  // ----- timing and finder patterns -------------------------------------------------------------------------------

  /** Every other module of the timing lines between the finder corners is white. */
  predicate IsTimingWhite(version: nat, x: int, y: int) {
    var n := Side(version);
    (x == 6 && 7 <= y < n - 7 && y % 2 == 1) || (y == 6 && 7 <= x < n - 7 && x % 2 == 1)
  }

  function Distance(dx: int, dy: int): (d: nat)
    ensures d <= 4 <==> -4 <= dx <= 4 && -4 <= dy <= 4
  {
    var a, b := if dx < 0 then -dx else dx, if dy < 0 then -dy else dy;
    if b > a then b else a
  }

  /** The white rings around a finder centre, the outer of which is the separator. */
  predicate OnRing(dx: int, dy: int) {
    Distance(dx, dy) == 2 || Distance(dx, dy) == 4
  }

  predicate IsFinderWhite(version: nat, x: int, y: int) {
    var far := Side(version) - 4;
    OnRing(x - 3, y - 3) || OnRing(x - far, y - 3) || OnRing(x - 3, y - far)
  }

  // ----- alignment patterns ---------------------------------------------------------------------------------------

  /** The three by three modules inside the border of an alignment pattern. */
  predicate InCore(version: nat, i: nat, j: nat, x: int, y: int)
    requires 2 <= version <= 40 && i < NumAlign(version) && j < NumAlign(version)
  {
    !IsCorner(version, i, j) && InRect(AlignPos(version, i) - 1, AlignPos(version, j) - 1, 3, 3, x, y)
  }

  predicate IsCentre(version: nat, i: nat, j: nat, x: int, y: int)
    requires 2 <= version <= 40 && i < NumAlign(version) && j < NumAlign(version)
  {
    !IsCorner(version, i, j) && x == AlignPos(version, i) && y == AlignPos(version, j)
  }

  /** Before the pattern at coordinates i and j in the order of drawing. */
  predicate Earlier(version: nat, a: nat, b: nat, i: nat, j: nat) {
    a < NumAlign(version) && b < NumAlign(version) && (a < i || (a == i && b < j))
  }

  ghost predicate CoreBefore(version: nat, i: nat, j: nat, x: int, y: int)
    requires 2 <= version <= 40
  {
    exists a: nat, b: nat :: Earlier(version, a, b, i, j) && InCore(version, a, b, x, y)
  }

  ghost predicate CentreBefore(version: nat, i: nat, j: nat, x: int, y: int)
    requires 2 <= version <= 40
  {
    exists a: nat, b: nat :: Earlier(version, a, b, i, j) && IsCentre(version, a, b, x, y)
  }

  lemma PositionsApart(version: nat, i: nat, j: nat)
    requires 2 <= version <= 40 && i < j < NumAlign(version)
    ensures AlignPos(version, i) + 12 <= AlignPos(version, j)
    decreases j
  {
    hide AlignPos, AlignStep;
    FunctionCount.FirstPos(version);
    FunctionCount.PosBounds(version, j);
    if 0 < i < j - 1 {
      PositionsApart(version, i, j - 1);
    }
  }

  /** A module inside one alignment pattern is the centre of no other. */
  lemma CoresApart(version: nat, i: nat, j: nat, a: nat, b: nat, x: int, y: int)
    requires 2 <= version <= 40 && i < NumAlign(version) && j < NumAlign(version) && a < NumAlign(version) && b < NumAlign(version)
    requires InCore(version, i, j, x, y) && IsCentre(version, a, b, x, y)
    ensures a == i && b == j
  {
    hide AlignPos;
    if a < i { PositionsApart(version, a, i); } else if i < a { PositionsApart(version, i, a); }
    if b < j { PositionsApart(version, b, j); } else if j < b { PositionsApart(version, j, b); }
  }

  /** One more pattern in the order of drawing. */
  lemma CoreStep(version: nat, i: nat, j: nat, x: int, y: int)
    requires 2 <= version <= 40 && i < NumAlign(version) && j < NumAlign(version)
    ensures CoreBefore(version, i, j + 1, x, y) <==> CoreBefore(version, i, j, x, y) || InCore(version, i, j, x, y)
    ensures CentreBefore(version, i, j + 1, x, y) <==> CentreBefore(version, i, j, x, y) || IsCentre(version, i, j, x, y)
    ensures InCore(version, i, j, x, y) ==> !CentreBefore(version, i, j, x, y)
  {
    hide InCore, IsCentre;
    assert Earlier(version, i, j, i, j + 1);
    if CoreBefore(version, i, j, x, y) {
      var a: nat, b: nat :| Earlier(version, a, b, i, j) && InCore(version, a, b, x, y);
      assert Earlier(version, a, b, i, j + 1);
    }
    if CentreBefore(version, i, j, x, y) {
      var a: nat, b: nat :| Earlier(version, a, b, i, j) && IsCentre(version, a, b, x, y);
      assert Earlier(version, a, b, i, j + 1);
      if InCore(version, i, j, x, y) {
        CoresApart(version, i, j, a, b, x, y);
      }
    }
  }

  lemma CoreColumn(version: nat, i: nat, x: int, y: int)
    requires 2 <= version <= 40 && i < NumAlign(version)
    ensures CoreBefore(version, i, NumAlign(version), x, y) <==> CoreBefore(version, i + 1, 0, x, y)
    ensures CentreBefore(version, i, NumAlign(version), x, y) <==> CentreBefore(version, i + 1, 0, x, y)
  {
    hide InCore, IsCentre;
    assert forall a: nat, b: nat :: Earlier(version, a, b, i, NumAlign(version)) == Earlier(version, a, b, i + 1, 0);
  }

  // ----- version information ----------------------------------------------------------------------------------------

  /** One step of dividing by the generator of the code. */
  function CheckStep(rem: bv32): bv32 {
    (rem << 1) ^ ((rem >> 11) * 0x1F25)
  }

  function NumberWord(version: nat): bv32
    requires version <= 40
  {
    version as bv32
  }

  function Joined(number: bv32, check: bv32): bv32 {
    (number << 12) | check
  }

  function CheckBits(version: nat, steps: nat): bv32
    requires version <= 40
  {
    if steps == 0 then NumberWord(version) else CheckStep(CheckBits(version, steps - 1))
  }

  /** The version number followed by its twelve check bits. */
  function VersionWord(version: nat): bv32
    requires version <= 40
  {
    Joined(NumberWord(version), CheckBits(version, 12))
  }

  function Halved(word: bv32): bv32 {
    word >> 1
  }

  function ShiftedWord(version: nat, k: nat): bv32
    requires version <= 40
  {
    if k == 0 then VersionWord(version) else Halved(ShiftedWord(version, k - 1))
  }

  predicate LowBit(word: bv32) {
    word & 1 != 0
  }

  predicate VersionBit(version: nat, k: nat)
    requires version <= 40
  {
    LowBit(ShiftedWord(version, k))
  }

  /** Bit of the version word at a module of one of its two copies. */
  function VersionIndex(version: nat, x: int, y: int): (k: nat)
    requires InVersionBlock(version, x, y)
    ensures k < 18
  {
    var far := Side(version) - 11;
    if InRect(far, 0, 3, 6, x, y) then 3 * y + (x - far) else 3 * x + (y - far)
  }

  // ----- all patterns ---------------------------------------------------------------------------------------------------

  /** The colour of a module once the white parts are drawn over a grid where it was of the given colour. */
  ghost function Painted(version: nat, x: int, y: int, was: bool): bool
    requires 1 <= version <= 40
  {
    if InVersionBlock(version, x, y) then VersionBit(version, VersionIndex(version, x, y))
    else if version > 1 && CoreBefore(version, NumAlign(version), 0, x, y) then CentreBefore(version, NumAlign(version), 0, x, y)
    else was && !IsFinderWhite(version, x, y) && !IsTimingWhite(version, x, y)
  }

  lemma CoreIsFunction(version: nat, x: nat, y: nat)
    requires 2 <= version <= 40 && CoreBefore(version, NumAlign(version), 0, x, y)
    ensures IsFunction(version, x, y)
  {
    var a: nat, b: nat :| Earlier(version, a, b, NumAlign(version), 0) && InCore(version, a, b, x, y);
    assert InPattern(version, a, b, x, y);
  }

  /** No module outside the function map is painted. */
  lemma PaintedIsConfined(version: nat, x: nat, y: nat, was: bool)
    requires 1 <= version <= 40 && x < Side(version) && y < Side(version) && !IsFunction(version, x, y)
    ensures Painted(version, x, y, was) == was
  {
    hide VersionBit, AlignPos, CoreBefore, CentreBefore, InAlignment;
    if version > 1 && CoreBefore(version, NumAlign(version), 0, x, y) {
      CoreIsFunction(version, x, y);
    }
  }

  /** Where alignment patterns can be: away from the finder corners and the version blocks. */
  lemma PatternAway(version: nat, i: nat, j: nat, x: nat, y: nat)
    requires 2 <= version <= 40 && i < NumAlign(version) && j < NumAlign(version) && InPattern(version, i, j, x, y)
    ensures
      var n := Side(version);
      (x >= 16 && y >= 16) || (4 <= y <= 8 && 16 <= x <= n - 20 && j == 0) || (4 <= x <= 8 && 16 <= y <= n - 20 && i == 0)
  {
    hide AlignPos, AlignStep;
    FunctionCount.FirstPos(version);
    if i > 0 { FunctionCount.PosBounds(version, i); }
    if j > 0 { FunctionCount.PosBounds(version, j); }
  }

  lemma CoreAway(version: nat, x: nat, y: nat)
    requires 2 <= version <= 40 && CoreBefore(version, NumAlign(version), 0, x, y)
    ensures
      var n := Side(version);
      (x >= 16 && y >= 16) || (4 <= y <= 8 && 16 <= x <= n - 20) || (4 <= x <= 8 && 16 <= y <= n - 20)
  {
    hide AlignPos;
    var a: nat, b: nat :| Earlier(version, a, b, NumAlign(version), 0) && InCore(version, a, b, x, y);
    PatternAway(version, a, b, x, y);
  }

  /** Around a finder centre, within the grid, exactly the two rings are white. */
  lemma FinderLooks(version: nat, x: nat, y: nat)
    requires 1 <= version <= 40 && x < Side(version) && y < Side(version)
    requires
      var far := Side(version) - 4;
      Distance(x - 3, y - 3) <= 4 || Distance(x - far, y - 3) <= 4 || Distance(x - 3, y - far) <= 4
    ensures Painted(version, x, y, true) == !IsFinderWhite(version, x, y)
  {
    hide CoreBefore, CentreBefore, VersionBit, NumAlign;
    if version > 1 && CoreBefore(version, NumAlign(version), 0, x, y) {
      CoreAway(version, x, y);
    }
  }

  /** Alignment coordinates are even, so the border of a pattern meets black timing modules. */
  lemma PositionsEven(version: nat, i: nat)
    requires 2 <= version <= 40 && i < NumAlign(version)
    ensures AlignPos(version, i) % 2 == 0
  {
    var half := AlignStep(version) / 2;
    assert AlignStep(version) == 2 * half;
    assert AlignStep(version) * (NumAlign(version) - 1 - i) == 2 * (half * (NumAlign(version) - 1 - i));
  }

  /** An alignment pattern is a black border, a white ring and a black centre, even on a timing line. */
  lemma AlignmentLooks(version: nat, i: nat, j: nat, x: nat, y: nat)
    requires 2 <= version <= 40 && i < NumAlign(version) && j < NumAlign(version) && InPattern(version, i, j, x, y)
    ensures Painted(version, x, y, true) == (Distance(x - AlignPos(version, i), y - AlignPos(version, j)) != 1)
  {
    hide AlignPos, AlignStep, VersionBit, NumAlign;
    PatternAway(version, i, j, x, y);
    PositionsEven(version, i);
    PositionsEven(version, j);
    FunctionCount.FirstPos(version);
    var a := NumAlign(version);
    assert Earlier(version, i, j, a, 0);
    if InCore(version, i, j, x, y) {
      if CentreBefore(version, a, 0, x, y) {
        var c: nat, d: nat :| Earlier(version, c, d, a, 0) && IsCentre(version, c, d, x, y);
        CoresApart(version, i, j, c, d, x, y);
      }
    } else {
      NoOtherCore(version, i, j, x, y);
    }
  }

  lemma NoOtherCore(version: nat, i: nat, j: nat, x: nat, y: nat)
    requires 2 <= version <= 40 && i < NumAlign(version) && j < NumAlign(version)
    requires InPattern(version, i, j, x, y) && !InCore(version, i, j, x, y)
    ensures !CoreBefore(version, NumAlign(version), 0, x, y)
  {
    hide AlignPos, AlignStep;
    forall a: nat, b: nat | Earlier(version, a, b, NumAlign(version), 0) && InCore(version, a, b, x, y)
      ensures a == i && b == j
    {
      if a < i { PositionsApart(version, a, i); } else if i < a { PositionsApart(version, i, a); }
      if b < j { PositionsApart(version, b, j); } else if j < b { PositionsApart(version, j, b); }
    }
  }
}
