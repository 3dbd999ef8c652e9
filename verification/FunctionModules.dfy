/** Where the function patterns of each version lie, and how many modules they leave for codewords. */
module FunctionModules {
  import opened Bits
  import opened Grid
  import opened Placement
  import opened CellSets

  // ----- geometry -----------------------------------------------------------------------------------------------

  function Side(version: nat): nat {
    4 * version + 17
  }

  /** How many alignment coordinates a version has. */
  function NumAlign(version: nat): nat {
    if version == 1 then 0 else version / 7 + 2
  }

  function AlignStep(version: nat): (step: nat)
    requires 2 <= version <= 40
    ensures step >= 12 && (NumAlign(version) >= 3 ==> step >= 16)
    ensures 4 * version + 10 >= 18 + step * (NumAlign(version) - 2)
  {
    AlignArithmetic(version);
    if version == 32 then 26
    else (4 * version + 2 * NumAlign(version) + 1) / (2 * NumAlign(version) - 2) * 2
  }

  lemma AlignArithmetic(version: nat)
    requires 2 <= version <= 40
    ensures 2 <= NumAlign(version) <= 7
    ensures
      var a := NumAlign(version);
      var step := if version == 32 then 26 else (4 * version + 2 * a + 1) / (2 * a - 2) * 2;
      step >= 12 && (a >= 3 ==> step >= 16) && 4 * version + 10 >= 18 + step * (a - 2)
  {
    match NumAlign(version)
    case 2 =>
    case 3 =>
    case 4 =>
    case 5 =>
    case 6 =>
    case 7 =>
  }

  /** Coordinate i of the alignment patterns: 6, then equally spaced up to the far edge. */
  function AlignPos(version: nat, i: nat): int
    requires 2 <= version <= 40 && i < NumAlign(version)
  {
    if i == 0 then 6 else 4 * version + 10 - AlignStep(version) * (NumAlign(version) - 1 - i)
  }

  /** The three finder corners have no alignment pattern. */
  predicate IsCorner(version: nat, i: nat, j: nat) {
    var last := NumAlign(version) - 1;
    (i == 0 && j == 0) || (i == 0 && j == last) || (i == last && j == 0)
  }

  predicate InRect(left: int, top: int, width: int, height: int, x: int, y: int) {
    left <= x < left + width && top <= y < top + height
  }

  /** Module (x, y) belongs to the alignment pattern at coordinates i and j. */
  predicate InPattern(version: nat, i: nat, j: nat, x: int, y: int)
    requires 2 <= version <= 40 && i < NumAlign(version) && j < NumAlign(version)
  {
    !IsCorner(version, i, j) && InRect(AlignPos(version, i) - 2, AlignPos(version, j) - 2, 5, 5, x, y)
  }

  ghost predicate InAlignment(version: nat, x: int, y: int)
    requires 1 <= version <= 40
  {
    version > 1 && exists i: nat, j: nat :: i < NumAlign(version) && j < NumAlign(version) && InPattern(version, i, j, x, y)
  }

  /** Timing patterns, and finder patterns with their separators and format areas. */
  predicate InBase(version: nat, x: int, y: int) {
    var n := Side(version);
    x == 6 || y == 6 || InRect(0, 0, 9, 9, x, y) || InRect(n - 8, 0, 8, 9, x, y) || InRect(0, n - 8, 9, 8, x, y)
  }

  predicate InVersionBlock(version: nat, x: int, y: int) {
    var n := Side(version);
    version >= 7 && (InRect(n - 11, 0, 3, 6, x, y) || InRect(0, n - 11, 6, 3, x, y))
  }

  ghost predicate IsFunction(version: nat, x: int, y: int)
    requires 1 <= version <= 40
  {
    InBase(version, x, y) || InAlignment(version, x, y) || InVersionBlock(version, x, y)
  }

  /** The grid that has exactly the function modules black. */
  ghost function FunctionMap(version: nat): (marks: Modules)
    requires 1 <= version <= 40
    ensures IsSide(Side(version)) && |marks| == Area(Side(version))
  {
    var n := Side(version);
    seq(Area(n), i requires 0 <= i < Area(n) => IsFunction(version, i % n, i / n))
  }

  /** The number of modules for codewords, remainder bits included. */
  function RawDataModules(version: nat): int {
    var all := (16 * version + 128) * version + 64;
    if version < 2 then all
    else
      var a := version / 7 + 2;
      all - ((25 * a - 10) * a - 55) - if version >= 7 then 36 else 0
  }
}
