/** Marking the function modules of a version, and drawing their white parts, in the packed grid. */
module FunctionCode {
  import opened Bits
  import opened Octets
  import opened BitBuffer
  import opened Grid
  import opened FunctionModules
  import opened FunctionPatterns

  // ----- modules by coordinates ---------------------------------------------------------------------------------

  function Black(n: nat, g: Modules, x: nat, y: nat): bool
    requires x < n && y < n && |g| == Area(n)
  {
    g[At(n, x, y)]
  }

  lemma SetCell(n: nat, g: Modules, x: nat, y: nat, value: bool, u: nat, w: nat)
    requires x < n && y < n && u < n && w < n && |g| == Area(n)
    ensures Black(n, g[At(n, x, y) := value], u, w) == if u == x && w == y then value else Black(n, g, u, w)
  {
    hide At, Area;
    AtUnique(n, x, y);
    AtUnique(n, u, w);
  }

  method PutModule(qrcode: array<Byte>, x: nat, y: nat, value: bool, ghost n: nat)
    requires qrcode.Length > 0 && IsGrid(qrcode[..], n) && x < n && y < n
    modifies qrcode
    ensures IsGrid(qrcode[..], n)
    ensures forall u: nat, w: nat | u < n && w < n ::
      Black(n, ModulesOf(qrcode[..], n), u, w) ==
      if u == x && w == y then value else Black(n, old(ModulesOf(qrcode[..], n)), u, w)
  {
    hide ModulesOf, ByteValue, At, Area, Black;
    ghost var was := ModulesOf(qrcode[..], n);
    SetModule(qrcode, x, y, value);
    forall u: nat, w: nat | u < n && w < n
      ensures Black(n, ModulesOf(qrcode[..], n), u, w) == if u == x && w == y then value else Black(n, was, u, w)
    {
      SetCell(n, was, x, y, value, u, w);
    }
  }

  // ----- rectangles ------------------------------------------------------------------------------------------------

  /** A grid with a rectangle blackened. */
  ghost predicate Filled(n: nat, was: Modules, now: Modules, left: nat, top: nat, width: nat, height: nat) {
    && |was| == |now| == Area(n)
    && forall x: nat, y: nat | x < n && y < n ::
         Black(n, now, x, y) == (Black(n, was, x, y) || InRect(left, top, width, height, x, y))
  }

  method FillRectangle(left: nat, top: nat, width: nat, height: nat, qrcode: array<Byte>, ghost n: nat)
    requires qrcode.Length > 0 && IsGrid(qrcode[..], n) && left + width <= n && top + height <= n
    modifies qrcode
    ensures IsGrid(qrcode[..], n)
    ensures Filled(n, old(ModulesOf(qrcode[..], n)), ModulesOf(qrcode[..], n), left, top, width, height)
  {
    hide ModulesOf, ByteValue, Area, Black;
    ghost var was := ModulesOf(qrcode[..], n);
    for dy: nat := 0 to height
      invariant IsGrid(qrcode[..], n) && Filled(n, was, ModulesOf(qrcode[..], n), left, top, width, dy)
    {
      ghost var rows := ModulesOf(qrcode[..], n);
      for dx: nat := 0 to width
        invariant IsGrid(qrcode[..], n) && Filled(n, rows, ModulesOf(qrcode[..], n), left, top + dy, dx, 1)
      {
        PutModule(qrcode, left + dx, top + dy, true, n);
      }
    }
  }

  // ----- alignment coordinates ---------------------------------------------------------------------------------------

  method GetAlignmentPatternPositions(version: nat, result: array<nat>) returns (count: nat)
    requires 1 <= version <= 40 && result.Length == 7
    modifies result
    ensures count == NumAlign(version) <= 7
    ensures version > 1 ==> forall i: nat | i < count :: result[i] == AlignPos(version, i)
  {
    if version == 1 {
      return 0;
    }
    AlignArithmetic(version);
    var numAlign := version / 7 + 2;
    var step := if version == 32 then 26 else (version * 4 + numAlign * 2 + 1) / (numAlign * 2 - 2) * 2;
    assert step == AlignStep(version) && numAlign == NumAlign(version);
    var i, pos: int := numAlign - 1, version * 4 + 10;
    while i >= 1
      invariant 0 <= i < numAlign && pos == version * 4 + 10 - step * (numAlign - 1 - i)
      invariant forall k: nat | i < k < numAlign :: result[k] == AlignPos(version, k)
      decreases i
    {
      MulLe(numAlign - 1 - i, numAlign - 2, step);
      result[i] := pos;
      assert step * (numAlign - 1 - (i - 1)) == step * (numAlign - 1 - i) + step;
      i, pos := i - 1, pos - step;
    }
    result[0] := 6;
    return numAlign;
  }

  lemma PatternFits(version: nat, i: nat)
    requires 2 <= version <= 40 && i < NumAlign(version)
    ensures 4 <= AlignPos(version, i) - 2 && AlignPos(version, i) + 3 <= Side(version)
  {
    AlignArithmetic(version);
    if i > 0 {
      MulLe(NumAlign(version) - 1 - i, NumAlign(version) - 2, AlignStep(version));
      MulLe(0, NumAlign(version) - 1 - i, AlignStep(version));
    }
  }

  // ----- marking all function modules ----------------------------------------------------------------------------------

  lemma SideByte(n: nat)
    requires n < 256
    ensures ByteValue(OctetOf(n)) == n
  {
    hide Pow2, NumberBit, OctetOf, ByteValue;
    BinaryDigits(n);
    OctetDigits(n);
    ValueOfDigits(OctetOf(n), n % 2, n / 2 % 2, n / 4 % 2, n / 8 % 2, n / 16 % 2, n / 32 % 2, n / 64 % 2, n / 128 % 2);
  }

  lemma ValueOfDigits(b: Byte, d0: int, d1: int, d2: int, d3: int, d4: int, d5: int, d6: int, d7: int)
    requires 0 <= d0 < 2 && 0 <= d1 < 2 && 0 <= d2 < 2 && 0 <= d3 < 2
    requires 0 <= d4 < 2 && 0 <= d5 < 2 && 0 <= d6 < 2 && 0 <= d7 < 2
    requires b[0] == (d0 == 1) && b[1] == (d1 == 1) && b[2] == (d2 == 1) && b[3] == (d3 == 1)
    requires b[4] == (d4 == 1) && b[5] == (d5 == 1) && b[6] == (d6 == 1) && b[7] == (d7 == 1)
    ensures ByteValue(b) == d0 + 2 * d1 + 4 * d2 + 8 * d3 + 16 * d4 + 32 * d5 + 64 * d6 + 128 * d7
  {
  }

  lemma OctetDigits(n: nat)
    ensures
      var b := OctetOf(n);
      && b[0] == (n % 2 == 1) && b[1] == (n / 2 % 2 == 1) && b[2] == (n / 4 % 2 == 1) && b[3] == (n / 8 % 2 == 1)
      && b[4] == (n / 16 % 2 == 1) && b[5] == (n / 32 % 2 == 1) && b[6] == (n / 64 % 2 == 1) && b[7] == (n / 128 % 2 == 1)
  {
    hide Pow2;
    Pow2Values();
    PowZero();
  }

  lemma BinaryDigits(n: nat)
    requires n < 256
    ensures n == n % 2 + 2 * (n / 2 % 2) + 4 * (n / 4 % 2) + 8 * (n / 8 % 2) + 16 * (n / 16 % 2) + 32 * (n / 32 % 2)
                 + 64 * (n / 64 % 2) + 128 * (n / 128 % 2)
  {
    var a: int := n / 2;
    var b: int := a / 2;
    var c: int := b / 2;
    var d: int := c / 2;
    var e: int := d / 2;
    var f: int := e / 2;
    var g: int := f / 2;
    assert b == n / 4 && c == n / 8 && d == n / 16 && e == n / 32 && f == n / 64 && g == n / 128;
    assert g < 2;
  }

  /** An all-white grid of the version's size. */
  method ClearGrid(version: nat, qrcode: array<Byte>)
    requires 1 <= version <= 40 && qrcode.Length >= (Area(Side(version)) + 7) / 8 + 1
    modifies qrcode
    ensures IsGrid(qrcode[..], Side(version))
    ensures forall x: nat, y: nat | x < Side(version) && y < Side(version) ::
      !Black(Side(version), ModulesOf(qrcode[..], Side(version)), x, y)
  {
    hide ByteValue, OctetOf, Area;
    var qrsize := Side(version);
    var len := (Area(qrsize) + 7) / 8 + 1;
    for k: nat := 0 to len
      invariant forall i :: 0 <= i < k ==> qrcode[i] == ZeroByte()
    {
      qrcode[k] := ZeroByte();
    }
    SideByte(qrsize);
    qrcode[0] := OctetOf(qrsize);
  }

  /** The alignment patterns before the one at coordinates i and j in the order of drawing. */
  ghost predicate InEarlier(version: nat, i: nat, j: nat, x: int, y: int)
    requires 2 <= version <= 40
  {
    exists a: nat, b: nat :: a < NumAlign(version) && b < NumAlign(version) && (a < i || (a == i && b < j)) &&
                             InPattern(version, a, b, x, y)
  }

  ghost predicate Aligned(version: nat, was: Modules, now: Modules, i: nat, j: nat)
    requires 2 <= version <= 40
  {
    var n := Side(version);
    && |was| == |now| == Area(n)
    && forall x: nat, y: nat | x < n && y < n ::
         Black(n, now, x, y) == (Black(n, was, x, y) || InEarlier(version, i, j, x, y))
  }

  lemma NextPattern(version: nat, i: nat, j: nat, x: int, y: int)
    requires 2 <= version <= 40 && i < NumAlign(version) && j < NumAlign(version)
    ensures InEarlier(version, i, j + 1, x, y) <==> InEarlier(version, i, j, x, y) || InPattern(version, i, j, x, y)
  {
    hide InPattern;
    if InEarlier(version, i, j, x, y) {
      var a: nat, b: nat :| a < NumAlign(version) && b < NumAlign(version) && (a < i || (a == i && b < j)) &&
                            InPattern(version, a, b, x, y);
      assert a < i || (a == i && b < j + 1);
    }
  }

  lemma NextColumn(version: nat, i: nat, x: int, y: int)
    requires 2 <= version <= 40 && i < NumAlign(version)
    ensures InEarlier(version, i, NumAlign(version), x, y) <==> InEarlier(version, i + 1, 0, x, y)
  {
    hide InPattern;
    if InEarlier(version, i + 1, 0, x, y) {
      var a: nat, b: nat :| a < NumAlign(version) && b < NumAlign(version) && a < i + 1 && InPattern(version, a, b, x, y);
      assert a < i || (a == i && b < NumAlign(version));
    }
  }

  method FillAlignment(version: nat, positions: array<nat>, numAlign: nat, qrcode: array<Byte>)
    requires 2 <= version <= 40 && numAlign == NumAlign(version) && positions.Length == 7 && numAlign <= 7
    requires forall i: nat | i < numAlign :: positions[i] == AlignPos(version, i)
    requires qrcode.Length > 0 && IsGrid(qrcode[..], Side(version))
    modifies qrcode
    ensures IsGrid(qrcode[..], Side(version))
    ensures Aligned(version, old(ModulesOf(qrcode[..], Side(version))), ModulesOf(qrcode[..], Side(version)), numAlign, 0)
  {
    hide ModulesOf, ByteValue, Area, Black, AlignPos, InEarlier, InPattern, Filled, Aligned;
    var n := Side(version);
    ghost var was := ModulesOf(qrcode[..], n);
    NoneEarlier(version, was);
    for i: nat := 0 to numAlign
      invariant IsGrid(qrcode[..], n) && Aligned(version, was, ModulesOf(qrcode[..], n), i, 0)
    {
      for j: nat := 0 to numAlign
        invariant IsGrid(qrcode[..], n) && Aligned(version, was, ModulesOf(qrcode[..], n), i, j)
      {
        ghost var before := ModulesOf(qrcode[..], n);
        if !((i == 0 && j == 0) || (i == 0 && j == numAlign - 1) || (i == numAlign - 1 && j == 0)) {
          PatternFits(version, i);
          PatternFits(version, j);
          FillRectangle(positions[i] - 2, positions[j] - 2, 5, 5, qrcode, n);
          PatternDrawn(version, was, before, ModulesOf(qrcode[..], n), i, j);
        } else {
          CornerSkipped(version, was, before, i, j);
        }
      }
      ColumnDrawn(version, was, ModulesOf(qrcode[..], n), i);
    }
  }

  lemma NoneEarlier(version: nat, was: Modules)
    requires 2 <= version <= 40 && |was| == Area(Side(version))
    ensures Aligned(version, was, was, 0, 0)
  {
  }

  lemma PatternDrawn(version: nat, was: Modules, before: Modules, now: Modules, i: nat, j: nat)
    requires 2 <= version <= 40 && i < NumAlign(version) && j < NumAlign(version) && !IsCorner(version, i, j)
    requires Aligned(version, was, before, i, j) && AlignPos(version, i) >= 2 && AlignPos(version, j) >= 2
    requires Filled(Side(version), before, now, AlignPos(version, i) - 2, AlignPos(version, j) - 2, 5, 5)
    ensures Aligned(version, was, now, i, j + 1)
  {
    hide Black, AlignPos, InEarlier, Area;
    var n := Side(version);
    forall x: nat, y: nat | x < n && y < n
      ensures Black(n, now, x, y) == (Black(n, was, x, y) || InEarlier(version, i, j + 1, x, y))
    {
      NextPattern(version, i, j, x, y);
    }
  }

  lemma CornerSkipped(version: nat, was: Modules, now: Modules, i: nat, j: nat)
    requires 2 <= version <= 40 && i < NumAlign(version) && j < NumAlign(version) && IsCorner(version, i, j)
    requires Aligned(version, was, now, i, j)
    ensures Aligned(version, was, now, i, j + 1)
  {
    hide Black, AlignPos, InEarlier, Area;
    var n := Side(version);
    forall x: nat, y: nat | x < n && y < n
      ensures Black(n, now, x, y) == (Black(n, was, x, y) || InEarlier(version, i, j + 1, x, y))
    {
      NextPattern(version, i, j, x, y);
    }
  }

  lemma ColumnDrawn(version: nat, was: Modules, now: Modules, i: nat)
    requires 2 <= version <= 40 && i < NumAlign(version) && Aligned(version, was, now, i, NumAlign(version))
    ensures Aligned(version, was, now, i + 1, 0)
  {
    hide Black, AlignPos, InEarlier, Area;
    var n := Side(version);
    forall x: nat, y: nat | x < n && y < n
      ensures Black(n, now, x, y) == (Black(n, was, x, y) || InEarlier(version, i + 1, 0, x, y))
    {
      NextColumn(version, i, x, y);
    }
  }

  /** Whatever the buffer held, exactly the function modules of the version are black afterwards. */
  method InitializeFunctionModules(version: nat, qrcode: array<Byte>)
    requires 1 <= version <= 40 && qrcode.Length >= (Area(Side(version)) + 7) / 8 + 1
    modifies qrcode
    ensures IsGrid(qrcode[..], Side(version)) && ModulesOf(qrcode[..], Side(version)) == FunctionMap(version)
  {
    hide ModulesOf, ByteValue, Area, Black, AlignPos, InEarlier, InPattern, FunctionMap;
    var qrsize := Side(version);
    ClearGrid(version, qrcode);
    FillRectangle(6, 0, 1, qrsize, qrcode, qrsize);
    FillRectangle(0, 6, qrsize, 1, qrcode, qrsize);
    FillRectangle(0, 0, 9, 9, qrcode, qrsize);
    FillRectangle(qrsize - 8, 0, 8, 9, qrcode, qrsize);
    FillRectangle(0, qrsize - 8, 9, 8, qrcode, qrsize);
    ghost var base := ModulesOf(qrcode[..], qrsize);
    assert forall x: nat, y: nat | x < qrsize && y < qrsize :: Black(qrsize, base, x, y) == InBase(version, x, y);
    var positions := new nat[7](_ => 0);
    var numAlign := GetAlignmentPatternPositions(version, positions);
    if version > 1 {
      FillAlignment(version, positions, numAlign, qrcode);
    }
    ghost var aligned := ModulesOf(qrcode[..], qrsize);
    AllAligned(version, base, aligned);
    if version >= 7 {
      FillRectangle(qrsize - 11, 0, 3, 6, qrcode, qrsize);
      FillRectangle(0, qrsize - 11, 6, 3, qrcode, qrsize);
    }
    MapFromCells(version, ModulesOf(qrcode[..], qrsize));
  }

  lemma AllAligned(version: nat, base: Modules, now: Modules)
    requires 1 <= version <= 40 && |base| == |now| == Area(Side(version))
    requires if version == 1 then now == base else Aligned(version, base, now, NumAlign(version), 0)
    requires forall x: nat, y: nat | x < Side(version) && y < Side(version) ::
      Black(Side(version), base, x, y) == InBase(version, x, y)
    ensures forall x: nat, y: nat | x < Side(version) && y < Side(version) ::
      Black(Side(version), now, x, y) == (InBase(version, x, y) || InAlignment(version, x, y))
  {
    hide Black, InPattern, InBase, Area;
  }

  lemma MapFromCells(version: nat, g: Modules)
    requires 1 <= version <= 40 && |g| == Area(Side(version))
    requires forall x: nat, y: nat | x < Side(version) && y < Side(version) ::
      Black(Side(version), g, x, y) == IsFunction(version, x, y)
    ensures g == FunctionMap(version)
  {
    hide Area, At, IsFunction;
    var n := Side(version);
    forall i | 0 <= i < Area(n)
      ensures g[i] == FunctionMap(version)[i]
    {
      AtOfIndex(n, i);
      assert Black(n, g, i % n, i / n) == g[i];
    }
  }

  // ----- the white parts of the patterns --------------------------------------------------------------------------------

  /** A grid with some modules turned white. */
  ghost predicate Whitened(n: nat, was: Modules, now: Modules, white: (int, int) -> bool) {
    && |was| == |now| == Area(n)
    && forall x: nat, y: nat | x < n && y < n :: Black(n, now, x, y) == (Black(n, was, x, y) && !white(x, y))
  }

  method DrawTiming(qrcode: array<Byte>, ghost version: nat)
    requires 1 <= version <= 40 && qrcode.Length > 0 && IsGrid(qrcode[..], Side(version))
    modifies qrcode
    ensures IsGrid(qrcode[..], Side(version))
    ensures Whitened(Side(version), old(ModulesOf(qrcode[..], Side(version))), ModulesOf(qrcode[..], Side(version)),
                     (x, y) => IsTimingWhite(version, x, y))
  {
    hide ModulesOf, ByteValue, Area, Black;
    var qrsize := GetSize(qrcode);
    ghost var was := ModulesOf(qrcode[..], qrsize);
    var i: nat := 7;
    while i < qrsize - 7
      invariant i % 2 == 1 && i <= qrsize - 6 && IsGrid(qrcode[..], qrsize)
      invariant Whitened(qrsize, was, ModulesOf(qrcode[..], qrsize), (x, y) => IsTimingWhite(version, x, y) && x < i && y < i)
    {
      PutModule(qrcode, 6, i, false, qrsize);
      PutModule(qrcode, i, 6, false, qrsize);
      i := i + 2;
    }
  }

  /** The ring modules around a centre that come before (dx, dy) in the order of drawing. */
  predicate RingBefore(dx: int, dy: int, ex: int, ey: int) {
    OnRing(ex, ey) && (ey < dy || (ey == dy && ex < dx))
  }

  predicate FinderBefore(version: nat, dx: int, dy: int, x: int, y: int) {
    var far := Side(version) - 4;
    RingBefore(dx, dy, x - 3, y - 3) || RingBefore(dx, dy, x - far, y - 3) || RingBefore(dx, dy, x - 3, y - far)
  }

  /** setModuleBounded with a white module. */
  method PutWhite(qrcode: array<Byte>, x: int, y: int, ghost n: nat)
    requires qrcode.Length > 0 && IsGrid(qrcode[..], n)
    modifies qrcode
    ensures IsGrid(qrcode[..], n)
    ensures Whitened(n, old(ModulesOf(qrcode[..], n)), ModulesOf(qrcode[..], n), (u, w) => u == x && w == y)
  {
    hide ModulesOf, ByteValue, Area, Black;
    var qrsize := GetSize(qrcode);
    if 0 <= x < qrsize && 0 <= y < qrsize {
      PutModule(qrcode, x, y, false, qrsize);
    }
  }

  method DrawFinders(qrcode: array<Byte>, ghost version: nat)
    requires 1 <= version <= 40 && qrcode.Length > 0 && IsGrid(qrcode[..], Side(version))
    modifies qrcode
    ensures IsGrid(qrcode[..], Side(version))
    ensures Whitened(Side(version), old(ModulesOf(qrcode[..], Side(version))), ModulesOf(qrcode[..], Side(version)),
                     (x, y) => IsFinderWhite(version, x, y))
  {
    hide ModulesOf, ByteValue, Area, Black, OnRing;
    var qrsize := GetSize(qrcode);
    ghost var was := ModulesOf(qrcode[..], qrsize);
    NothingBefore();
    for dy := -4 to 5
      invariant IsGrid(qrcode[..], qrsize)
      invariant Whitened(qrsize, was, ModulesOf(qrcode[..], qrsize), (x, y) => FinderBefore(version, -4, dy, x, y))
    {
      RowBefore(-4, dy);
      for dx := -4 to 5
        invariant IsGrid(qrcode[..], qrsize)
        invariant Whitened(qrsize, was, ModulesOf(qrcode[..], qrsize), (x, y) => FinderBefore(version, dx, dy, x, y))
      {
        var dist := Distance(dx, dy);
        OneBefore(dx, dy);
        if dist == 2 || dist == 4 {
          PutWhite(qrcode, 3 + dx, 3 + dy, qrsize);
          PutWhite(qrcode, qrsize - 4 + dx, 3 + dy, qrsize);
          PutWhite(qrcode, 3 + dx, qrsize - 4 + dy, qrsize);
        }
      }
      RowDone(dy);
    }
    AllBefore();
  }

  lemma NothingBefore()
    ensures forall ex: int, ey: int :: !RingBefore(-4, -4, ex, ey)
  {
  }

  lemma RowBefore(dx: int, dy: int)
    ensures forall ex: int, ey: int :: RingBefore(dx, dy, ex, ey) ==> OnRing(ex, ey)
  {
  }

  lemma OneBefore(dx: int, dy: int)
    ensures forall ex: int, ey: int ::
      RingBefore(dx + 1, dy, ex, ey) == (RingBefore(dx, dy, ex, ey) || (OnRing(dx, dy) && ex == dx && ey == dy))
    ensures OnRing(dx, dy) == (Distance(dx, dy) == 2 || Distance(dx, dy) == 4)
  {
  }

  lemma RowDone(dy: int)
    ensures forall ex: int, ey: int :: RingBefore(5, dy, ex, ey) == RingBefore(-4, dy + 1, ex, ey)
  {
  }

  lemma AllBefore()
    ensures forall ex: int, ey: int :: RingBefore(-4, 5, ex, ey) == OnRing(ex, ey)
  {
  }

  // ----- alignment patterns -----------------------------------------------------------------------------------------------

  /** The inner parts of the alignment patterns before the one at i and j are drawn. */
  ghost predicate Cored(version: nat, was: Modules, now: Modules, i: nat, j: nat)
    requires 2 <= version <= 40
  {
    var n := Side(version);
    && |was| == |now| == Area(n)
    && forall x: nat, y: nat | x < n && y < n ::
         Black(n, now, x, y) == if CoreBefore(version, i, j, x, y) then CentreBefore(version, i, j, x, y) else Black(n, was, x, y)
  }

  /** Three by three modules, white but for the middle one. */
  ghost predicate Boxed(n: nat, was: Modules, now: Modules, cx: int, cy: int) {
    && |was| == |now| == Area(n)
    && forall x: nat, y: nat | x < n && y < n ::
         Black(n, now, x, y) == if InRect(cx - 1, cy - 1, 3, 3, x, y) then x == cx && y == cy else Black(n, was, x, y)
  }

  method DrawBox(cx: nat, cy: nat, qrcode: array<Byte>, ghost n: nat)
    requires qrcode.Length > 0 && IsGrid(qrcode[..], n) && 1 <= cx < n - 1 && 1 <= cy < n - 1
    modifies qrcode
    ensures IsGrid(qrcode[..], n) && Boxed(n, old(ModulesOf(qrcode[..], n)), ModulesOf(qrcode[..], n), cx, cy)
  {
    hide ModulesOf, ByteValue, Area, Black;
    ghost var was := ModulesOf(qrcode[..], n);
    for dy := -1 to 2
      invariant IsGrid(qrcode[..], n)
      invariant forall x: nat, y: nat | x < n && y < n ::
        Black(n, ModulesOf(qrcode[..], n), x, y) ==
        if InRect(cx - 1, cy - 1, 3, dy + 1, x, y) then x == cx && y == cy else Black(n, was, x, y)
    {
      for dx := -1 to 2
        invariant IsGrid(qrcode[..], n)
        invariant forall x: nat, y: nat | x < n && y < n ::
          Black(n, ModulesOf(qrcode[..], n), x, y) ==
          if InRect(cx - 1, cy - 1, 3, dy + 1, x, y) || InRect(cx - 1, cy + dy, dx + 1, 1, x, y) then x == cx && y == cy
          else Black(n, was, x, y)
      {
        PutModule(qrcode, cx + dx, cy + dy, dx == 0 && dy == 0, n);
      }
    }
  }

  lemma CoreDrawn(version: nat, was: Modules, before: Modules, now: Modules, i: nat, j: nat)
    requires 2 <= version <= 40 && i < NumAlign(version) && j < NumAlign(version)
    requires Cored(version, was, before, i, j)
    requires if IsCorner(version, i, j) then now == before
             else Boxed(Side(version), before, now, AlignPos(version, i), AlignPos(version, j))
    ensures Cored(version, was, now, i, j + 1)
  {
    hide Black, AlignPos, CoreBefore, CentreBefore, Area;
    var n := Side(version);
    forall x: nat, y: nat | x < n && y < n
      ensures Black(n, now, x, y) ==
              if CoreBefore(version, i, j + 1, x, y) then CentreBefore(version, i, j + 1, x, y) else Black(n, was, x, y)
    {
      CoreStep(version, i, j, x, y);
    }
  }

  lemma CoresDrawn(version: nat, was: Modules, now: Modules, i: nat)
    requires 2 <= version <= 40 && i < NumAlign(version) && Cored(version, was, now, i, NumAlign(version))
    ensures Cored(version, was, now, i + 1, 0)
  {
    hide Black, CoreBefore, CentreBefore, Area;
    var n := Side(version);
    forall x: nat, y: nat | x < n && y < n
      ensures Black(n, now, x, y) ==
              if CoreBefore(version, i + 1, 0, x, y) then CentreBefore(version, i + 1, 0, x, y) else Black(n, was, x, y)
    {
      CoreColumn(version, i, x, y);
    }
  }

  lemma NoCoreYet(version: nat, was: Modules)
    requires 2 <= version <= 40 && |was| == Area(Side(version))
    ensures Cored(version, was, was, 0, 0)
  {
  }

  method DrawAlignment(version: nat, qrcode: array<Byte>)
    requires 1 <= version <= 40 && qrcode.Length > 0 && IsGrid(qrcode[..], Side(version))
    modifies qrcode
    ensures IsGrid(qrcode[..], Side(version))
    ensures
      var was, now := old(ModulesOf(qrcode[..], Side(version))), ModulesOf(qrcode[..], Side(version));
      if version == 1 then now == was else Cored(version, was, now, NumAlign(version), 0)
  {
    hide ModulesOf, ByteValue, Area, AlignPos, Black, CoreBefore, CentreBefore, Cored, Boxed;
    var n := Side(version);
    ghost var was := ModulesOf(qrcode[..], n);
    var positions := new nat[7](_ => 0);
    var numAlign := GetAlignmentPatternPositions(version, positions);
    if version > 1 {
      NoCoreYet(version, was);
    }
    for i: nat := 0 to numAlign
      invariant IsGrid(qrcode[..], n)
      invariant if version == 1 then ModulesOf(qrcode[..], n) == was else Cored(version, was, ModulesOf(qrcode[..], n), i, 0)
      invariant version > 1 ==> forall k: nat | k < numAlign :: positions[k] == AlignPos(version, k)
    {
      for j: nat := 0 to numAlign
        invariant IsGrid(qrcode[..], n) && Cored(version, was, ModulesOf(qrcode[..], n), i, j)
        invariant forall k: nat | k < numAlign :: positions[k] == AlignPos(version, k)
      {
        ghost var before := ModulesOf(qrcode[..], n);
        if (i == 0 && j == 0) || (i == 0 && j == numAlign - 1) || (i == numAlign - 1 && j == 0) {
          CoreDrawn(version, was, before, before, i, j);
          continue;
        }
        PatternFits(version, i);
        PatternFits(version, j);
        DrawBox(positions[i], positions[j], qrcode, n);
        CoreDrawn(version, was, before, ModulesOf(qrcode[..], n), i, j);
      }
      CoresDrawn(version, was, ModulesOf(qrcode[..], n), i);
    }
  }

  // ----- version information -----------------------------------------------------------------------------------------------

  /** The first k bits of the version word are drawn in both copies. */
  ghost predicate Versioned(version: nat, was: Modules, now: Modules, k: nat)
    requires 7 <= version <= 40
  {
    var n := Side(version);
    && |was| == |now| == Area(n)
    && forall x: nat, y: nat | x < n && y < n ::
         Black(n, now, x, y) ==
         if InVersionBlock(version, x, y) && VersionIndex(version, x, y) < k then VersionBit(version, VersionIndex(version, x, y))
         else Black(n, was, x, y)
  }

  /** Both modules of a bit, and no other, have its index. */
  lemma IndexOf(version: nat, i: nat, j: nat, x: int, y: int)
    requires 7 <= version <= 40 && i < 6 && j < 3
    ensures
      var k := Side(version) - 11 + j;
      InVersionBlock(version, x, y) && VersionIndex(version, x, y) == 3 * i + j <==> (x == k && y == i) || (x == i && y == k)
  {
  }

  method ComputeVersionWord(version: nat) returns (bits: bv32)
    requires version <= 40
    ensures bits == VersionWord(version)
  {
    hide CheckStep, NumberWord, CheckBits, Joined;
    var rem := NumberWord(version);
    NoSteps(version);
    var i: nat := 0;
    while i < 12
      invariant i <= 12 && rem == CheckBits(version, i)
    {
      NextStep(version, i);
      rem := CheckStep(rem);
      i := i + 1;
    }
    bits := Joined(NumberWord(version), rem);
  }

  lemma NoSteps(version: nat)
    requires version <= 40
    ensures CheckBits(version, 0) == NumberWord(version)
  {
  }

  lemma NextStep(version: nat, i: nat)
    requires version <= 40
    ensures CheckBits(version, i + 1) == CheckStep(CheckBits(version, i))
  {
    hide CheckStep;
  }

  /** The lowest bit, and the word without it. */
  method TakeBit(bits: bv32, ghost version: nat, ghost k: nat) returns (bit: bool, rest: bv32)
    requires version <= 40 && bits == ShiftedWord(version, k)
    ensures bit == VersionBit(version, k) && rest == ShiftedWord(version, k + 1)
  {
    hide VersionWord, LowBit, Halved;
    bit := LowBit(bits);
    rest := Halved(bits);
  }

  method PutVersionBit(qrcode: array<Byte>, version: nat, i: nat, j: nat, bit: bool, ghost was: Modules)
    requires 7 <= version <= 40 && i < 6 && j < 3 && qrcode.Length > 0 && IsGrid(qrcode[..], Side(version))
    requires bit == VersionBit(version, 3 * i + j)
    requires Versioned(version, was, ModulesOf(qrcode[..], Side(version)), 3 * i + j)
    modifies qrcode
    ensures IsGrid(qrcode[..], Side(version))
    ensures Versioned(version, was, ModulesOf(qrcode[..], Side(version)), 3 * i + j + 1)
  {
    hide ModulesOf, ByteValue, Area, Black, VersionBit, Versioned;
    ghost var n, before := Side(version), ModulesOf(qrcode[..], Side(version));
    var k := Side(version) - 11 + j;
    PutModule(qrcode, k, i, bit, n);
    PutModule(qrcode, i, k, bit, n);
    BitDrawn(version, was, before, ModulesOf(qrcode[..], n), i, j, bit);
  }

  method DrawVersion(version: nat, qrcode: array<Byte>)
    requires 7 <= version <= 40 && qrcode.Length > 0 && IsGrid(qrcode[..], Side(version))
    modifies qrcode
    ensures IsGrid(qrcode[..], Side(version))
    ensures Versioned(version, old(ModulesOf(qrcode[..], Side(version))), ModulesOf(qrcode[..], Side(version)), 18)
  {
    hide ModulesOf, ByteValue, Area, VersionBit, Versioned, VersionWord, CheckBits, ShiftedWord;
    ghost var n, was := Side(version), ModulesOf(qrcode[..], Side(version));
    var bits := ComputeVersionWord(version);
    StartVersion(version, was);
    for i: nat := 0 to 6
      invariant IsGrid(qrcode[..], n) && Versioned(version, was, ModulesOf(qrcode[..], n), 3 * i)
      invariant bits == ShiftedWord(version, 3 * i)
    {
      for j: nat := 0 to 3
        invariant IsGrid(qrcode[..], n) && Versioned(version, was, ModulesOf(qrcode[..], n), 3 * i + j)
        invariant bits == ShiftedWord(version, 3 * i + j)
      {
        var bit;
        bit, bits := TakeBit(bits, version, 3 * i + j);
        PutVersionBit(qrcode, version, i, j, bit, was);
      }
    }
  }

  lemma StartVersion(version: nat, was: Modules)
    requires 7 <= version <= 40 && |was| == Area(Side(version))
    ensures Versioned(version, was, was, 0) && ShiftedWord(version, 0) == VersionWord(version)
  {
    hide Black, VersionBit;
  }

  lemma BitDrawn(version: nat, was: Modules, before: Modules, now: Modules, i: nat, j: nat, bit: bool)
    requires 7 <= version <= 40 && i < 6 && j < 3 && Versioned(version, was, before, 3 * i + j)
    requires bit == VersionBit(version, 3 * i + j) && |now| == Area(Side(version))
    requires forall x: nat, y: nat | x < Side(version) && y < Side(version) ::
      var k := Side(version) - 11 + j;
      Black(Side(version), now, x, y) ==
      if (x == k && y == i) || (x == i && y == k) then bit else Black(Side(version), before, x, y)
    ensures Versioned(version, was, now, 3 * i + j + 1)
  {
    hide Black, VersionBit, VersionIndex, InVersionBlock, Area;
    var n := Side(version);
    forall x: nat, y: nat | x < n && y < n
      ensures Black(n, now, x, y) ==
              if InVersionBlock(version, x, y) && VersionIndex(version, x, y) < 3 * i + j + 1
              then VersionBit(version, VersionIndex(version, x, y)) else Black(n, was, x, y)
    {
      IndexOf(version, i, j, x, y);
    }
  }

  // ----- all white parts ---------------------------------------------------------------------------------------------------

  /** The grid with all patterns drawn over it. */
  ghost predicate Drawn(version: nat, was: Modules, now: Modules)
    requires 1 <= version <= 40
  {
    var n := Side(version);
    && |was| == |now| == Area(n)
    && forall x: nat, y: nat | x < n && y < n :: Black(n, now, x, y) == Painted(version, x, y, Black(n, was, x, y))
  }

  /** Every module gets the colour its pattern has; other modules keep theirs. */
  method DrawWhiteFunctionModules(qrcode: array<Byte>, version: nat)
    requires 1 <= version <= 40 && qrcode.Length > 0 && IsGrid(qrcode[..], Side(version))
    modifies qrcode
    ensures IsGrid(qrcode[..], Side(version))
    ensures Drawn(version, old(ModulesOf(qrcode[..], Side(version))), ModulesOf(qrcode[..], Side(version)))
  {
    hide ModulesOf, ByteValue, Area, Black, IsTimingWhite, IsFinderWhite, CoreBefore, CentreBefore, InVersionBlock;
    hide Versioned, Cored, Whitened, Drawn;
    var n := Side(version);
    ghost var m0 := ModulesOf(qrcode[..], n);
    DrawTiming(qrcode, version);
    ghost var m1 := ModulesOf(qrcode[..], n);
    DrawFinders(qrcode, version);
    ghost var m2 := ModulesOf(qrcode[..], n);
    DrawAlignment(version, qrcode);
    ghost var m3 := ModulesOf(qrcode[..], n);
    if version >= 7 {
      DrawVersion(version, qrcode);
    }
    StagesPaint(version, m0, m1, m2, m3, ModulesOf(qrcode[..], n));
  }

  lemma StagesPaint(version: nat, m0: Modules, m1: Modules, m2: Modules, m3: Modules, m4: Modules)
    requires 1 <= version <= 40 && |m3| == Area(Side(version))
    requires Whitened(Side(version), m0, m1, (x, y) => IsTimingWhite(version, x, y))
    requires Whitened(Side(version), m1, m2, (x, y) => IsFinderWhite(version, x, y))
    requires if version == 1 then m3 == m2 else Cored(version, m2, m3, NumAlign(version), 0)
    requires if version < 7 then m4 == m3 else Versioned(version, m3, m4, 18)
    ensures Drawn(version, m0, m4)
  {
    hide Area, Black, IsTimingWhite, IsFinderWhite, CoreBefore, CentreBefore, VersionBit, VersionIndex;
    var n := Side(version);
    forall x: nat, y: nat | x < n && y < n
      ensures Black(n, m4, x, y) == Painted(version, x, y, Black(n, m0, x, y))
    {
      NoBlockBefore(version, x, y);
    }
  }

  lemma NoBlockBefore(version: nat, x: int, y: int)
    ensures version < 7 ==> !InVersionBlock(version, x, y)
    ensures InVersionBlock(version, x, y) ==> VersionIndex(version, x, y) < 18
  {
  }

  /** Drawing the patterns leaves every module outside the function map alone. */
  lemma DrawnKeeps(version: nat, was: Modules, now: Modules, i: nat)
    requires 1 <= version <= 40 && Drawn(version, was, now) && i < Area(Side(version)) && !FunctionMap(version)[i]
    ensures now[i] == was[i]
  {
    hide Area, At, IsFunction, Painted;
    var n := Side(version);
    AtOfIndex(n, i);
    PaintedIsConfined(version, i % n, i / n, was[i]);
    assert Black(n, now, i % n, i / n) == now[i] && Black(n, was, i % n, i / n) == was[i];
  }
}
