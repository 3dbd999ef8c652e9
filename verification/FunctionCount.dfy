/** The function map leaves exactly the modules that the version's formula promises. */
module FunctionCount {
  import opened Bits
  import opened Grid
  import opened Placement
  import opened FunctionModules
  import opened CellSets

  // ----- the columns near alignment coordinates -------------------------------------------------------------------

  /** The five columns around each of the alignment coordinates 1 to k. */
  function Near(version: nat, k: nat): (s: set<nat>)
    requires 2 <= version <= 40 && k < NumAlign(version)
    ensures |s| == 5 * k
    ensures forall x :: x in s ==> 16 <= x <= AlignPos(version, k) + 2
    ensures forall x :: x in s <==> exists i: nat :: 1 <= i <= k && Close(version, i, x)
  {
    if k == 0 then {}
    else
      PosBounds(version, k);
      var before, here := Near(version, k - 1), CellSets.Span(AlignPos(version, k) - 2, 5);
      NearGrows(version, k, before, here);
      before + here
  }

  predicate Close(version: nat, i: nat, x: int)
    requires 2 <= version <= 40
  {
    i < NumAlign(version) && AlignPos(version, i) - 2 <= x <= AlignPos(version, i) + 2
  }

  lemma PosBounds(version: nat, i: nat)
    requires 2 <= version <= 40 && 1 <= i < NumAlign(version)
    ensures 18 <= AlignPos(version, i) <= 4 * version + 10
    ensures i > 1 ==> AlignPos(version, i - 1) + 16 <= AlignPos(version, i)
    ensures i + 1 < NumAlign(version) ==> AlignPos(version, i) + 16 <= 4 * version + 10
  {
    var a, step := NumAlign(version), AlignStep(version);
    AlignArithmetic(version);
    MulLe(a - 1 - i, a - 2, step);
    if i + 1 < a {
      MulLe(1, a - 1 - i, step);
    }
    if i > 1 {
      assert step * (a - 1 - (i - 1)) == step * (a - 1 - i) + step;
    }
  }

  lemma NearGrows(version: nat, k: nat, before: set<nat>, here: set<nat>)
    requires 2 <= version <= 40 && 1 <= k < NumAlign(version) && AlignPos(version, k) >= 18
    requires |before| == 5 * (k - 1) && here == CellSets.Span(AlignPos(version, k) - 2, 5)
    requires forall x :: x in before ==> 16 <= x <= AlignPos(version, k - 1) + 2
    requires forall x :: x in before <==> exists i: nat :: 1 <= i <= k - 1 && Close(version, i, x)
    ensures |before + here| == 5 * k
    ensures forall x :: x in before + here ==> 16 <= x <= AlignPos(version, k) + 2
    ensures forall x :: x in before + here <==> exists i: nat :: 1 <= i <= k && Close(version, i, x)
  {
    hide AlignPos;
    PosBounds(version, k);
    if k == 1 {
      assert before == {};
    }
    assert before !! here;
    forall x
      ensures x in before + here <==> exists i: nat :: 1 <= i <= k && Close(version, i, x)
    {
      assert x in here <==> Close(version, k, x);
    }
  }

  // ----- the alignment patterns, outside the timing lines ------------------------------------------------------------

  /** The four rows of a pattern on a timing line that the timing line does not have. */
  function Edge(): (e: set<nat>)
    ensures |e| == 4
  {
    {4, 5, 7, 8}
  }

  function Inner(version: nat): Cells
    requires 2 <= version <= 40
  {
    AlignArithmetic(version);
    Product(Near(version, NumAlign(version) - 1), Near(version, NumAlign(version) - 1))
  }

  function Top(version: nat): Cells
    requires 2 <= version <= 40
  {
    AlignArithmetic(version);
    Product(Near(version, NumAlign(version) - 2), Edge())
  }

  function Left(version: nat): Cells
    requires 2 <= version <= 40
  {
    AlignArithmetic(version);
    Product(Edge(), Near(version, NumAlign(version) - 2))
  }

  lemma PatternParts(version: nat, i: nat, j: nat, x: nat, y: nat)
    requires 2 <= version <= 40 && i < NumAlign(version) && j < NumAlign(version) && x != 6 && y != 6
    requires InPattern(version, i, j, x, y)
    ensures (x, y) in Inner(version) + Top(version) + Left(version)
  {
    hide AlignPos, Near, AlignStep;
    FirstPos(version);
    var a := NumAlign(version);
    assert Close(version, i, x) && Close(version, j, y);
    if i == 0 {
      assert y in Near(version, a - 2) && x in Edge();
    } else if j == 0 {
      assert x in Near(version, a - 2) && y in Edge();
    } else {
      assert x in Near(version, a - 1) && y in Near(version, a - 1);
    }
  }

  lemma FirstPos(version: nat)
    requires 2 <= version <= 40
    ensures NumAlign(version) > 0 && AlignPos(version, 0) == 6
  {
    AlignArithmetic(version);
  }

  lemma PartsPattern(version: nat, x: nat, y: nat)
    requires 2 <= version <= 40 && (x, y) in Inner(version) + Top(version) + Left(version)
    ensures InAlignment(version, x, y)
  {
    hide AlignPos, Near;
    AlignArithmetic(version);
    FirstPos(version);
    var a := NumAlign(version);
    if (x, y) in Inner(version) {
      var i: nat :| 1 <= i <= a - 1 && Close(version, i, x);
      var j: nat :| 1 <= j <= a - 1 && Close(version, j, y);
      assert InPattern(version, i, j, x, y);
    } else if (x, y) in Top(version) {
      var i: nat :| 1 <= i <= a - 2 && Close(version, i, x);
      assert InPattern(version, i, 0, x, y);
    } else {
      var j: nat :| 1 <= j <= a - 2 && Close(version, j, y);
      assert InPattern(version, 0, j, x, y);
    }
  }

  /** The parts lie in the grid, clear of the other function patterns and of one another. */
  lemma PartsApart(version: nat, x: nat, y: nat)
    requires 2 <= version <= 40 && (x, y) in Inner(version) + Top(version) + Left(version)
    ensures x < Side(version) && y < Side(version) && !InBase(version, x, y) && !InVersionBlock(version, x, y)
    ensures (x >= 16 || y >= 16) && ((x, y) in Inner(version) <==> x >= 16 && y >= 16)
    ensures (x, y) in Top(version) <==> y < 16
    ensures (x, y) in Left(version) <==> x < 16
  {
    hide AlignPos, Near;
    AlignArithmetic(version);
    FirstPos(version);
    PosBounds(version, NumAlign(version) - 1);
    if NumAlign(version) > 2 {
      PosBounds(version, NumAlign(version) - 2);
    }
  }

  lemma PartsDisjoint(version: nat)
    requires 2 <= version <= 40
    ensures Inner(version) !! Top(version) && (Inner(version) + Top(version)) !! Left(version)
  {
    hide Inner, Top, Left;
    var inner, top, left := Inner(version), Top(version), Left(version);
    forall c: (nat, nat) | c in inner + top + left
      ensures (c.0 >= 16 || c.1 >= 16) && (c in inner <==> c.0 >= 16 && c.1 >= 16) && (c in top <==> c.1 < 16) && (c in left <==> c.0 < 16)
    {
      PartsApart(version, c.0, c.1);
    }
  }

  lemma SquareSize(version: nat)
    requires 2 <= version <= 40
    ensures NumAlign(version) >= 2 && |Inner(version)| == 25 * (NumAlign(version) - 1) * (NumAlign(version) - 1)
  {
    hide Near, Product;
    AlignArithmetic(version);
    var k := NumAlign(version) - 1;
    ProductSize(Near(version, k), Near(version, k));
    assert |Inner(version)| == (5 * k) * (5 * k);
  }

  lemma EdgeSizes(version: nat)
    requires 2 <= version <= 40
    ensures NumAlign(version) >= 2 && |Top(version)| == |Left(version)| == 20 * (NumAlign(version) - 2)
  {
    hide Near, Product;
    AlignArithmetic(version);
    ProductSize(Near(version, NumAlign(version) - 2), Edge());
    ProductSize(Edge(), Near(version, NumAlign(version) - 2));
  }

  lemma PartsSize(version: nat)
    requires 2 <= version <= 40
    ensures
      var a := NumAlign(version);
      a >= 2 && |Inner(version) + Top(version) + Left(version)| == 25 * (a - 1) * (a - 1) + 40 * (a - 2)
  {
    hide Inner, Top, Left;
    SquareSize(version);
    EdgeSizes(version);
    PartsDisjoint(version);
    Parts(Inner(version), Top(version));
    Parts(Inner(version) + Top(version), Left(version));
  }

  // ----- all function modules --------------------------------------------------------------------------------------

  /** Finder corners and the timing lines between them. */
  function Base(version: nat): Cells {
    var n := Side(version);
    Rect(0, 0, 9, 9) + Rect(n - 8, 0, 8, 9) + Rect(0, n - 8, 9, 8) + Rect(9, 6, n - 17, 1) + Rect(6, 9, 1, n - 17)
  }

  lemma BaseCells(version: nat, x: nat, y: nat)
    requires 1 <= version && x < Side(version) && y < Side(version)
    ensures (x, y) in Base(version) <==> InBase(version, x, y)
  {
    hide Rect;
  }

  lemma BaseSize(version: nat)
    requires 1 <= version
    ensures |Base(version)| == 225 + 2 * (Side(version) - 17)
  {
    hide Rect;
    var n := Side(version);
    var a, b, c, d, e := Rect(0, 0, 9, 9), Rect(n - 8, 0, 8, 9), Rect(0, n - 8, 9, 8), Rect(9, 6, n - 17, 1), Rect(6, 9, 1, n - 17);
    assert a !! b && a + b !! c && a + b + c !! d && a + b + c + d !! e;
    Parts(a, b);
    Parts(a + b, c);
    Parts(a + b + c, d);
    Parts(a + b + c + d, e);
  }

  function VersionCells(version: nat): Cells {
    var n := Side(version);
    if version < 7 then {} else Rect(n - 11, 0, 3, 6) + Rect(0, n - 11, 6, 3)
  }

  lemma VersionSize(version: nat)
    ensures |VersionCells(version)| == if version < 7 then 0 else 36
  {
    hide Rect;
    if version >= 7 {
      var n := Side(version);
      assert Rect(n - 11, 0, 3, 6) !! Rect(0, n - 11, 6, 3);
      Parts(Rect(n - 11, 0, 3, 6), Rect(0, n - 11, 6, 3));
    }
  }

  function AlignmentCells(version: nat): Cells
    requires 1 <= version <= 40
  {
    if version == 1 then {} else Inner(version) + Top(version) + Left(version)
  }

  /** The function modules, put together from parts that do not overlap. */
  lemma FunctionParts(version: nat, x: nat, y: nat)
    requires 1 <= version <= 40 && x < Side(version) && y < Side(version)
    ensures IsFunction(version, x, y) <==> (x, y) in Base(version) + VersionCells(version) + AlignmentCells(version)
    ensures (x, y) in AlignmentCells(version) ==> (x, y) !in Base(version) + VersionCells(version)
    ensures (x, y) in VersionCells(version) ==> (x, y) !in Base(version)
  {
    hide Inner, Top, Left, InPattern, AlignPos, Rect, Base;
    BaseCells(version, x, y);
    assert (x, y) in VersionCells(version) <==> InVersionBlock(version, x, y);
    if version > 1 {
      if (x, y) in AlignmentCells(version) {
        PartsPattern(version, x, y);
        PartsApart(version, x, y);
      } else if InAlignment(version, x, y) && !InBase(version, x, y) {
        var i: nat, j: nat :| i < NumAlign(version) && j < NumAlign(version) && InPattern(version, i, j, x, y);
        PatternParts(version, i, j, x, y);
      }
    }
  }

  lemma CellsInside(version: nat, c: (nat, nat))
    requires 1 <= version <= 40 && c in Base(version) + VersionCells(version) + AlignmentCells(version)
    ensures c.0 < Side(version) && c.1 < Side(version)
  {
    hide Inner, Top, Left, Rect;
    if version > 1 && c in AlignmentCells(version) {
      PartsApart(version, c.0, c.1);
    }
  }

  function AllCells(n: nat): Cells {
    Rect(0, 0, n, n)
  }

  /** The modules that are no function modules. */
  ghost function FreeCells(version: nat): Cells
    requires 1 <= version <= 40
  {
    set c | c in AllCells(Side(version)) && !IsFunction(version, c.0, c.1)
  }

  /** The formula of the code counts exactly the modules outside all function patterns. */
  lemma FreeCellsSize(version: nat)
    requires 1 <= version <= 40
    ensures |FreeCells(version)| == RawDataModules(version)
  {
    hide Base, VersionCells, AlignmentCells, IsFunction, Rect, RawDataModules;
    var n := Side(version);
    var base, block, align, all := Base(version), VersionCells(version), AlignmentCells(version), AllCells(n);
    forall c: (nat, nat) | c in base + block + align
      ensures c.0 < n && c.1 < n
    {
      CellsInside(version, c);
    }
    forall c: (nat, nat) | c.0 < n && c.1 < n
      ensures IsFunction(version, c.0, c.1) <==> c in base + block + align
      ensures c in align ==> c !in base + block
      ensures c in block ==> c !in base
    {
      FunctionParts(version, c.0, c.1);
    }
    assert FreeCells(version) !! base + block + align;
    assert FreeCells(version) + (base + block + align) == all;
    Parts(base, block);
    Parts(base + block, align);
    Parts(FreeCells(version), base + block + align);
    BaseSize(version);
    VersionSize(version);
    AlignmentSize(version);
    SizeFormula(version);
  }

  lemma AlignmentSize(version: nat)
    requires 1 <= version <= 40
    ensures
      var a := version / 7 + 2;
      |AlignmentCells(version)| == if version == 1 then 0 else 25 * (a - 1) * (a - 1) + 40 * (a - 2)
  {
    hide Inner, Top, Left;
    if version > 1 {
      PartsSize(version);
    }
  }

  lemma SizeFormula(version: nat)
    requires 1 <= version <= 40
    ensures
      var n, a := Side(version), version / 7 + 2;
      var align := if version == 1 then 0 else 25 * (a - 1) * (a - 1) + 40 * (a - 2);
      n * n - (225 + 2 * (n - 17)) - (if version < 7 then 0 else 36) - align == RawDataModules(version)
  {
    var n, a := Side(version), version / 7 + 2;
    assert n * n == 16 * (version * version) + 136 * version + 289;
    assert (25 * a - 10) * a == 25 * (a * a) - 10 * a;
    assert 25 * (a - 1) * (a - 1) == 25 * (a * a) - 50 * a + 25;
    assert (16 * version + 128) * version == 16 * (version * version) + 128 * version;
  }

  // ----- the modules that the scan finds free ------------------------------------------------------------------------

  predicate Unmarked(n: nat, marks: Modules, u: nat)
    requires IsSide(n) && |marks| == Area(n) && u < Steps(n)
  {
    !marks[Visited(n, u)]
  }

  ghost function FreeSteps(n: nat, marks: Modules, t: nat): (s: set<nat>)
    requires IsSide(n) && |marks| == Area(n) && t <= Steps(n)
    ensures forall u: nat :: u in s <==> u < t && Unmarked(n, marks, u)
    ensures |s| == Free(n, marks, t)
  {
    if t == 0 then {} else FreeSteps(n, marks, t - 1) + if Unmarked(n, marks, t - 1) then {t - 1} else {}
  }

  ghost function CellOf(n: nat, u: nat): (nat, nat) {
    if IsSide(n) && u < Steps(n) then
      AtOfIndex(n, Visited(n, u));
      (Visited(n, u) % n, Visited(n, u) / n)
    else (0, 0)
  }

  lemma CellsDiffer(n: nat, u: nat, w: nat)
    requires IsSide(n) && u < Steps(n) && w < Steps(n) && CellOf(n, u) == CellOf(n, w)
    ensures u == w
  {
    hide Visited, VisitOf, Steps, Area, At;
    AtOfIndex(n, Visited(n, u));
    AtOfIndex(n, Visited(n, w));
    VisitsOnce(n, Visited(n, u), u);
    VisitsOnce(n, Visited(n, w), w);
  }

  lemma FreeCellIsVisited(version: nat, c: (nat, nat)) returns (u: nat)
    requires 1 <= version <= 40 && c in FreeCells(version)
    ensures u < Steps(Side(version)) && Unmarked(Side(version), FunctionMap(version), u) && CellOf(Side(version), u) == c
  {
    hide Visited, VisitOf, Steps, Area, At, Rect, FunctionMap, IsFunction;
    var n := Side(version);
    assert c.0 < n && c.1 < n && !IsFunction(version, c.0, c.1);
    FunctionAt(version, c.0, c.1);
    TimingIsFunction(version, c.0, c.1);
    AtUnique(n, c.0, c.1);
    u := VisitOf(n, At(n, c.0, c.1));
    StepsExist(n);
    VisitsOnce(n, At(n, c.0, c.1), 0);
  }

  lemma FunctionAt(version: nat, x: nat, y: nat)
    requires 1 <= version <= 40 && x < Side(version) && y < Side(version)
    ensures FunctionMap(version)[At(Side(version), x, y)] == IsFunction(version, x, y)
  {
    hide Area, At, IsFunction;
    AtUnique(Side(version), x, y);
  }

  lemma TimingIsFunction(version: nat, x: nat, y: nat)
    requires 1 <= version <= 40 && !IsFunction(version, x, y)
    ensures x != 6
  {
  }

  lemma StepsExist(n: nat)
    requires IsSide(n)
    ensures Steps(n) > 0
  {
  }

  lemma VisitedIsFreeCell(version: nat, u: nat)
    requires 1 <= version <= 40 && u < Steps(Side(version)) && Unmarked(Side(version), FunctionMap(version), u)
    ensures CellOf(Side(version), u) in FreeCells(version)
  {
    hide Visited, VisitOf, Steps, Area, At, Rect, InBase, InAlignment, InVersionBlock;
    AtOfIndex(Side(version), Visited(Side(version), u));
  }

  /** The scan finds exactly as many free modules as the formula of the code says. */
  lemma FreeIsRaw(version: nat)
    requires 1 <= version <= 40
    ensures Free(Side(version), FunctionMap(version), Steps(Side(version))) == RawDataModules(version)
  {
    hide Visited, Steps, Area, FunctionMap, FreeCells, CellOf, RawDataModules, Free;
    var n := Side(version);
    var s := FreeSteps(n, FunctionMap(version), Steps(n));
    var f := u => CellOf(n, u);
    forall a, b | a in s && b in s && f(a) == f(b)
      ensures a == b
    {
      CellsDiffer(n, a, b);
    }
    ImageSize(s, f);
    var image := set u | u in s :: f(u);
    forall c: (nat, nat)
      ensures c in image <==> c in FreeCells(version)
    {
      if c in FreeCells(version) {
        var u := FreeCellIsVisited(version, c);
        assert f(u) == c;
      } else if c in image {
        var u: nat :| u in s && f(u) == c;
        VisitedIsFreeCell(version, u);
      }
    }
    assert image == FreeCells(version);
    FreeCellsSize(version);
  }
}
