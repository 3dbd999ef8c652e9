/** The penalty score of a grid: maximal runs, finder-like windows, blocks and balance. */
module Penalty {
  import opened Common
  import opened Bits
  import opened Grid

  /** The modules of one row or column. */
  type Line = seq<bool>

  // ----- runs -----------------------------------------------------------------------------------------------------

  /** Lengths of alternating runs, the last one outermost; the first run is white and may be empty. */
  datatype RunList = First(len: nat) | Then(before: RunList, len: nat)

  /** The color of the last run. */
  predicate Black(r: RunList) {
    r.Then? && !Black(r.before)
  }

  function Grow(r: RunList, n: nat): RunList {
    r.(len := r.len + n)
  }

  function Extend(r: RunList, color: bool): RunList {
    if color == Black(r) then Grow(r, 1) else Then(r, 1)
  }

  /** The maximal runs of a line. */
  function Runs(line: Line): RunList {
    if line == [] then First(0) else Extend(Runs(line[..|line| - 1]), line[|line| - 1])
  }

  function Repeat(color: bool, n: nat): (l: Line)
    ensures |l| == n
  {
    seq(n, _ => color)
  }

  /** The line that the runs make up. */
  function Expand(r: RunList): Line {
    match r
    case First(n) => Repeat(false, n)
    case Then(b, n) => Expand(b) + Repeat(!Black(b), n)
  }

  /** Every run after the first has modules. */
  predicate Maximal(r: RunList) {
    r.Then? ==> r.len > 0 && Maximal(r.before)
  }

  lemma RepeatMore(color: bool, n: nat)
    ensures Repeat(color, n + 1) == Repeat(color, n) + [color] && Repeat(color, 0) == []
  {
  }

  lemma ExpandExtend(r: RunList, color: bool)
    ensures Expand(Extend(r, color)) == Expand(r) + [color]
  {
    hide Repeat;
    if color == Black(r) {
      RepeatMore(color, r.len);
      if r.Then? {
        Grouping(Expand(r.before), Repeat(color, r.len), [color]);
      }
    } else {
      RepeatMore(color, 0);
      assert [] + [color] == [color];
    }
  }

  /** The run lengths describe the line, and the runs are maximal. */
  lemma {:induction false} RunsDescribe(line: Line)
    ensures Expand(Runs(line)) == line && Maximal(Runs(line))
  {
    if line == [] {
    } else {
      var rest, c := line[..|line| - 1], line[|line| - 1];
      RunsDescribe(rest);
      hide Expand, Repeat;
      ExpandExtend(Runs(rest), c);
      assert rest + [c] == line;
    }
  }

  // ----- the declarative score ----------------------------------------------------------------------------------------

  /** 3 + (L - 5) for a run of length L >= 5. */
  function RunCost(length: nat): nat {
    if length >= 5 then 3 + (length - 5) else 0
  }

  function RunCosts(r: RunList): nat {
    RunCost(r.len) + if r.Then? then RunCosts(r.before) else 0
  }

  /** The line with n white modules on either side. */
  function Bordered(line: Line, n: nat): Line {
    Repeat(false, n) + line + Repeat(false, n)
  }

  /** How often seven runs, the outer ones white, are a 1:1:3:1:1 pattern with margins of 4 and 1. */
  function Windows(a: nat, b: nat, c: nat, d: nat, e: nat, f: nat, g: nat): nat {
    if b > 0 && c == b && d == 3 * b && e == b && f == b
    then (if a >= 4 * b && g >= b then 1 else 0) + (if g >= 4 * b && a >= b then 1 else 0)
    else 0
  }

  /** The length of the run k places before the last, or 0 if there is none. */
  function Back(r: RunList, k: nat): nat {
    if k == 0 then r.len else if r.Then? then Back(r.before, k - 1) else 0
  }

  /** The window of seven runs that ends in the last run, if that is white. */
  function LastWindow(r: RunList): nat {
    if Black(r) then 0
    else Windows(Back(r, 0), Back(r, 1), Back(r, 2), Back(r, 3), Back(r, 4), Back(r, 5), Back(r, 6))
  }

  function Length(r: RunList): nat {
    if r.Then? then 1 + Length(r.before) else 1
  }

  lemma {:induction false} BackOutside(r: RunList, k: nat)
    ensures k >= Length(r) ==> Back(r, k) == 0
    ensures Black(r) <==> Length(r) % 2 == 0
  {
    if r.Then? {
      BackOutside(r.before, if k > 0 then k - 1 else 0);
    }
  }

  /** Only windows of seven actual runs count. */
  lemma WindowsAreComplete(r: RunList)
    requires LastWindow(r) > 0
    ensures Length(r) >= 7 && !Black(r)
  {
    BackOutside(r, 5);
  }

  /** All finder-like windows. */
  function FinderCount(r: RunList): nat {
    LastWindow(r) + if r.Then? then FinderCount(r.before) else 0
  }

  function LineScore(line: Line): nat {
    RunCosts(Runs(line)) + 40 * FinderCount(Runs(Bordered(line, |line|)))
  }

  function RowOf(n: nat, g: Modules, y: nat): (line: Line)
    requires |g| == Area(n) && y < n
    ensures |line| == n
  {
    seq(n, x requires 0 <= x < n => g[At(n, x, y)])
  }

  function ColumnOf(n: nat, g: Modules, x: nat): (line: Line)
    requires |g| == Area(n) && x < n
    ensures |line| == n
  {
    seq(n, y requires 0 <= y < n => g[At(n, x, y)])
  }

  function RowScores(n: nat, g: Modules, count: nat): nat
    requires |g| == Area(n) && count <= n
  {
    if count == 0 then 0 else RowScores(n, g, count - 1) + LineScore(RowOf(n, g, count - 1))
  }

  function ColumnScores(n: nat, g: Modules, count: nat): nat
    requires |g| == Area(n) && count <= n
  {
    if count == 0 then 0 else ColumnScores(n, g, count - 1) + LineScore(ColumnOf(n, g, count - 1))
  }

  /** A 2x2 block of one color with its upper left corner at (x, y). */
  predicate IsBlock(n: nat, g: Modules, x: nat, y: nat)
    requires |g| == Area(n) && x + 1 < n && y + 1 < n
  {
    g[At(n, x, y)] == g[At(n, x + 1, y)] == g[At(n, x, y + 1)] == g[At(n, x + 1, y + 1)]
  }

  function BlocksInRow(n: nat, g: Modules, y: nat, count: nat): nat
    requires |g| == Area(n) && y + 1 < n && count < n
  {
    if count == 0 then 0 else BlocksInRow(n, g, y, count - 1) + if IsBlock(n, g, count - 1, y) then 1 else 0
  }

  function Blocks(n: nat, g: Modules, count: nat): nat
    requires |g| == Area(n) && count < n
  {
    if count == 0 then 0 else Blocks(n, g, count - 1) + BlocksInRow(n, g, count - 1, n - 1)
  }

  function BlackIn(g: Modules, count: nat): (b: nat)
    requires count <= |g|
    ensures b <= count
  {
    if count == 0 then 0 else BlackIn(g, count - 1) + if g[count - 1] then 1 else 0
  }

  /** (45 - 5k)% <= black / total <= (55 + 5k)%. */
  predicate Balanced(black: nat, total: nat, k: nat) {
    (45 - 5 * k) * total <= 100 * black <= (55 + 5 * k) * total
  }

  function Distance(a: int, b: int): nat {
    if a < b then b - a else a - b
  }

  /** `(labs(black * 20 - total * 10) + total - 1) / total - 1`. */
  function BalanceStep(black: nat, total: nat): int
    requires total > 0
  {
    (Distance(20 * black, 10 * total) + total - 1) / total - 1
  }

  /** On an odd number of modules that is the smallest k >= 0 for which the grid is balanced. */
  lemma BalanceIsSmallest(black: nat, total: nat)
    requires total % 2 == 1
    ensures
      var k := BalanceStep(black, total);
      && k >= 0 && Balanced(black, total, k)
      && forall j: nat :: j < k ==> !Balanced(black, total, j)
  {
    hide Balanced;
    var d := Distance(20 * black, 10 * total);
    var k := BalanceStep(black, total);
    assert 20 * black != 10 * total;
    RoundedUp(d, total);
    BalancedIs(black, total, k);
    forall j: nat | j < k
      ensures !Balanced(black, total, j)
    {
      BalancedIs(black, total, j);
      MulLe(j + 1, k, total);
    }
  }

  /** The quotient rounded up is the least number of steps that reach d. */
  lemma RoundedUp(d: nat, total: nat)
    requires d > 0 && total > 0
    ensures
      var q := (d + total - 1) / total;
      q >= 1 && (q - 1) * total < d <= q * total
  {
    QuotientNat(d + total - 1, total);
    var q := (d + total - 1) / total;
    if q < 1 {
      MulLe(q, 0, total);
    }
    assert (q - 1) * total == q * total - total;
  }

  lemma BalancedIs(black: nat, total: nat, k: nat)
    ensures Balanced(black, total, k) <==> Distance(20 * black, 10 * total) <= (k + 1) * total
  {
    assert (45 - 5 * k) * total == 45 * total - 5 * (k * total);
    assert (55 + 5 * k) * total == 55 * total + 5 * (k * total);
    assert (k + 1) * total == k * total + total;
  }

  function Score(n: nat, g: Modules): int
    requires n > 0 && |g| == Area(n)
  {
    RowScores(n, g, n) + ColumnScores(n, g, n) + 3 * Blocks(n, g, n - 1) + 10 * BalanceStep(BlackIn(g, |g|), Area(n))
  }

  // ----- the border in the run list -------------------------------------------------------------------------------------

  /** n more white modules in the first run. */
  function InFront(r: RunList, n: nat): RunList {
    match r
    case First(k) => First(k + n)
    case Then(b, k) => Then(InFront(b, n), k)
  }

  /** n white modules behind the last run. */
  function Behind(r: RunList, n: nat): RunList {
    if Black(r) then Then(r, n) else Grow(r, n)
  }

  lemma {:induction false} RunsOfWhite(n: nat)
    ensures Runs(Repeat(false, n)) == First(n)
  {
    if n > 0 {
      RunsOfWhite(n - 1);
      assert Repeat(false, n)[..n - 1] == Repeat(false, n - 1);
    }
  }

  lemma {:induction false} FrontKeepsColor(r: RunList, n: nat)
    ensures Black(InFront(r, n)) == Black(r)
  {
    if r.Then? {
      FrontKeepsColor(r.before, n);
    }
  }

  lemma ExtendFront(r: RunList, n: nat, color: bool)
    ensures Extend(InFront(r, n), color) == InFront(Extend(r, color), n)
  {
    FrontKeepsColor(r, n);
  }

  lemma {:induction false} RunsInFront(n: nat, line: Line)
    ensures Runs(Repeat(false, n) + line) == InFront(Runs(line), n)
  {
    hide Repeat, InFront, Extend;
    var w := Repeat(false, n);
    if line == [] {
      assert w + line == w;
      RunsOfWhite(n);
      assert InFront(First(0), n) == First(n) by { FrontOfFirst(n); }
    } else {
      var rest, c := line[..|line| - 1], line[|line| - 1];
      RunsInFront(n, rest);
      assert (w + line)[..|w + line| - 1] == w + rest;
      ExtendFront(Runs(rest), n, c);
    }
  }

  lemma FrontOfFirst(n: nat)
    ensures InFront(First(0), n) == First(n)
  {
  }

  lemma BehindMore(r: RunList, n: nat)
    ensures Behind(r, n + 2) == Extend(Behind(r, n + 1), false) && Behind(r, 1) == Extend(r, false)
  {
  }

  lemma {:induction false} RunsBehind(line: Line, n: nat)
    requires n > 0
    ensures Runs(line + Repeat(false, n)) == Behind(Runs(line), n)
  {
    hide Repeat, Behind, Extend;
    var l := line + Repeat(false, n);
    RepeatMore(false, n - 1);
    Grouping(line, Repeat(false, n - 1), [false]);
    assert l[..|l| - 1] == line + Repeat(false, n - 1);
    if n == 1 {
      BehindMore(Runs(line), 0);
      assert line + [] == line;
    } else {
      BehindMore(Runs(line), n - 2);
      RunsBehind(line, n - 1);
    }
  }

  /** Adding the borders to the run list gives the runs of the bordered line. */
  lemma RunsBordered(line: Line, n: nat)
    requires n > 0
    ensures Runs(Bordered(line, n)) == Behind(InFront(Runs(line), n), n)
  {
    hide Repeat;
    RunsInFront(n, line);
    RunsBehind(Repeat(false, n) + line, n);
  }

  // ----- the score is small ------------------------------------------------------------------------------------------------

  function Total(r: RunList): nat {
    r.len + if r.Then? then Total(r.before) else 0
  }

  lemma {:induction false} RunListBounds(r: RunList)
    ensures RunCosts(r) <= Total(r) && FinderCount(r) <= 2 * Length(r)
  {
    hide Back, Black;
    if r.Then? {
      RunListBounds(r.before);
    }
  }

  lemma {:induction false} RunsTotal(line: Line)
    ensures Total(Runs(line)) == |line| && Length(Runs(line)) <= |line| + 1
  {
    if line != [] {
      RunsTotal(line[..|line| - 1]);
    }
  }

  lemma LineScoreBound(line: Line)
    ensures LineScore(line) <= 241 * |line| + 80
  {
    hide RunCosts, FinderCount, Runs;
    var b := Bordered(line, |line|);
    RunListBounds(Runs(line));
    RunListBounds(Runs(b));
    RunsTotal(line);
    RunsTotal(b);
  }

  lemma {:induction false} LinesBound(n: nat, g: Modules, count: nat)
    requires |g| == Area(n) && count <= n <= 177
    ensures RowScores(n, g, count) <= 43000 * count && ColumnScores(n, g, count) <= 43000 * count
  {
    hide LineScore, Area, At;
    if count > 0 {
      LinesBound(n, g, count - 1);
      LineScoreBound(RowOf(n, g, count - 1));
      LineScoreBound(ColumnOf(n, g, count - 1));
    }
  }

  lemma {:induction false} BlocksBound(n: nat, g: Modules, y: nat, count: nat)
    requires |g| == Area(n) && y + 1 < n && count < n
    ensures BlocksInRow(n, g, y, count) <= count
  {
    hide IsBlock;
    if count > 0 {
      BlocksBound(n, g, y, count - 1);
    }
  }

  lemma {:induction false} AllBlocksBound(n: nat, g: Modules, count: nat)
    requires |g| == Area(n) && count < n <= 177
    ensures Blocks(n, g, count) <= 177 * count
  {
    hide BlocksInRow;
    if count > 0 {
      AllBlocksBound(n, g, count - 1);
      BlocksBound(n, g, count - 1, n - 1);
    }
  }

  lemma BalanceBound(black: nat, total: nat)
    requires total > 0 && black <= total
    ensures BalanceStep(black, total) <= 10
  {
    var d := Distance(20 * black, 10 * total);
    var q := (d + total - 1) / total;
    assert d <= 10 * total;
    assert q * total <= d + total - 1;
    if q > 10 {
      MulLe(11, q, total);
    }
  }

  /** Every score is below the largest 32-bit integer, so the search always finds a best mask. */
  lemma ScoreBound(n: nat, g: Modules)
    requires 0 < n <= 177 && |g| == Area(n)
    ensures Score(n, g) < 0x7FFF_FFFF
  {
    hide RowScores, ColumnScores, Blocks, BlackIn, BalanceStep;
    LinesBound(n, g, n);
    AllBlocksBound(n, g, n - 1);
    BalanceBound(BlackIn(g, |g|), Area(n));
  }
}
