/** The loops that compute the penalty score, with a window of the last seven runs. */
module PenaltyCode {
  import opened Octets
  import opened Grid
  import opened Penalty
  import Bits

  // ----- the run history ------------------------------------------------------------------------------------

  function HistoryOf(r: RunList): (h: seq<nat>)
    ensures |h| == 7
  {
    [Back(r, 0), Back(r, 1), Back(r, 2), Back(r, 3), Back(r, 4), Back(r, 5), Back(r, 6)]
  }

  function NoHistory(): (h: seq<nat>)
    ensures |h| == 7
  {
    [0, 0, 0, 0, 0, 0, 0]
  }

  /** Pushes the given value to the front and drops the last value. */
  method AddHistory(length: nat, history: array<nat>)
    requires history.Length == 7
    modifies history
    ensures history[..] == [length] + old(history[..6])
  {
    for k := 0 to 6
      invariant forall j :: 6 - k < j < 7 ==> history[j] == old(history[j - 1])
      invariant forall j :: 0 <= j <= 6 - k ==> history[j] == old(history[j])
    {
      history[6 - k] := history[5 - k];
    }
    history[0] := length;
  }

  lemma HistoryGrows(r: RunList, n: nat)
    ensures HistoryOf(Then(r, n)) == [n] + HistoryOf(r)[..6]
    ensures HistoryOf(First(n)) == [n] + NoHistory()[..6]
  {
  }

  method CountPatterns(history: array<nat>, qrsize: nat) returns (count: nat)
    requires history.Length == 7 && history[1] <= 3 * qrsize
    ensures count == Windows(history[0], history[1], history[2], history[3], history[4], history[5], history[6])
  {
    var n := history[1];
    assert n <= qrsize * 3;
    var core := n > 0 && history[2] == n && history[3] == n * 3 && history[4] == n && history[5] == n;
    count := (if core && history[0] >= n * 4 && history[6] >= n then 1 else 0)
           + (if core && history[6] >= n * 4 && history[0] >= n then 1 else 0);
  }

  lemma {:induction false} BackBound(r: RunList, k: nat)
    ensures Back(r, k) <= Total(r)
  {
    if k > 0 && r.Then? {
      BackBound(r.before, k - 1);
    }
  }

  /** The window count of a history that ends in a white run. */
  lemma WindowOfHistory(r: RunList, h: seq<nat>)
    requires h == HistoryOf(r)
    ensures !Black(r) ==> LastWindow(r) == Windows(h[0], h[1], h[2], h[3], h[4], h[5], h[6])
    ensures h[1] <= Total(r)
  {
    hide Windows;
    BackBound(r, 1);
  }

  method TerminateAndCount(runColor: bool, runLength: nat, history: array<nat>, qrsize: nat, ghost r: RunList)
    returns (count: nat)
    requires history.Length == 7 && runColor == Black(r) && runLength == r.len && Total(r) + qrsize <= 3 * qrsize
    requires history[..] == if r.Then? then HistoryOf(r.before) else NoHistory()
    modifies history
    ensures count == LastWindow(Behind(r, qrsize))
  {
    hide HistoryOf, Windows, Back, LastWindow;
    var length := runLength;
    if runColor {
      AddHistory(length, history);
      HistoryGrows(r.before, r.len);
      length := 0;
    }
    length := length + qrsize;
    AddHistory(length, history);
    ghost var b := Behind(r, qrsize);
    if r.Then? {
      HistoryGrows(if runColor then r else r.before, length);
    } else {
      HistoryGrows(r, length);
    }
    assert history[..] == HistoryOf(b);
    WindowOfHistory(b, history[..]);
    count := CountPatterns(history, qrsize);
  }

  // ----- one line ---------------------------------------------------------------------------------------------------

  /** The line of a grid that runs through a fixed row or column. */
  function LineOf(n: nat, g: Modules, fixed: nat, vertical: bool): (line: Line)
    requires |g| == Area(n) && fixed < n
    ensures |line| == n
  {
    if vertical then ColumnOf(n, g, fixed) else RowOf(n, g, fixed)
  }

  /** What the loop has counted once the runs so far are r: the last run is not in the history yet. */
  function Counted(r: RunList, n: nat): nat {
    RunCosts(r) + 40 * if r.Then? then FinderCount(InFront(r.before, n)) else 0
  }

  function Kept(r: RunList, n: nat): (h: seq<nat>)
    ensures |h| == 7
  {
    if r.Then? then HistoryOf(InFront(r.before, n)) else NoHistory()
  }

  lemma FrontLength(r: RunList, n: nat)
    ensures InFront(r, n).len == r.len + if r.First? then n else 0
    ensures InFront(r, n).Then? == r.Then? && (r.Then? ==> InFront(r, n).before == InFront(r.before, n))
    ensures Total(InFront(r, n)) == Total(r) + n && Black(InFront(r, n)) == Black(r)
  {
    if r.Then? {
      FrontLength(r.before, n);
    }
  }

  lemma RunGrows(r: RunList, n: nat)
    ensures Counted(Grow(r, 1), n) == Counted(r, n) + if r.len + 1 == 5 then 3 else if r.len + 1 > 5 then 1 else 0
    ensures Kept(Grow(r, 1), n) == Kept(r, n) && Black(Grow(r, 1)) == Black(r) && Grow(r, 1).len == r.len + 1
    ensures Grow(r, 1).Then? == r.Then?
  {
    hide FinderCount, InFront, HistoryOf;
  }

  lemma RunEnds(r: RunList, n: nat)
    ensures Counted(Then(r, 1), n) == Counted(r, n) + 40 * LastWindow(InFront(r, n))
    ensures Kept(Then(r, 1), n) == HistoryOf(InFront(r, n))
    ensures HistoryOf(InFront(r, n)) == [InFront(r, n).len] + Kept(r, n)[..6]
    ensures Black(r) ==> LastWindow(InFront(r, n)) == 0
  {
    hide HistoryOf, Back, Windows;
    FrontLength(r, n);
    var f := InFront(r, n);
    if r.Then? {
      HistoryGrows(f.before, f.len);
    } else {
      HistoryGrows(r, f.len);
    }
  }

  lemma LineEnds(line: Line, n: nat)
    requires n == |line| > 0
    ensures
      var r := Runs(line);
      LineScore(line) == Counted(r, n) + 40 * LastWindow(Behind(InFront(r, n), n))
  {
    hide Back, Windows, Runs, Bordered, RunCosts;
    var r := Runs(line);
    RunsBordered(line, n);
    FrontLength(r, n);
    var f := InFront(r, n);
    var b := Behind(f, n);
    if Black(f) {
      assert FinderCount(b) == LastWindow(b) + FinderCount(f);
      assert FinderCount(f) == FinderCount(f.before);
    } else {
      assert FinderCount(b) == LastWindow(b) + if f.Then? then FinderCount(f.before) else 0;
    }
  }

  method ScanLine(qrcode: array<Byte>, fixed: nat, vertical: bool, ghost n: nat) returns (score: nat)
    requires qrcode.Length > 0 && IsGrid(qrcode[..], n) && fixed < n
    ensures score == LineScore(LineOf(n, ModulesOf(qrcode[..], n), fixed, vertical))
  {
    hide ModulesOf, Area, ByteValue, At, Counted, Kept, Runs, LastWindow, HistoryOf, InFront, Behind, LineScore, Windows;
    hide Total, NoHistory;
    var qrsize := GetSize(qrcode);
    ghost var line := LineOf(n, ModulesOf(qrcode[..], n), fixed, vertical);
    var runColor, run, padRun := false, 0, qrsize;
    var history := new nat[7](_ => 0);
    score := 0;
    ghost var r := First(0);
    LineStarts(line, n);
    assert history[..] == Kept(r, n);
    for i: nat := 0 to qrsize
      invariant r == Runs(line[..i]) && runColor == Black(r) && run == r.len
      invariant padRun == if r.First? then n else 0
      invariant history[..] == Kept(r, n) && score == Counted(r, n)
    {
      var color := GetModule(qrcode, if vertical then fixed else i, if vertical then i else fixed);
      assert color == line[i];
      NextRuns(line, i);
      if color == runColor {
        RunGrows(r, n);
        run := run + 1;
        if run == 5 {
          score := score + 3;
        } else if run > 5 {
          score := score + 1;
        }
        r := Grow(r, 1);
      } else {
        RunEnds(r, n);
        FrontLength(r, n);
        AddHistory(run + padRun, history);
        padRun := 0;
        PushBound(line, i, n);
        WindowOfHistory(InFront(r, n), history[..]);
        if !runColor {
          var count := CountPatterns(history, qrsize);
          score := score + count * 40;
        }
        runColor := color;
        run := 1;
        r := Then(r, 1);
      }
    }
    assert line[..n] == line;
    FrontLength(r, n);
    PushBound(line, n, n);
    KeptIs(r, n);
    var count := TerminateAndCount(runColor, run + padRun, history, qrsize, InFront(r, n));
    score := score + count * 40;
    LineEnds(line, n);
  }

  lemma KeptIs(r: RunList, n: nat)
    ensures Kept(r, n) == if r.Then? then HistoryOf(InFront(r.before, n)) else NoHistory()
  {
  }

  lemma LineStarts(line: Line, n: nat)
    ensures Runs(line[..0]) == First(0) && Kept(First(0), n) == NoHistory() == [0, 0, 0, 0, 0, 0, 0]
    ensures Counted(First(0), n) == 0 && !Black(First(0))
  {
  }

  lemma NextRuns(line: Line, i: nat)
    requires i < |line|
    ensures Runs(line[..i + 1]) == Extend(Runs(line[..i]), line[i])
  {
    assert line[..i + 1][..i] == line[..i];
  }

  lemma PushBound(line: Line, i: nat, n: nat)
    requires i <= |line| == n
    ensures Total(InFront(Runs(line[..i]), n)) <= 2 * n
  {
    hide Runs, Total, InFront;
    RunsTotal(line[..i]);
    FrontLength(Runs(line[..i]), n);
  }

  // ----- the whole grid ----------------------------------------------------------------------------------------------

  method CountBlocks(qrcode: array<Byte>, ghost n: nat) returns (blocks: nat)
    requires qrcode.Length > 0 && IsGrid(qrcode[..], n)
    ensures blocks == Blocks(n, ModulesOf(qrcode[..], n), n - 1)
  {
    hide ModulesOf, Area, ByteValue, At;
    var qrsize := GetSize(qrcode);
    ghost var g := ModulesOf(qrcode[..], n);
    blocks := 0;
    for y: nat := 0 to qrsize - 1
      invariant blocks == Blocks(n, g, y)
    {
      for x: nat := 0 to qrsize - 1
        invariant blocks == Blocks(n, g, y) + BlocksInRow(n, g, y, x)
      {
        var color := GetModule(qrcode, x, y);
        var east := GetModule(qrcode, x + 1, y);
        var south := GetModule(qrcode, x, y + 1);
        var corner := GetModule(qrcode, x + 1, y + 1);
        if color == east && color == south && color == corner {
          blocks := blocks + 1;
        }
      }
    }
  }

  method CountBlack(qrcode: array<Byte>, ghost n: nat) returns (black: nat)
    requires qrcode.Length > 0 && IsGrid(qrcode[..], n)
    ensures black == BlackIn(ModulesOf(qrcode[..], n), Area(n))
  {
    hide ModulesOf, ByteValue;
    var qrsize := GetSize(qrcode);
    ghost var g := ModulesOf(qrcode[..], n);
    black := 0;
    for y: nat := 0 to qrsize
      invariant RowStart(n, y) <= Area(n) && black == BlackIn(g, RowStart(n, y))
    {
      RowFits(n, y);
      for x: nat := 0 to qrsize
        invariant RowStart(n, y) + x <= Area(n) && black == BlackIn(g, RowStart(n, y) + x)
      {
        var isBlack := GetModule(qrcode, x, y);
        assert At(n, x, y) == RowStart(n, y) + x;
        if isBlack {
          black := black + 1;
        }
      }
    }
    RowFits(n, n - 1);
  }

  function RowStart(n: nat, y: nat): nat {
    y * n
  }

  lemma RowFits(n: nat, y: nat)
    requires y < n
    ensures RowStart(n, y) + n == RowStart(n, y + 1) <= Area(n) && RowStart(n, n) == Area(n)
  {
    Bits.MulLe(y + 1, n, n);
  }

  method GetPenaltyScore(qrcode: array<Byte>, ghost n: nat) returns (result: int)
    requires qrcode.Length > 0 && IsGrid(qrcode[..], n)
    ensures result == Score(n, ModulesOf(qrcode[..], n))
  {
    hide ModulesOf, Area, ByteValue, LineScore, BlackIn, Blocks, RowOf, ColumnOf;
    var qrsize := GetSize(qrcode);
    ghost var g := ModulesOf(qrcode[..], n);
    result := 0;
    for y: nat := 0 to qrsize
      invariant result == RowScores(n, g, y)
    {
      var score := ScanLine(qrcode, y, false, n);
      result := result + score;
    }
    for x: nat := 0 to qrsize
      invariant result == RowScores(n, g, n) + ColumnScores(n, g, x)
    {
      var score := ScanLine(qrcode, x, true, n);
      result := result + score;
    }
    var blocks := CountBlocks(qrcode, n);
    result := result + 3 * blocks;
    var black := CountBlack(qrcode, n);
    var total := qrsize * qrsize;
    assert total == Area(n) by { AreaIs(n); }
    var k := (Distance(20 * black, 10 * total) + total - 1) / total - 1;
    result := result + k * 10;
  }

  lemma AreaIs(n: nat)
    ensures Area(n) == n * n
  {
  }
}
