/** The zigzag placement of codewords, and reading them back. */
module Placement {
  import opened Bits
  import opened Octets
  import opened Grid

  // ----- the scan -------------------------------------------------------------------------------------------

  /** The right column of column pair p: pairs left of the timing column are shifted by one. */
  function Right(n: nat, p: nat): (x: int)
    requires IsSide(n)
  {
    var e := n - 1 - 2 * p;
    if e > 6 then e else e - 1
  }

  /** `((right + 1) & 2) == 0`. */
  predicate Upward(right: int) {
    (right + 1) / 2 % 2 == 0
  }

  function Row(n: nat, right: int, vert: nat): (y: nat)
    requires vert < n
    ensures y < n
  {
    if Upward(right) then n - 1 - vert else vert
  }

  function Pairs(n: nat): nat {
    n / 2
  }

  /** Column pair, vertical counter and column of the pair. */
  datatype Step = Step(p: nat, vert: nat, j: nat)

  ghost predicate IsStep(n: nat, s: Step) {
    s.p < Pairs(n) && s.vert < n && s.j < 2
  }

  function X(n: nat, s: Step): (x: nat)
    requires IsSide(n) && s.p < Pairs(n) && s.j < 2
    ensures x < n && x != 6
  {
    Right(n, s.p) - s.j
  }

  function Y(n: nat, s: Step): (y: nat)
    requires IsSide(n) && s.vert < n
    ensures y < n
  {
    Row(n, Right(n, s.p), s.vert)
  }

  /** The step at which the scan visits a module outside the timing column. */
  function StepAt(n: nat, x: nat, y: nat): (s: Step)
    requires IsSide(n) && x < n && y < n && x != 6
    ensures IsStep(n, s)
  {
    var p := if x > 6 then (n - 1 - x) / 2 else (n - 1 - 2 * (x / 2 + 1)) / 2;
    Step(p, Row(n, Right(n, p), y), Right(n, p) - x)
  }

  /** The scan visits every module outside column 6, and each of them once. */
  lemma ScanIsBijective(n: nat, x: nat, y: nat, s: Step)
    requires IsSide(n) && x < n && y < n && x != 6 && IsStep(n, s)
    ensures X(n, StepAt(n, x, y)) == x && Y(n, StepAt(n, x, y)) == y
    ensures StepAt(n, X(n, s), Y(n, s)) == s
  {
  }

  /** The number of a step in scan order. */
  function Order(n: nat, s: Step): nat {
    2 * (s.p * n + s.vert) + s.j
  }

  function StepOf(n: nat, t: nat): (s: Step)
    requires n > 0
  {
    QuotientNat(t / 2, n);
    Step(t / 2 / n, t / 2 % n, t % 2)
  }

  lemma OrderOf(n: nat, s: Step)
    requires n > 0 && s.vert < n && s.j < 2
    ensures StepOf(n, Order(n, s)) == s
  {
    DivModUnique(s.p * n + s.vert, n, s.p, s.vert);
  }

  /** How many steps there are. */
  function Steps(n: nat): nat {
    2 * (Pairs(n) * n)
  }

  lemma StepInRange(n: nat, t: nat)
    requires n > 0 && t < Steps(n)
    ensures IsStep(n, StepOf(n, t)) && Order(n, StepOf(n, t)) == t
  {
    QuotientNat(t / 2, n);
    CancelLt(t / 2 / n, Pairs(n), n);
  }

  lemma OrderInRange(n: nat, s: Step)
    requires IsStep(n, s)
    ensures Order(n, s) < Steps(n)
  {
    MulLe(s.p + 1, Pairs(n), n);
  }

  /** The module visited at step t. */
  function Visited(n: nat, t: nat): (i: nat)
    requires IsSide(n) && t < Steps(n)
    ensures i < Area(n)
  {
    StepInRange(n, t);
    At(n, X(n, StepOf(n, t)), Y(n, StepOf(n, t)))
  }

  /** When a module is visited, or a number past the end for the timing column. */
  function VisitOf(n: nat, i: nat): (t: nat)
    requires IsSide(n) && i < Area(n)
  {
    AtOfIndex(n, i);
    if i % n == 6 then Steps(n) else Order(n, StepAt(n, i % n, i / n))
  }

  /** Steps and modules outside column 6 correspond one to one. */
  lemma VisitsOnce(n: nat, i: nat, t: nat)
    requires IsSide(n) && i < Area(n) && t < Steps(n)
    ensures Visited(n, t) % n != 6 && VisitOf(n, Visited(n, t)) == t
    ensures i % n != 6 ==> VisitOf(n, i) < Steps(n) && Visited(n, VisitOf(n, i)) == i
    ensures i % n == 6 <==> VisitOf(n, i) == Steps(n)
  {
    hide X, Y, StepAt, Order, Steps, IsStep, StepOf;
    StepInRange(n, t);
    var s := StepOf(n, t);
    StepParts(n, s);
    var x, y := X(n, s), Y(n, s);
    AtUnique(n, x, y);
    ScanIsBijective(n, x, y, s);
    AtOfIndex(n, i);
    if i % n != 6 {
      var u := StepAt(n, i % n, i / n);
      ScanIsBijective(n, i % n, i / n, u);
      OrderInRange(n, u);
      StepParts(n, u);
      OrderOf(n, u);
    }
  }

  lemma StepParts(n: nat, s: Step)
    requires IsStep(n, s)
    ensures s.p < Pairs(n) && s.vert < n && s.j < 2
  {
  }

  // ----- which way the scan runs ---------------------------------------------------------------------------------

  /**
   * The scan in numbers: step 2(pn + v) + j is in row v of column pair p, counted from the bottom
   * in even pairs and from the top in odd ones, and in the right column for j = 0. Pairs are counted from the right, and
   * those left of column 6 are shifted by one.
   */
  lemma ScanForm(n: nat, p: nat, v: nat, j: nat)
    requires IsSide(n) && p < n / 2 && v < n && j < 2
    ensures
      var t := 2 * (p * n + v) + j;
      var x := (if n - 1 - 2 * p > 6 then n - 1 - 2 * p else n - 2 - 2 * p) - j;
      t < Steps(n) && 0 <= x < n && Visited(n, t) == At(n, x, if p % 2 == 0 then n - 1 - v else v)
  {
    hide At, Steps;
    var s := Step(p, v, j);
    OrderInRange(n, s);
    OrderOf(n, s);
    PairParity(n, p);
  }

  lemma PairParity(n: nat, p: nat)
    requires IsSide(n) && p < n / 2
    ensures Upward(Right(n, p)) <==> p % 2 == 0
  {
    var a := n / 4;
    assert (n - 2 * p) / 2 == 2 * a - p && (n - 1 - 2 * p) / 2 == 2 * a - p;
  }

  /** It begins in the lower right corner and goes up the last column pair. */
  lemma ScanBegins(n: nat, k: nat)
    requires IsSide(n) && k < n
    ensures 2 * k + 1 < Steps(n)
    ensures Visited(n, 2 * k) == At(n, n - 1, n - 1 - k) && Visited(n, 2 * k + 1) == At(n, n - 2, n - 1 - k)
  {
    hide At, Steps, Visited;
    ScanForm(n, 0, k, 0);
    ScanForm(n, 0, k, 1);
  }

  /** The two modules of a row lie side by side, the right one first. */
  lemma ScanSideBySide(n: nat, p: nat, v: nat)
    requires IsSide(n) && p < n / 2 && v < n
    ensures
      var t := 2 * (p * n + v);
      t + 1 < Steps(n) && Visited(n, t) / n == Visited(n, t + 1) / n && Visited(n, t) % n == Visited(n, t + 1) % n + 1
  {
    hide At, Steps, Visited;
    ScanForm(n, p, v, 0);
    ScanForm(n, p, v, 1);
    Coordinates(n);
  }

  /** Within a pair the scan moves by one row, upwards in even pairs and downwards in odd ones. */
  lemma ScanClimbs(n: nat, p: nat, v: nat)
    requires IsSide(n) && p < n / 2 && v + 1 < n
    ensures
      var t := 2 * (p * n + v);
      t + 2 < Steps(n) && Visited(n, t + 2) % n == Visited(n, t) % n &&
      Visited(n, t + 2) / n == Visited(n, t) / n + if p % 2 == 0 then -1 else 1
  {
    hide At, Steps, Visited;
    ScanForm(n, p, v, 0);
    ScanForm(n, p, v + 1, 0);
    Coordinates(n);
  }

  /** The next pair, to the left, begins in the row where a pair ends. */
  lemma ScanTurns(n: nat, p: nat)
    requires IsSide(n) && p + 1 < n / 2
    ensures
      var t := 2 * (p * n + n);
      && t < Steps(n) && Visited(n, t) / n == Visited(n, t - 2) / n
      && Visited(n, t) % n + (if n - 1 - 2 * p == 8 then 3 else 2) == Visited(n, t - 2) % n
  {
    hide At, Steps, Visited;
    ScanForm(n, p, n - 1, 0);
    NextPair(n, p);
    Coordinates(n);
  }

  lemma NextPair(n: nat, p: nat)
    requires IsSide(n) && p + 1 < n / 2
    ensures
      var t := 2 * (p * n + n);
      var x := if n - 3 - 2 * p > 6 then n - 3 - 2 * p else n - 4 - 2 * p;
      t < Steps(n) && 0 <= x < n && Visited(n, t) == At(n, x, if p % 2 == 0 then 0 else n - 1)
  {
    hide At, Steps, Visited;
    ScanForm(n, p + 1, 0, 0);
    MulNext(p, n);
  }

  lemma MulNext(p: nat, n: nat)
    ensures 2 * ((p + 1) * n + 0) + 0 == 2 * (p * n + n)
  {
  }

  lemma Coordinates(n: nat)
    ensures forall x: nat, y: nat {:trigger At(n, x, y)} :: x < n && y < n ==> At(n, x, y) % n == x && At(n, x, y) / n == y
  {
    hide At;
    forall x: nat, y: nat | x < n && y < n
      ensures At(n, x, y) % n == x && At(n, x, y) / n == y
    {
      AtUnique(n, x, y);
    }
  }

  // ----- what the scan draws ------------------------------------------------------------------------------------

  /** White modules among the first t visited. */
  function Free(n: nat, marks: Modules, t: nat): (k: nat)
    requires IsSide(n) && |marks| == Area(n) && t <= Steps(n)
    ensures k <= t
  {
    if t == 0 then 0 else Free(n, marks, t - 1) + if marks[Visited(n, t - 1)] then 0 else 1
  }

  /** Module i once everything is drawn: marks stay, free modules take bits in scan order, the rest stay white. */
  function Drawn(n: nat, marks: Modules, bits: seq<bool>, i: nat): bool
    requires IsSide(n) && |marks| == Area(n) && i < Area(n)
  {
    StepsPositive(n);
    VisitsOnce(n, i, 0);
    if i % n == 6 || marks[i] then marks[i]
    else var k := Free(n, marks, VisitOf(n, i)); k < |bits| && bits[k]
  }

  lemma StepsPositive(n: nat)
    requires IsSide(n)
    ensures Steps(n) > 0
  {
    MulLe(1, Pairs(n), n);
  }

  /** The grid after the first t steps. */
  ghost predicate DrawnTo(n: nat, marks: Modules, bits: seq<bool>, t: nat, g: Modules)
    requires IsSide(n) && |marks| == Area(n)
  {
    && |g| == Area(n)
    && forall i :: 0 <= i < Area(n) ==> g[i] == if VisitOf(n, i) < t then Drawn(n, marks, bits, i) else marks[i]
  }

  lemma NothingDrawn(n: nat, marks: Modules, bits: seq<bool>)
    requires IsSide(n) && |marks| == Area(n)
    ensures DrawnTo(n, marks, bits, 0, marks)
  {
    hide VisitOf, Drawn;
  }

  /** How many bits are used up after t steps. */
  function Used(n: nat, marks: Modules, count: nat, t: nat): nat
    requires IsSide(n) && |marks| == Area(n) && t <= Steps(n)
  {
    if Free(n, marks, t) < count then Free(n, marks, t) else count
  }

  /** One step of the scan. */
  lemma DrawOne(n: nat, marks: Modules, bits: seq<bool>, t: nat, g: Modules, g': Modules)
    requires IsSide(n) && |marks| == Area(n) && t < Steps(n) && DrawnTo(n, marks, bits, t, g)
    requires
      var i := Visited(n, t);
      var k := Used(n, marks, |bits|, t);
      g' == if !g[i] && k < |bits| then g[i := bits[k]] else g
    ensures DrawnTo(n, marks, bits, t + 1, g') && g[Visited(n, t)] == marks[Visited(n, t)]
    ensures
      Used(n, marks, |bits|, t + 1) == Used(n, marks, |bits|, t) +
      if !g[Visited(n, t)] && Used(n, marks, |bits|, t) < |bits| then 1 else 0
  {
    hide VisitOf, Visited, Steps;
    var v := Visited(n, t);
    VisitsOnce(n, v, t);
    forall i | 0 <= i < Area(n)
      ensures g'[i] == if VisitOf(n, i) < t + 1 then Drawn(n, marks, bits, i) else marks[i]
    {
      if i != v {
        VisitsOnce(n, i, t);
      }
    }
  }

  // ----- reading back -----------------------------------------------------------------------------------------------

  /** The modules left free by the marks, in scan order. */
  function ReadBits(n: nat, marks: Modules, g: Modules, t: nat): (bits: seq<bool>)
    requires IsSide(n) && |marks| == |g| == Area(n) && t <= Steps(n)
    ensures |bits| == Free(n, marks, t)
  {
    if t == 0 then []
    else ReadBits(n, marks, g, t - 1) + if marks[Visited(n, t - 1)] then [] else [g[Visited(n, t - 1)]]
  }

  lemma {:induction false} ReadBackTo(n: nat, marks: Modules, bits: seq<bool>, g: Modules, t: nat, k: nat)
    requires IsSide(n) && |marks| == Area(n) && t <= Steps(n) && DrawnTo(n, marks, bits, Steps(n), g)
    requires k < Free(n, marks, t)
    ensures ReadBits(n, marks, g, t)[k] == (k < |bits| && bits[k])
  {
    hide VisitOf, Visited, Steps;
    if k < Free(n, marks, t - 1) {
      ReadBackTo(n, marks, bits, g, t - 1, k);
    } else {
      VisitsOnce(n, Visited(n, t - 1), t - 1);
    }
  }

  /** Reading the finished grid in scan order gives the codewords back, then white remainder modules. */
  lemma ReadBack(n: nat, marks: Modules, data: seq<Byte>, g: Modules)
    requires IsSide(n) && |marks| == Area(n) && DrawnTo(n, marks, CodewordBits(data), Steps(n), g)
    requires 8 * |data| <= Free(n, marks, Steps(n)) && |g| == Area(n)
    ensures
      var read := ReadBits(n, marks, g, Steps(n));
      && read[..8 * |data|] == CodewordBits(data)
      && forall k :: 8 * |data| <= k < |read| ==> !read[k]
  {
    hide DrawnTo, VisitOf, Visited, Steps, CodewordBits;
    var read := ReadBits(n, marks, g, Steps(n));
    forall k | 0 <= k < |read|
      ensures read[k] == (k < 8 * |data| && CodewordBits(data)[k])
    {
      ReadBackTo(n, marks, CodewordBits(data), g, Steps(n), k);
    }
  }

  /** Function modules, black in the marks, are as before; so is the timing column. */
  lemma MarksStay(n: nat, marks: Modules, bits: seq<bool>, g: Modules, i: nat)
    requires IsSide(n) && |marks| == Area(n) && DrawnTo(n, marks, bits, Steps(n), g) && i < Area(n)
    requires marks[i] || i % n == 6
    ensures g[i] == marks[i]
  {
    hide VisitOf, Steps;
  }

  // ----- the code ----------------------------------------------------------------------------------------------------

  lemma VisitedAt(n: nat, t: nat, s: Step, x: int, y: nat)
    requires IsSide(n) && IsStep(n, s) && t == Order(n, s)
    requires x == Right(n, s.p) - s.j && y == Row(n, Right(n, s.p), s.vert)
    ensures t < Steps(n) && 0 <= x < n && y < n && At(n, x, y) == Visited(n, t)
  {
    OrderInRange(n, s);
    OrderOf(n, s);
  }

  /** Draws one module if it is free and bits are left. */
  method DrawModule(data: array<Byte>, dataLen: nat, qrcode: array<Byte>, x: nat, y: nat, i: nat,
                    ghost n: nat, ghost marks: Modules, ghost t: nat) returns (i': nat)
    requires data != qrcode && dataLen <= data.Length && qrcode.Length > 0 && IsGrid(qrcode[..], n)
    requires x < n && y < n && |marks| == Area(n) && t < Steps(n) && At(n, x, y) == Visited(n, t)
    requires DrawnTo(n, marks, CodewordBits(data[..dataLen]), t, ModulesOf(qrcode[..], n))
    requires i == Used(n, marks, 8 * dataLen, t)
    modifies qrcode
    ensures IsGrid(qrcode[..], n)
    ensures DrawnTo(n, marks, CodewordBits(data[..dataLen]), t + 1, ModulesOf(qrcode[..], n))
    ensures i' == Used(n, marks, 8 * dataLen, t + 1)
  {
    hide VisitOf, Visited, Steps, DrawnTo, Used, Drawn, Free, CodewordBits, ModulesOf, Area, At, ByteValue;
    ghost var g := ModulesOf(qrcode[..], n);
    ghost var bits := CodewordBits(data[..dataLen]);
    i' := i;
    var taken := GetModule(qrcode, x, y);
    if !taken && i < dataLen * 8 {
      BitOfCodeword(data[..dataLen], i);
      var black := data[i / 8][7 - i % 8];
      SetModule(qrcode, x, y, black);
      i' := i' + 1;
    }
    DrawOne(n, marks, bits, t, g, ModulesOf(qrcode[..], n));
  }

  /** Draws the two modules of one row of a column pair. */
  method DrawRow(data: array<Byte>, dataLen: nat, qrcode: array<Byte>, right: nat, vert: nat, i: nat,
                 ghost n: nat, ghost marks: Modules, ghost p: nat) returns (i': nat)
    requires data != qrcode && dataLen <= data.Length && qrcode.Length > 0 && IsGrid(qrcode[..], n)
    requires p < Pairs(n) && vert < n && right == Right(n, p) && |marks| == Area(n)
    requires Order(n, Step(p, vert, 0)) <= Steps(n)
    requires DrawnTo(n, marks, CodewordBits(data[..dataLen]), Order(n, Step(p, vert, 0)), ModulesOf(qrcode[..], n))
    requires i == Used(n, marks, 8 * dataLen, Order(n, Step(p, vert, 0)))
    modifies qrcode
    ensures IsGrid(qrcode[..], n) && Order(n, Step(p, vert + 1, 0)) <= Steps(n)
    ensures DrawnTo(n, marks, CodewordBits(data[..dataLen]), Order(n, Step(p, vert + 1, 0)), ModulesOf(qrcode[..], n))
    ensures i' == Used(n, marks, 8 * dataLen, Order(n, Step(p, vert + 1, 0)))
  {
    hide VisitOf, Visited, Steps, DrawnTo, Used, Drawn, Free, CodewordBits, ModulesOf, Area, At, ByteValue, Order, Upward;
    hide Pairs, Right;
    var qrsize := GetSize(qrcode);
    i' := i;
    for j: nat := 0 to 2
      invariant IsGrid(qrcode[..], n) && Order(n, Step(p, vert, j)) <= Steps(n)
      invariant DrawnTo(n, marks, CodewordBits(data[..dataLen]), Order(n, Step(p, vert, j)), ModulesOf(qrcode[..], n))
      invariant i' == Used(n, marks, 8 * dataLen, Order(n, Step(p, vert, j)))
    {
      var x: int := right - j;
      var upward := Upward(right);
      var y := if upward then qrsize - 1 - vert else vert;
      VisitedAt(n, Order(n, Step(p, vert, j)), Step(p, vert, j), x, y);
      i' := DrawModule(data, dataLen, qrcode, x, y, i', n, marks, Order(n, Step(p, vert, j)));
      NextStep(n, p, vert, j);
    }
    RowDone(n, p, vert);
  }

  lemma NextStep(n: nat, p: nat, vert: nat, j: nat)
    ensures Order(n, Step(p, vert, j + 1)) == Order(n, Step(p, vert, j)) + 1
  {
  }

  lemma RowDone(n: nat, p: nat, vert: nat)
    ensures Order(n, Step(p, vert, 2)) == Order(n, Step(p, vert + 1, 0))
  {
  }

  lemma ColumnDone(n: nat, p: nat)
    ensures Order(n, Step(p, n, 0)) == Order(n, Step(p + 1, 0, 0))
    ensures Order(n, Step(0, 0, 0)) == 0 && Order(n, Step(Pairs(n), 0, 0)) == Steps(n)
  {
  }

  /** The value of `right` when the loop test is made for pair p. */
  function LoopRight(n: nat, p: nat): int {
    if n - 1 - 2 * p >= 6 then n - 1 - 2 * p else n - 2 - 2 * p
  }

  lemma LoopRightFacts(n: nat, p: nat)
    requires IsSide(n) && p <= Pairs(n)
    ensures LoopRight(n, 0) == n - 1 && (LoopRight(n, p) >= 1 <==> p < Pairs(n))
    ensures p < Pairs(n) ==> Right(n, p) == if LoopRight(n, p) == 6 then 5 else LoopRight(n, p)
    ensures p < Pairs(n) ==> LoopRight(n, p + 1) == Right(n, p) - 2
  {
  }

  method DrawCodewords(data: array<Byte>, dataLen: nat, qrcode: array<Byte>, ghost n: nat)
    requires data != qrcode && dataLen <= data.Length && qrcode.Length > 0 && IsGrid(qrcode[..], n)
    requires 8 * dataLen <= Free(n, ModulesOf(qrcode[..], n), Steps(n))
    modifies qrcode
    ensures IsGrid(qrcode[..], n)
    ensures DrawnTo(n, old(ModulesOf(qrcode[..], n)), CodewordBits(data[..dataLen]), Steps(n), ModulesOf(qrcode[..], n))
  {
    hide VisitOf, Visited, Steps, DrawnTo, Used, Drawn, Free, CodewordBits, ModulesOf, Area, ByteValue, Order, LoopRight;
    hide Pairs, Right;
    var qrsize := GetSize(qrcode);
    ghost var marks := ModulesOf(qrcode[..], n);
    ghost var bits := CodewordBits(data[..dataLen]);
    ghost var p: nat := 0;
    var i: nat := 0;
    NothingDrawn(n, marks, bits);
    ColumnDone(n, 0);
    LoopRightFacts(n, 0);
    assert Used(n, marks, 8 * dataLen, 0) == 0 by { NothingUsed(n, marks, 8 * dataLen); }
    var right: int := qrsize - 1;
    while right >= 1
      invariant IsGrid(qrcode[..], n) && p <= Pairs(n) && right == LoopRight(n, p)
      invariant Order(n, Step(p, 0, 0)) <= Steps(n)
      invariant DrawnTo(n, marks, bits, Order(n, Step(p, 0, 0)), ModulesOf(qrcode[..], n))
      invariant i == Used(n, marks, 8 * dataLen, Order(n, Step(p, 0, 0)))
    {
      LoopRightFacts(n, p);
      if right == 6 {
        right := 5;
      }
      for vert: nat := 0 to qrsize
        invariant IsGrid(qrcode[..], n) && Order(n, Step(p, vert, 0)) <= Steps(n)
        invariant DrawnTo(n, marks, bits, Order(n, Step(p, vert, 0)), ModulesOf(qrcode[..], n))
        invariant i == Used(n, marks, 8 * dataLen, Order(n, Step(p, vert, 0)))
      {
        i := DrawRow(data, dataLen, qrcode, right, vert, i, n, marks, p);
      }
      ColumnDone(n, p);
      right := right - 2;
      p := p + 1;
    }
    LoopRightFacts(n, p);
    ColumnDone(n, p);
    assert i == dataLen * 8 by { AllUsed(n, marks, 8 * dataLen); }
  }

  lemma NothingUsed(n: nat, marks: Modules, count: nat)
    requires IsSide(n) && |marks| == Area(n)
    ensures Used(n, marks, count, 0) == 0
  {
  }

  lemma AllUsed(n: nat, marks: Modules, count: nat)
    requires IsSide(n) && |marks| == Area(n) && count <= Free(n, marks, Steps(n))
    ensures Used(n, marks, count, Steps(n)) == count
  {
  }
}
