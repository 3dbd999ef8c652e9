/** Mask patterns, format bits, and the automatic choice of the mask. */
module Masking {
  import FormatInfo
  import opened Octets
  import opened Grid
  import opened Penalty
  import opened PenaltyCode

  // ----- mask patterns ----------------------------------------------------------------------------------------

  predicate Inverts(mask: nat, x: nat, y: nat)
    requires mask < 8
  {
    match mask
    case 0 => (x + y) % 2 == 0
    case 1 => y % 2 == 0
    case 2 => x % 3 == 0
    case 3 => (x + y) % 3 == 0
    case 4 => (x / 3 + y / 2) % 2 == 0
    case 5 => x * y % 2 + x * y % 3 == 0
    case 6 => (x * y % 2 + x * y % 3) % 2 == 0
    case _ => ((x + y) % 2 + x * y % 3) % 2 == 0
  }

  predicate Flipped(n: nat, functions: Modules, mask: nat, i: nat)
    requires n > 0 && mask < 8 && |functions| == Area(n) && i < Area(n)
  {
    AtOfIndex(n, i);
    !functions[i] && Inverts(mask, i % n, i / n)
  }

  /** The grid with the mask xored onto the modules outside the function patterns. */
  function Masked(n: nat, functions: Modules, g: Modules, mask: nat): (h: Modules)
    requires n > 0 && mask < 8 && |functions| == |g| == Area(n)
    ensures |h| == Area(n)
  {
    seq(Area(n), i requires 0 <= i < Area(n) => g[i] != Flipped(n, functions, mask, i))
  }

  /** Masking twice with the same pattern changes nothing. */
  lemma MaskTwice(n: nat, functions: Modules, g: Modules, mask: nat)
    requires n > 0 && mask < 8 && |functions| == |g| == Area(n)
    ensures Masked(n, functions, Masked(n, functions, g, mask), mask) == g
  {
    hide Area, Flipped;
  }

  lemma MaskSparesFunctions(n: nat, functions: Modules, g: Modules, mask: nat, i: nat)
    requires n > 0 && mask < 8 && |functions| == |g| == Area(n) && i < Area(n) && functions[i]
    ensures Masked(n, functions, g, mask)[i] == g[i]
  {
  }

  method ApplyMask(functionModules: array<Byte>, qrcode: array<Byte>, mask: nat, ghost n: nat)
    requires mask < 8 && functionModules != qrcode && qrcode.Length > 0 && functionModules.Length > 0
    requires IsGrid(functionModules[..], n) && IsGrid(qrcode[..], n)
    modifies qrcode
    ensures IsGrid(qrcode[..], n)
    ensures ModulesOf(qrcode[..], n) ==
            Masked(n, ModulesOf(functionModules[..], n), old(ModulesOf(qrcode[..], n)), mask)
  {
    hide Inverts, ModulesOf, Area, ByteValue, Masked, MaskedTo, At;
    var qrsize := GetSize(qrcode);
    ghost var g := ModulesOf(qrcode[..], n);
    ghost var f := ModulesOf(functionModules[..], n);
    NothingMasked(n, f, g, mask);
    for y: nat := 0 to qrsize
      invariant IsGrid(qrcode[..], n) && MaskedTo(n, f, g, mask, ModulesOf(qrcode[..], n), 0, y)
    {
      for x: nat := 0 to qrsize
        invariant IsGrid(qrcode[..], n) && MaskedTo(n, f, g, mask, ModulesOf(qrcode[..], n), x, y)
      {
        ghost var h := ModulesOf(qrcode[..], n);
        var isFunction := GetModule(functionModules, x, y);
        if !isFunction {
          var invert := Inverts(mask, x, y);
          var val := GetModule(qrcode, x, y);
          SetModule(qrcode, x, y, val != invert);
        }
        MaskOne(n, f, g, mask, h, ModulesOf(qrcode[..], n), x, y);
      }
      NextLine(n, f, g, mask, ModulesOf(qrcode[..], n), y);
    }
    AllMasked(n, f, g, mask, ModulesOf(qrcode[..], n));
  }

  /** Whether the loops have passed module i when they are about to visit (x, y). */
  ghost predicate Passed(n: nat, i: nat, x: nat, y: nat)
    requires n > 0
  {
    i / n < y || (i / n == y && i % n < x)
  }

  ghost predicate MaskedTo(n: nat, f: Modules, g: Modules, mask: nat, h: Modules, x: nat, y: nat)
    requires n > 0 && mask < 8 && |f| == |g| == Area(n)
  {
    && |h| == Area(n)
    && forall i :: 0 <= i < Area(n) ==> h[i] == if Passed(n, i, x, y) then Masked(n, f, g, mask)[i] else g[i]
  }

  lemma NothingMasked(n: nat, f: Modules, g: Modules, mask: nat)
    requires n > 0 && mask < 8 && |f| == |g| == Area(n)
    ensures MaskedTo(n, f, g, mask, g, 0, 0)
  {
    hide Area, Masked;
    forall i | 0 <= i < Area(n)
      ensures !Passed(n, i, 0, 0)
    {
      AtOfIndex(n, i);
    }
  }

  lemma MaskOne(n: nat, f: Modules, g: Modules, mask: nat, h: Modules, h': Modules, x: nat, y: nat)
    requires n > 0 && mask < 8 && |f| == |g| == Area(n) && x < n && y < n && MaskedTo(n, f, g, mask, h, x, y)
    requires
      var i := At(n, x, y);
      h' == if f[i] then h else h[i := h[i] != Inverts(mask, x, y)]
    ensures MaskedTo(n, f, g, mask, h', x + 1, y)
  {
    hide Inverts, Area, At;
    var v := At(n, x, y);
    AtUnique(n, x, y);
    forall i | 0 <= i < Area(n)
      ensures h'[i] == if Passed(n, i, x + 1, y) then Masked(n, f, g, mask)[i] else g[i]
    {
      AtOfIndex(n, i);
      if i != v {
        assert Passed(n, i, x + 1, y) == Passed(n, i, x, y);
      }
    }
  }

  lemma NextLine(n: nat, f: Modules, g: Modules, mask: nat, h: Modules, y: nat)
    requires n > 0 && mask < 8 && |f| == |g| == Area(n) && MaskedTo(n, f, g, mask, h, n, y)
    ensures MaskedTo(n, f, g, mask, h, 0, y + 1)
  {
    hide Area, Masked;
    forall i | 0 <= i < Area(n)
      ensures h[i] == if Passed(n, i, 0, y + 1) then Masked(n, f, g, mask)[i] else g[i]
    {
      AtOfIndex(n, i);
      assert Passed(n, i, 0, y + 1) == Passed(n, i, n, y);
    }
  }

  lemma AllMasked(n: nat, f: Modules, g: Modules, mask: nat, h: Modules)
    requires n > 0 && mask < 8 && |f| == |g| == Area(n) && MaskedTo(n, f, g, mask, h, 0, n)
    ensures h == Masked(n, f, g, mask)
  {
    hide Area, Masked;
    forall i | 0 <= i < Area(n)
      ensures h[i] == Masked(n, f, g, mask)[i]
    {
      AtOfIndex(n, i);
      assert Passed(n, i, 0, n);
    }
  }

  // ----- format bits ------------------------------------------------------------------------------------------------

  /** The format bit shown at a module, or none; 15 stands for the module that is always black. */
  function FormatBitAt(n: nat, x: nat, y: nat): (b: int)
    requires IsSide(n)
    ensures -1 <= b <= 15
  {
    if x == 8 && y <= 5 then y
    else if x == 8 && y == 7 then 6
    else if x == 8 && y == 8 then 7
    else if x == 7 && y == 8 then 8
    else if y == 8 && x <= 5 then 14 - x
    else if y == 8 && n - 8 <= x < n then n - 1 - x
    else if x == 8 && n - 7 <= y < n then y + 15 - n
    else if x == 8 && y == n - 8 then 15
    else -1
  }

  /** A module after the format bits are drawn. */
  function FormatModule(n: nat, bits: seq<bool>, g: Modules, i: nat): bool
    requires IsSide(n) && |bits| == 15 && |g| == Area(n) && i < Area(n)
  {
    AtOfIndex(n, i);
    var b := FormatBitAt(n, i % n, i / n);
    if b == -1 then g[i] else b == 15 || bits[b]
  }

  function Formatted(n: nat, bits: seq<bool>, g: Modules): (h: Modules)
    requires IsSide(n) && |bits| == 15 && |g| == Area(n)
    ensures |h| == Area(n)
  {
    seq(Area(n), i requires 0 <= i < Area(n) => FormatModule(n, bits, g, i))
  }

  /** The function map marks the whole format area. */
  ghost predicate MarksFormat(n: nat, functions: Modules)
    requires IsSide(n) && |functions| == Area(n)
  {
    forall i :: 0 <= i < Area(n) && IsFormat(n, i) ==> functions[i]
  }

  ghost predicate IsFormat(n: nat, i: nat)
    requires IsSide(n) && i < Area(n)
  {
    AtOfIndex(n, i);
    FormatBitAt(n, i % n, i / n) != -1
  }

  /** The format area lies in the three corner squares that the function map fills. */
  lemma FormatInCorners(n: nat, x: nat, y: nat)
    requires IsSide(n) && x < n && y < n && FormatBitAt(n, x, y) != -1
    ensures (x < 9 && y < 9) || (n - 8 <= x && y < 9) || (x < 9 && n - 8 <= y)
  {
  }

  /** New format bits replace old ones completely. */
  lemma FormatTwice(n: nat, bits: seq<bool>, bits': seq<bool>, g: Modules)
    requires IsSide(n) && |bits| == |bits'| == 15 && |g| == Area(n)
    ensures Formatted(n, bits', Formatted(n, bits, g)) == Formatted(n, bits', g)
  {
    hide Area, FormatBitAt;
  }

  /** Format bits and mask do not touch the same modules, so their order does not matter. */
  lemma FormatAndMask(n: nat, functions: Modules, bits: seq<bool>, g: Modules, mask: nat)
    requires IsSide(n) && |bits| == 15 && |g| == |functions| == Area(n) && mask < 8 && MarksFormat(n, functions)
    ensures Masked(n, functions, Formatted(n, bits, g), mask) == Formatted(n, bits, Masked(n, functions, g, mask))
  {
    hide Area, FormatBitAt, Inverts;
    var u := Masked(n, functions, Formatted(n, bits, g), mask);
    var v := Formatted(n, bits, Masked(n, functions, g, mask));
    forall i | 0 <= i < Area(n)
      ensures u[i] == v[i]
    {
      assert IsFormat(n, i) ==> functions[i];
    }
  }

  /** The modules in a set are drawn, the others are as before. */
  ghost predicate Partly(n: nat, bits: seq<bool>, g: Modules, h: Modules, drawn: set<nat>)
    requires IsSide(n) && |bits| == 15 && |g| == Area(n)
  {
    && |h| == Area(n)
    && forall i :: 0 <= i < Area(n) ==> h[i] == if i in drawn then FormatModule(n, bits, g, i) else g[i]
  }

  method PutFormat(qrcode: array<Byte>, x: nat, y: nat, value: bool, ghost n: nat, ghost bits: seq<bool>,
                   ghost g: Modules, ghost drawn: set<nat>) returns (ghost more: set<nat>)
    requires qrcode.Length > 0 && IsGrid(qrcode[..], n) && |bits| == 15 && |g| == Area(n) && x < n && y < n
    requires FormatBitAt(n, x, y) != -1 && value == (FormatBitAt(n, x, y) == 15 || bits[FormatBitAt(n, x, y)])
    requires Partly(n, bits, g, ModulesOf(qrcode[..], n), drawn)
    modifies qrcode
    ensures IsGrid(qrcode[..], n) && more == drawn + {At(n, x, y)}
    ensures Partly(n, bits, g, ModulesOf(qrcode[..], n), more)
  {
    hide ModulesOf, Area, ByteValue, At, FormatBitAt;
    AtUnique(n, x, y);
    assert FormatModule(n, bits, g, At(n, x, y)) == value;
    hide FormatModule;
    SetModule(qrcode, x, y, value);
    more := drawn + {At(n, x, y)};
  }

  /** Where the two copies of format bit k are; the first copy skips the timing patterns. */
  function FirstCopy(k: nat): (nat, nat)
    requires k < 15
  {
    if k <= 5 then (8, k) else if k == 6 then (8, 7) else if k == 7 then (8, 8) else if k == 8 then (7, 8) else (14 - k, 8)
  }

  function SecondCopy(n: nat, k: nat): (nat, nat)
    requires IsSide(n) && k < 15
  {
    if k < 8 then (n - 1 - k, 8) else (8, n - 15 + k)
  }

  lemma CopiesShow(n: nat, k: nat)
    requires IsSide(n) && k < 15
    ensures
      var (x, y), (u, v) := FirstCopy(k), SecondCopy(n, k);
      x < n && y < n && u < n && v < n && FormatBitAt(n, x, y) == k && FormatBitAt(n, u, v) == k
  {
  }

  /** Every format module is one of the two copies of its bit, or the black one. */
  lemma CopiesCover(n: nat, x: nat, y: nat)
    requires IsSide(n) && x < n && y < n && FormatBitAt(n, x, y) != -1
    ensures
      var b := FormatBitAt(n, x, y);
      if b == 15 then (x, y) == (8, n - 8) else (x, y) == FirstCopy(b) || (x, y) == SecondCopy(n, b)
  {
  }

  method DrawFirstCopy(bits: seq<bool>, qrcode: array<Byte>, ghost n: nat, ghost g: Modules) returns (ghost drawn: set<nat>)
    requires |bits| == 15 && qrcode.Length > 0 && IsGrid(qrcode[..], n) && g == ModulesOf(qrcode[..], n)
    modifies qrcode
    ensures IsGrid(qrcode[..], n) && Partly(n, bits, g, ModulesOf(qrcode[..], n), drawn)
    ensures forall k: nat :: k < 15 ==> At(n, FirstCopy(k).0, FirstCopy(k).1) in drawn
  {
    hide ModulesOf, Area, ByteValue, At, FormatBitAt, FormatModule;
    drawn := {};
    for i: nat := 0 to 6
      invariant IsGrid(qrcode[..], n) && Partly(n, bits, g, ModulesOf(qrcode[..], n), drawn)
      invariant forall k: nat :: k < i ==> At(n, FirstCopy(k).0, FirstCopy(k).1) in drawn
    {
      CopiesShow(n, i);
      drawn := PutFormat(qrcode, 8, i, bits[i], n, bits, g, drawn);
    }
    CopiesShow(n, 6);
    drawn := PutFormat(qrcode, 8, 7, bits[6], n, bits, g, drawn);
    CopiesShow(n, 7);
    drawn := PutFormat(qrcode, 8, 8, bits[7], n, bits, g, drawn);
    CopiesShow(n, 8);
    drawn := PutFormat(qrcode, 7, 8, bits[8], n, bits, g, drawn);
    for i: nat := 9 to 15
      invariant IsGrid(qrcode[..], n) && Partly(n, bits, g, ModulesOf(qrcode[..], n), drawn)
      invariant forall k: nat :: k < i ==> At(n, FirstCopy(k).0, FirstCopy(k).1) in drawn
    {
      CopiesShow(n, i);
      drawn := PutFormat(qrcode, 14 - i, 8, bits[i], n, bits, g, drawn);
    }
  }

  method DrawSecondCopy(bits: seq<bool>, qrcode: array<Byte>, ghost n: nat, ghost g: Modules, ghost before: set<nat>)
    returns (ghost drawn: set<nat>)
    requires |bits| == 15 && qrcode.Length > 0 && IsGrid(qrcode[..], n) && |g| == Area(n)
    requires Partly(n, bits, g, ModulesOf(qrcode[..], n), before)
    modifies qrcode
    ensures IsGrid(qrcode[..], n) && before <= drawn && Partly(n, bits, g, ModulesOf(qrcode[..], n), drawn)
    ensures At(n, 8, n - 8) in drawn
    ensures forall k: nat :: k < 15 ==> At(n, SecondCopy(n, k).0, SecondCopy(n, k).1) in drawn
  {
    hide ModulesOf, Area, ByteValue, At, FormatBitAt, FormatModule;
    var qrsize := GetSize(qrcode);
    drawn := before;
    for i: nat := 0 to 8
      invariant IsGrid(qrcode[..], n) && before <= drawn && Partly(n, bits, g, ModulesOf(qrcode[..], n), drawn)
      invariant forall k: nat :: k < i ==> At(n, SecondCopy(n, k).0, SecondCopy(n, k).1) in drawn
    {
      CopiesShow(n, i);
      drawn := PutFormat(qrcode, qrsize - 1 - i, 8, bits[i], n, bits, g, drawn);
    }
    for i: nat := 8 to 15
      invariant IsGrid(qrcode[..], n) && before <= drawn && Partly(n, bits, g, ModulesOf(qrcode[..], n), drawn)
      invariant forall k: nat :: k < i ==> At(n, SecondCopy(n, k).0, SecondCopy(n, k).1) in drawn
    {
      CopiesShow(n, i);
      drawn := PutFormat(qrcode, 8, qrsize - 15 + i, bits[i], n, bits, g, drawn);
    }
    assert FormatBitAt(n, 8, n - 8) == 15 by { BlackModule(n); }
    drawn := PutFormat(qrcode, 8, qrsize - 8, true, n, bits, g, drawn);
  }

  method DrawFormatBits(level: nat, mask: nat, qrcode: array<Byte>, ghost n: nat)
    requires level < 4 && mask < 8 && qrcode.Length > 0 && IsGrid(qrcode[..], n)
    modifies qrcode
    ensures IsGrid(qrcode[..], n)
    ensures ModulesOf(qrcode[..], n) == Formatted(n, FormatInfo.FormatBits(level, mask), old(ModulesOf(qrcode[..], n)))
  {
    hide ModulesOf, Area, ByteValue, At, Partly, FormatInfo.FormatBits;
    var bits := FormatInfo.ComputeFormatBits(level, mask);
    ghost var g := ModulesOf(qrcode[..], n);
    ghost var first := DrawFirstCopy(bits, qrcode, n, g);
    ghost var drawn := DrawSecondCopy(bits, qrcode, n, g, first);
    AllFormatDrawn(n, bits, g, ModulesOf(qrcode[..], n), drawn);
  }

  lemma BlackModule(n: nat)
    requires IsSide(n)
    ensures FormatBitAt(n, 8, n - 8) == 15
  {
  }

  lemma AllFormatDrawn(n: nat, bits: seq<bool>, g: Modules, h: Modules, drawn: set<nat>)
    requires IsSide(n) && |bits| == 15 && |g| == Area(n) && Partly(n, bits, g, h, drawn)
    requires forall k: nat :: k < 15 ==> At(n, FirstCopy(k).0, FirstCopy(k).1) in drawn
    requires forall k: nat :: k < 15 ==> At(n, SecondCopy(n, k).0, SecondCopy(n, k).1) in drawn
    requires At(n, 8, n - 8) in drawn
    ensures h == Formatted(n, bits, g)
  {
    hide Area, At, FormatBitAt;
    forall i | 0 <= i < Area(n)
      ensures h[i] == FormatModule(n, bits, g, i)
    {
      AtOfIndex(n, i);
      var x, y := i % n, i / n;
      if FormatBitAt(n, x, y) != -1 {
        CopiesCover(n, x, y);
      }
    }
  }

  // ----- the automatic choice ------------------------------------------------------------------------------------------

  /** The finished grid for one mask; fmt gives the format bits of each mask at the chosen level. */
  function Candidate(n: nat, functions: Modules, fmt: nat -> seq<bool>, g: Modules, mask: nat): (h: Modules)
    requires IsSide(n) && |functions| == |g| == Area(n) && mask < 8 && |fmt(mask)| == 15
    ensures |h| == Area(n)
  {
    Formatted(n, fmt(mask), Masked(n, functions, g, mask))
  }

  function CandidateScore(n: nat, functions: Modules, fmt: nat -> seq<bool>, g: Modules, mask: nat): int
    requires IsSide(n) && |functions| == |g| == Area(n) && mask < 8 && |fmt(mask)| == 15
  {
    Score(n, Candidate(n, functions, fmt, g, mask))
  }

  ghost predicate Sound(fmt: nat -> seq<bool>) {
    forall m: nat :: m < 8 ==> |fmt(m)| == 15
  }

  lemma FormatsSound(level: nat)
    ensures Sound(FormatInfo.Formats(level))
  {
  }

  /** The lowest-numbered mask with the least penalty among the first count. */
  ghost predicate BestOf(n: nat, functions: Modules, fmt: nat -> seq<bool>, g: Modules, mask: nat, count: nat)
    requires IsSide(n) && |functions| == |g| == Area(n) && Sound(fmt) && count <= 8
  {
    && mask < count
    && forall m: nat :: m < count ==>
      var best := CandidateScore(n, functions, fmt, g, mask);
      best <= CandidateScore(n, functions, fmt, g, m) && (m < mask ==> best < CandidateScore(n, functions, fmt, g, m))
  }

  /** A trial leaves nothing but its format bits, which every later drawing replaces. */
  lemma TrialLeavesNoTrace(n: nat, functions: Modules, bits: seq<bool>, g: Modules, mask: nat)
    requires IsSide(n) && |functions| == |g| == Area(n) && mask < 8 && |bits| == 15 && MarksFormat(n, functions)
    ensures
      Masked(n, functions, Formatted(n, bits, Masked(n, functions, g, mask)), mask) == Formatted(n, bits, g)
  {
    hide Masked, Formatted;
    FormatAndMask(n, functions, bits, Masked(n, functions, g, mask), mask);
    MaskTwice(n, functions, g, mask);
  }

  /** Old format bits do not show in a candidate. */
  lemma CandidateForgets(n: nat, functions: Modules, fmt: nat -> seq<bool>, g: Modules, bits: seq<bool>, mask: nat)
    requires IsSide(n) && |functions| == |g| == Area(n) && mask < 8 && |bits| == |fmt(mask)| == 15
    requires MarksFormat(n, functions)
    ensures Candidate(n, functions, fmt, Formatted(n, bits, g), mask) == Candidate(n, functions, fmt, g, mask)
  {
    hide Masked, Formatted;
    FormatAndMask(n, functions, bits, g, mask);
    FormatTwice(n, bits, fmt(mask), Masked(n, functions, g, mask));
  }

  const LONG_MAX: int := 0x7FFF_FFFF

  /** The grid between trials: as it was, but for format bits. */
  ghost predicate SameButFormat(n: nat, g: Modules, h: Modules)
    requires IsSide(n) && |g| == Area(n)
  {
    h == g || exists bits: seq<bool> :: |bits| == 15 && h == Formatted(n, bits, g)
  }

  lemma StillCandidate(n: nat, functions: Modules, fmt: nat -> seq<bool>, g: Modules, h: Modules, mask: nat)
    requires IsSide(n) && |functions| == |g| == Area(n) && mask < 8 && |fmt(mask)| == 15
    requires MarksFormat(n, functions) && SameButFormat(n, g, h)
    ensures |h| == Area(n) && Candidate(n, functions, fmt, h, mask) == Candidate(n, functions, fmt, g, mask)
    ensures SameButFormat(n, g, Formatted(n, fmt(mask), h))
  {
    hide Candidate, Formatted, MarksFormat;
    if h != g {
      var bits: seq<bool> :| |bits| == 15 && h == Formatted(n, bits, g);
      CandidateForgets(n, functions, fmt, g, bits, mask);
      FormatTwice(n, bits, fmt(mask), g);
    }
  }

  /** The choice can be judged by the finished grid: unmasking it gives a grid with the same candidates. */
  lemma FinalIsBest(n: nat, functions: Modules, fmt: nat -> seq<bool>, g: Modules, mask: nat, final: Modules)
    requires IsSide(n) && |functions| == |g| == |final| == Area(n) && Sound(fmt) && mask < 8 && MarksFormat(n, functions)
    requires final == Candidate(n, functions, fmt, g, mask)
    ensures Candidate(n, functions, fmt, Masked(n, functions, final, mask), mask) == final
    ensures BestOf(n, functions, fmt, g, mask, 8) ==> BestOf(n, functions, fmt, Masked(n, functions, final, mask), mask, 8)
  {
    hide Area, Masked, Formatted, Score, MarksFormat;
    assert Candidate(n, functions, fmt, g, mask) == Formatted(n, fmt(mask), Masked(n, functions, g, mask));
    TrialLeavesNoTrace(n, functions, fmt(mask), g, mask);
    var plain := Masked(n, functions, final, mask);
    assert plain == Formatted(n, fmt(mask), g);
    forall m: nat | m < 8
      ensures CandidateScore(n, functions, fmt, plain, m) == CandidateScore(n, functions, fmt, g, m)
    {
      CandidateForgets(n, functions, fmt, g, fmt(mask), m);
    }
    CandidateForgets(n, functions, fmt, g, fmt(mask), mask);
  }

  /** One trial: mask, format bits, score, unmask. */
  method TryMask(functionModules: array<Byte>, qrcode: array<Byte>, level: nat, mask: nat, ghost n: nat)
    returns (penalty: int)
    requires functionModules != qrcode && qrcode.Length > 0 && functionModules.Length > 0 && level < 4 && mask < 8
    requires IsGrid(functionModules[..], n) && IsGrid(qrcode[..], n)
    requires MarksFormat(n, ModulesOf(functionModules[..], n))
    modifies qrcode
    ensures IsGrid(qrcode[..], n)
    ensures
      var bits, f, g := FormatInfo.FormatBits(level, mask), ModulesOf(functionModules[..], n), old(ModulesOf(qrcode[..], n));
      penalty == Score(n, Formatted(n, bits, Masked(n, f, g, mask))) && ModulesOf(qrcode[..], n) == Formatted(n, bits, g)
  {
    hide ModulesOf, Area, ByteValue, Masked, Formatted, Score, MarksFormat, FormatInfo.FormatBits;
    ghost var bits := FormatInfo.FormatBits(level, mask);
    ghost var f, g := ModulesOf(functionModules[..], n), ModulesOf(qrcode[..], n);
    ApplyMask(functionModules, qrcode, mask, n);
    DrawFormatBits(level, mask, qrcode, n);
    penalty := GetPenaltyScore(qrcode, n);
    ApplyMask(functionModules, qrcode, mask, n);
    TrialLeavesNoTrace(n, f, bits, g, mask);
  }

  /** Masks and formats the grid; a mask of -1 asks for the best one. */
  method ChooseMask(functionModules: array<Byte>, qrcode: array<Byte>, requested: int, level: nat, ghost n: nat)
    returns (mask: nat)
    requires functionModules != qrcode && qrcode.Length > 0 && functionModules.Length > 0
    requires -1 <= requested <= 7 && level < 4
    requires IsGrid(functionModules[..], n) && IsGrid(qrcode[..], n)
    requires MarksFormat(n, ModulesOf(functionModules[..], n))
    modifies qrcode
    ensures IsGrid(qrcode[..], n) && mask < 8 && (requested >= 0 ==> mask == requested)
    ensures
      var fmt, f, g := FormatInfo.Formats(level), ModulesOf(functionModules[..], n), old(ModulesOf(qrcode[..], n));
      && (requested == -1 ==> BestOf(n, f, fmt, g, mask, 8))
      && ModulesOf(qrcode[..], n) == Candidate(n, f, fmt, g, mask)
  {
    hide ModulesOf, Area, ByteValue, Masked, Formatted, Score, MarksFormat, SameButFormat, FormatInfo.FormatBits;
    ghost var fmt, f, g := FormatInfo.Formats(level), ModulesOf(functionModules[..], n), ModulesOf(qrcode[..], n);
    var chosen := requested;
    assert SameButFormat(n, g, g) by { SameIsSame(n, g); }
    if requested == -1 {
      var minPenalty := LONG_MAX;
      for i: nat := 0 to 8
        invariant IsGrid(qrcode[..], n) && SameButFormat(n, g, ModulesOf(qrcode[..], n))
        invariant if i == 0 then minPenalty == LONG_MAX
                  else chosen >= 0 && BestOf(n, f, fmt, g, chosen, i) && minPenalty == CandidateScore(n, f, fmt, g, chosen)
      {
        StillCandidate(n, f, fmt, g, ModulesOf(qrcode[..], n), i);
        var penalty := TryMask(functionModules, qrcode, level, i, n);
        assert penalty == CandidateScore(n, f, fmt, g, i);
        ScoreBound(n, Candidate(n, f, fmt, g, i));
        if penalty < minPenalty {
          chosen := i;
          minPenalty := penalty;
        }
      }
    }
    mask := chosen;
    StillCandidate(n, f, fmt, g, ModulesOf(qrcode[..], n), mask);
    ApplyMask(functionModules, qrcode, mask, n);
    DrawFormatBits(level, mask, qrcode, n);
  }

  lemma SameIsSame(n: nat, g: Modules)
    requires IsSide(n) && |g| == Area(n)
    ensures SameButFormat(n, g, g)
  {
  }
}
