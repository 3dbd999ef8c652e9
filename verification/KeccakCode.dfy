/** Four unrolled rounds working in place on the lanes, and the permutation built from them. */
module KeccakCode {
  import opened Keccak
  import Bits

  // ----- where the unrolled code keeps each lane --------------------------------------------------

  /** One round moves lane (x, y) to the place (x, x + 2y mod 5). */
  function Shift(i: nat): (j: nat)
    requires i < 25
    ensures j < 25 && j % 5 == i % 5 && j / 5 == (i % 5 + 2 * (i / 5)) % 5
  {
    i % 5 + 5 * ((i % 5 + 2 * (i / 5)) % 5)
  }

  /** The index at which lane i is stored after r rounds that each write where they read. */
  function Slot(r: nat, i: nat): (j: nat)
    requires i < 25
    ensures j < 25
  {
    if r == 0 then i else Slot(r - 1, Shift(i))
  }

  function View(r: nat, stored: State): (a: State) {
    seq(25, i requires 0 <= i < 25 => stored[Slot(r, i)])
  }

  lemma ShiftHasOrderFour(i: nat)
    requires i < 25
    ensures Shift(Shift(Shift(Shift(i)))) == i
    ensures Shift(Shift(i)) == i <==> (i % 5 + i / 5) % 5 == 0
  {
    hide Shift, Turn;
    var x, y := i % 5, i / 5;
    FourTurns(x, y);
    ShiftAt(x, y);
    ShiftAt(x, Turn(x, y));
    ShiftAt(x, Turn(x, Turn(x, y)));
    ShiftAt(x, Turn(x, Turn(x, Turn(x, y))));
    assert i == x + 5 * y;
  }

  function Turn(x: nat, y: nat): (r: nat)
    ensures r < 5
  {
    (x + 2 * y) % 5
  }

  lemma ShiftAt(x: nat, y: nat)
    requires x < 5 && y < 5
    ensures Shift(x + 5 * y) == x + 5 * Turn(x, y)
  {
    Coordinates(x, y);
  }

  lemma FivesDrop(a: int, k: int)
    ensures (a + 5 * k) % 5 == a % 5
  {
    Bits.DivModUnique(a + 5 * k, 5, a / 5 + k, a % 5);
  }

  lemma TwoTurns(x: nat, y: nat)
    ensures Turn(x, Turn(x, y)) == (3 * x + 4 * y) % 5
  {
    var q := (x + 2 * y) / 5;
    assert 3 * x + 4 * y == x + 2 * Turn(x, y) + 5 * (2 * q);
    FivesDrop(x + 2 * Turn(x, y), 2 * q);
  }

  lemma FourTurns(x: nat, y: nat)
    requires x < 5 && y < 5
    ensures Turn(x, Turn(x, Turn(x, Turn(x, y)))) == y
    ensures Turn(x, Turn(x, y)) == y <==> (x + y) % 5 == 0
  {
    hide Turn;
    TwoTurns(x, y);
    TwoTurns(x, Turn(x, Turn(x, y)));
    var q := (3 * x + 4 * y) / 5;
    assert 3 * x + 4 * Turn(x, Turn(x, y)) == y + 5 * (3 * (x + y) - 4 * q);
    FivesDrop(y, 3 * (x + y) - 4 * q);
    assert 3 * x + 4 * y - y == 3 * (x + y);
  }

  lemma HomeAfterFour(stored: State)
    ensures View(4, stored) == stored
  {
    forall i: nat | i < 25
      ensures View(4, stored)[i] == stored[i]
    {
      ShiftHasOrderFour(i);
      var j1 := Shift(i);
      var j2 := Shift(j1);
      var j3 := Shift(j2);
      assert Slot(4, i) == Slot(3, j1) == Slot(2, j2) == Slot(1, j3) == Slot(0, Shift(j3));
    }
  }

  predicate Outside(j: int, i0: nat, i1: nat, i2: nat, i3: nat, i4: nat) {
    j != i0 && j != i1 && j != i2 && j != i3 && j != i4
  }

  predicate Apart(i0: nat, i1: nat, i2: nat, i3: nat, i4: nat) {
    && i0 < 25 && i1 < 25 && i2 < 25 && i3 < 25 && i4 < 25
    && i0 != i1 && i0 != i2 && i0 != i3 && i0 != i4 && i1 != i2 && i1 != i3 && i1 != i4 && i2 != i3 && i2 != i4
    && i3 != i4
  }

  predicate IsDelta(a: State, d0: Lane, d1: Lane, d2: Lane, d3: Lane, d4: Lane) {
    d0 == Delta(a, 0) && d1 == Delta(a, 1) && d2 == Delta(a, 2) && d3 == Delta(a, 3) && d4 == Delta(a, 4)
  }

  lemma RotlZero(a: Lane)
    ensures Rotl(a, 0) == a
  {
  }

  lemma RowMoved0(a: State)
    ensures Moved(a, 0, 0) == Xor(a[0], Delta(a, 0))
    ensures Moved(a, 1, 0) == Rotl(Xor(a[6], Delta(a, 1)), Offset(6))
    ensures Moved(a, 2, 0) == Rotl(Xor(a[12], Delta(a, 2)), Offset(12))
    ensures Moved(a, 3, 0) == Rotl(Xor(a[18], Delta(a, 3)), Offset(18))
    ensures Moved(a, 4, 0) == Rotl(Xor(a[24], Delta(a, 4)), Offset(24))
  {
    hide Delta, Xor, Rotl, Offset;
    RotlZero(Xor(a[0], Delta(a, 0)));
  }

  lemma RowMoved1(a: State)
    ensures Moved(a, 2, 1) == Rotl(Xor(a[10], Delta(a, 0)), Offset(10))
    ensures Moved(a, 3, 1) == Rotl(Xor(a[16], Delta(a, 1)), Offset(16))
    ensures Moved(a, 4, 1) == Rotl(Xor(a[22], Delta(a, 2)), Offset(22))
    ensures Moved(a, 0, 1) == Rotl(Xor(a[3], Delta(a, 3)), Offset(3))
    ensures Moved(a, 1, 1) == Rotl(Xor(a[9], Delta(a, 4)), Offset(9))
  {
    hide Delta, Xor, Rotl, Offset;
  }

  lemma RowMoved2(a: State)
    ensures Moved(a, 4, 2) == Rotl(Xor(a[20], Delta(a, 0)), Offset(20))
    ensures Moved(a, 0, 2) == Rotl(Xor(a[1], Delta(a, 1)), Offset(1))
    ensures Moved(a, 1, 2) == Rotl(Xor(a[7], Delta(a, 2)), Offset(7))
    ensures Moved(a, 2, 2) == Rotl(Xor(a[13], Delta(a, 3)), Offset(13))
    ensures Moved(a, 3, 2) == Rotl(Xor(a[19], Delta(a, 4)), Offset(19))
  {
    hide Delta, Xor, Rotl, Offset;
  }

  lemma RowMoved3(a: State)
    ensures Moved(a, 1, 3) == Rotl(Xor(a[5], Delta(a, 0)), Offset(5))
    ensures Moved(a, 2, 3) == Rotl(Xor(a[11], Delta(a, 1)), Offset(11))
    ensures Moved(a, 3, 3) == Rotl(Xor(a[17], Delta(a, 2)), Offset(17))
    ensures Moved(a, 4, 3) == Rotl(Xor(a[23], Delta(a, 3)), Offset(23))
    ensures Moved(a, 0, 3) == Rotl(Xor(a[4], Delta(a, 4)), Offset(4))
  {
    hide Delta, Xor, Rotl, Offset;
  }

  lemma RowMoved4(a: State)
    ensures Moved(a, 3, 4) == Rotl(Xor(a[15], Delta(a, 0)), Offset(15))
    ensures Moved(a, 4, 4) == Rotl(Xor(a[21], Delta(a, 1)), Offset(21))
    ensures Moved(a, 0, 4) == Rotl(Xor(a[2], Delta(a, 2)), Offset(2))
    ensures Moved(a, 1, 4) == Rotl(Xor(a[8], Delta(a, 3)), Offset(8))
    ensures Moved(a, 2, 4) == Rotl(Xor(a[14], Delta(a, 4)), Offset(14))
  {
    hide Delta, Xor, Rotl, Offset;
  }

  method Row0(state: array<Lane>, i0: nat, i1: nat, i2: nat, i3: nat, i4: nat,
              d0: Lane, d1: Lane, d2: Lane, d3: Lane, d4: Lane, rc: Lane, ghost a: State)
    requires state.Length == 25 && Apart(i0, i1, i2, i3, i4)
    requires state[i0] == a[0] && state[i1] == a[6] && state[i2] == a[12] && state[i3] == a[18] && state[i4] == a[24]
    requires IsDelta(a, d0, d1, d2, d3, d4)
    modifies state
    ensures state[i0] == Xor(Mixed(a, 0, 0), rc) && state[i1] == Mixed(a, 1, 0) && state[i2] == Mixed(a, 2, 0)
    ensures state[i3] == Mixed(a, 3, 0) && state[i4] == Mixed(a, 4, 0)
    ensures forall j :: 0 <= j < 25 && Outside(j, i0, i1, i2, i3, i4) ==> state[j] == old(state[j])
  {
    hide Xor, Rotl, Offset, Delta, Moved, ChiLane;
    var b0 := Xor(state[i0], d0);
    var b1 := Rotl(Xor(state[i1], d1), Offset(6));
    var b2 := Rotl(Xor(state[i2], d2), Offset(12));
    var b3 := Rotl(Xor(state[i3], d3), Offset(18));
    var b4 := Rotl(Xor(state[i4], d4), Offset(24));
    RowMoved0(a);
    state[i0] := Xor(ChiLane(b0, b1, b2), rc);
    state[i1] := ChiLane(b1, b2, b3);
    state[i2] := ChiLane(b2, b3, b4);
    state[i3] := ChiLane(b3, b4, b0);
    state[i4] := ChiLane(b4, b0, b1);
  }

  method Row1(state: array<Lane>, i0: nat, i1: nat, i2: nat, i3: nat, i4: nat,
              d0: Lane, d1: Lane, d2: Lane, d3: Lane, d4: Lane, ghost a: State)
    requires state.Length == 25 && Apart(i0, i1, i2, i3, i4)
    requires state[i0] == a[10] && state[i1] == a[16] && state[i2] == a[22] && state[i3] == a[3] && state[i4] == a[9]
    requires IsDelta(a, d0, d1, d2, d3, d4)
    modifies state
    ensures state[i0] == Mixed(a, 0, 1) && state[i1] == Mixed(a, 1, 1) && state[i2] == Mixed(a, 2, 1)
    ensures state[i3] == Mixed(a, 3, 1) && state[i4] == Mixed(a, 4, 1)
    ensures forall j :: 0 <= j < 25 && Outside(j, i0, i1, i2, i3, i4) ==> state[j] == old(state[j])
  {
    hide Xor, Rotl, Offset, Delta, Moved, ChiLane;
    var b2 := Rotl(Xor(state[i0], d0), Offset(10));
    var b3 := Rotl(Xor(state[i1], d1), Offset(16));
    var b4 := Rotl(Xor(state[i2], d2), Offset(22));
    var b0 := Rotl(Xor(state[i3], d3), Offset(3));
    var b1 := Rotl(Xor(state[i4], d4), Offset(9));
    RowMoved1(a);
    state[i0] := ChiLane(b0, b1, b2);
    state[i1] := ChiLane(b1, b2, b3);
    state[i2] := ChiLane(b2, b3, b4);
    state[i3] := ChiLane(b3, b4, b0);
    state[i4] := ChiLane(b4, b0, b1);
  }

  method Row2(state: array<Lane>, i0: nat, i1: nat, i2: nat, i3: nat, i4: nat,
              d0: Lane, d1: Lane, d2: Lane, d3: Lane, d4: Lane, ghost a: State)
    requires state.Length == 25 && Apart(i0, i1, i2, i3, i4)
    requires state[i0] == a[20] && state[i1] == a[1] && state[i2] == a[7] && state[i3] == a[13] && state[i4] == a[19]
    requires IsDelta(a, d0, d1, d2, d3, d4)
    modifies state
    ensures state[i0] == Mixed(a, 0, 2) && state[i1] == Mixed(a, 1, 2) && state[i2] == Mixed(a, 2, 2)
    ensures state[i3] == Mixed(a, 3, 2) && state[i4] == Mixed(a, 4, 2)
    ensures forall j :: 0 <= j < 25 && Outside(j, i0, i1, i2, i3, i4) ==> state[j] == old(state[j])
  {
    hide Xor, Rotl, Offset, Delta, Moved, ChiLane;
    var b4 := Rotl(Xor(state[i0], d0), Offset(20));
    var b0 := Rotl(Xor(state[i1], d1), Offset(1));
    var b1 := Rotl(Xor(state[i2], d2), Offset(7));
    var b2 := Rotl(Xor(state[i3], d3), Offset(13));
    var b3 := Rotl(Xor(state[i4], d4), Offset(19));
    RowMoved2(a);
    state[i0] := ChiLane(b0, b1, b2);
    state[i1] := ChiLane(b1, b2, b3);
    state[i2] := ChiLane(b2, b3, b4);
    state[i3] := ChiLane(b3, b4, b0);
    state[i4] := ChiLane(b4, b0, b1);
  }

  method Row3(state: array<Lane>, i0: nat, i1: nat, i2: nat, i3: nat, i4: nat,
              d0: Lane, d1: Lane, d2: Lane, d3: Lane, d4: Lane, ghost a: State)
    requires state.Length == 25 && Apart(i0, i1, i2, i3, i4)
    requires state[i0] == a[5] && state[i1] == a[11] && state[i2] == a[17] && state[i3] == a[23] && state[i4] == a[4]
    requires IsDelta(a, d0, d1, d2, d3, d4)
    modifies state
    ensures state[i0] == Mixed(a, 0, 3) && state[i1] == Mixed(a, 1, 3) && state[i2] == Mixed(a, 2, 3)
    ensures state[i3] == Mixed(a, 3, 3) && state[i4] == Mixed(a, 4, 3)
    ensures forall j :: 0 <= j < 25 && Outside(j, i0, i1, i2, i3, i4) ==> state[j] == old(state[j])
  {
    hide Xor, Rotl, Offset, Delta, Moved, ChiLane;
    var b1 := Rotl(Xor(state[i0], d0), Offset(5));
    var b2 := Rotl(Xor(state[i1], d1), Offset(11));
    var b3 := Rotl(Xor(state[i2], d2), Offset(17));
    var b4 := Rotl(Xor(state[i3], d3), Offset(23));
    var b0 := Rotl(Xor(state[i4], d4), Offset(4));
    RowMoved3(a);
    state[i0] := ChiLane(b0, b1, b2);
    state[i1] := ChiLane(b1, b2, b3);
    state[i2] := ChiLane(b2, b3, b4);
    state[i3] := ChiLane(b3, b4, b0);
    state[i4] := ChiLane(b4, b0, b1);
  }

  method Row4(state: array<Lane>, i0: nat, i1: nat, i2: nat, i3: nat, i4: nat,
              d0: Lane, d1: Lane, d2: Lane, d3: Lane, d4: Lane, ghost a: State)
    requires state.Length == 25 && Apart(i0, i1, i2, i3, i4)
    requires state[i0] == a[15] && state[i1] == a[21] && state[i2] == a[2] && state[i3] == a[8] && state[i4] == a[14]
    requires IsDelta(a, d0, d1, d2, d3, d4)
    modifies state
    ensures state[i0] == Mixed(a, 0, 4) && state[i1] == Mixed(a, 1, 4) && state[i2] == Mixed(a, 2, 4)
    ensures state[i3] == Mixed(a, 3, 4) && state[i4] == Mixed(a, 4, 4)
    ensures forall j :: 0 <= j < 25 && Outside(j, i0, i1, i2, i3, i4) ==> state[j] == old(state[j])
  {
    hide Xor, Rotl, Offset, Delta, Moved, ChiLane;
    var b3 := Rotl(Xor(state[i0], d0), Offset(15));
    var b4 := Rotl(Xor(state[i1], d1), Offset(21));
    var b0 := Rotl(Xor(state[i2], d2), Offset(2));
    var b1 := Rotl(Xor(state[i3], d3), Offset(8));
    var b2 := Rotl(Xor(state[i4], d4), Offset(14));
    RowMoved4(a);
    state[i0] := ChiLane(b0, b1, b2);
    state[i1] := ChiLane(b1, b2, b3);
    state[i2] := ChiLane(b2, b3, b4);
    state[i3] := ChiLane(b3, b4, b0);
    state[i4] := ChiLane(b4, b0, b1);
  }

  // ----- column parities -----------------------------------------------------------------------------

  function StoredParity(s: State, x: nat, n: nat): Lane
    requires x < 5 && n <= 5
  {
    if n == 0 then Zero() else Xor(StoredParity(s, x, n - 1), s[5 * (n - 1) + x])
  }

  lemma XorSwaps(a: Lane, b: Lane, c: Lane)
    ensures Xor(a, b) == Xor(b, a)
    ensures Xor(Xor(a, b), c) == Xor(Xor(a, c), b)
  {
  }

  lemma XorRotates(a: Lane, b: Lane, c: Lane, d: Lane, e: Lane)
    ensures Xor5(a, b, c, d, e) == Xor5(b, c, d, e, a)
  {
    hide Xor;
    XorSwaps(a, b, c);
    XorSwaps(Xor(b, a), c, d);
    XorSwaps(b, a, c);
    XorSwaps(Xor(b, c), a, d);
    XorSwaps(Xor(Xor(b, c), d), a, e);
  }

  lemma XorStretches(a: Lane, b: Lane, c: Lane, d: Lane, e: Lane)
    ensures Xor5(a, b, c, d, e) == Xor5(a, c, e, b, d)
  {
    hide Xor;
    XorSwaps(a, b, c);
    XorSwaps(Xor(a, c), b, d);
    XorSwaps(Xor(Xor(a, c), d), b, e);
    XorSwaps(Xor(a, c), d, e);
    XorSwaps(Xor(Xor(a, c), e), d, b);
  }

  lemma OneShift(a: State, x: nat, y: nat, z: nat)
    requires x < 5 && y < 5 && z == Turn(x, y)
    ensures View(1, a)[x + 5 * y] == a[x + 5 * z]
  {
    ShiftAt(x, y);
    assert Slot(1, x + 5 * y) == Slot(0, Shift(x + 5 * y));
  }

  lemma ParityPlain(a: State, x: nat)
    requires x < 5
    ensures Parity(a, x) == Xor5(a[x], a[x + 5], a[x + 10], a[x + 15], a[x + 20])
    ensures Parity(a, x + 5) == Parity(a, x)
  {
    hide Xor5;
  }

  lemma ShiftedColumn(a: State, x: nat, p: nat, q: nat, r: nat, s: nat, t: nat)
    requires x < 5 && p == Turn(x, 0) && q == Turn(x, 1) && r == Turn(x, 2) && s == Turn(x, 3) && t == Turn(x, 4)
    ensures Parity(View(1, a), x) == Xor5(a[x + 5 * p], a[x + 5 * q], a[x + 5 * r], a[x + 5 * s], a[x + 5 * t])
  {
    hide View, Xor5, Parity, Turn;
    OneShift(a, x, 0, p);
    OneShift(a, x, 1, q);
    OneShift(a, x, 2, r);
    OneShift(a, x, 3, s);
    OneShift(a, x, 4, t);
    ParityPlain(View(1, a), x);
  }

  /** Moving a column's lanes within the column keeps its parity. */
  lemma ShiftKeepsParity(a: State, x: nat)
    requires x < 5
    ensures Parity(View(1, a), x) == Parity(a, x)
  {
    hide View, Xor5, Parity;
    ParityPlain(a, x);
    StretchedColumn(a[x], a[x + 5], a[x + 10], a[x + 15], a[x + 20]);
    if x == 0 {
      ShiftedColumn(a, x, 0, 2, 4, 1, 3);
    } else if x == 1 {
      ShiftedColumn(a, x, 1, 3, 0, 2, 4);
    } else if x == 2 {
      ShiftedColumn(a, x, 2, 4, 1, 3, 0);
    } else if x == 3 {
      ShiftedColumn(a, x, 3, 0, 2, 4, 1);
    } else {
      ShiftedColumn(a, x, 4, 1, 3, 0, 2);
    }
  }

  lemma StretchedColumn(a: Lane, b: Lane, c: Lane, d: Lane, e: Lane)
    ensures Xor5(a, c, e, b, d) == Xor5(a, b, c, d, e) && Xor5(b, d, a, c, e) == Xor5(a, b, c, d, e)
    ensures Xor5(c, e, b, d, a) == Xor5(a, b, c, d, e) && Xor5(d, a, c, e, b) == Xor5(a, b, c, d, e)
    ensures Xor5(e, b, d, a, c) == Xor5(a, b, c, d, e)
  {
    hide Xor5;
    XorStretches(a, b, c, d, e);
    XorRotates(a, c, e, b, d);
    XorRotates(c, e, b, d, a);
    XorRotates(e, b, d, a, c);
    XorRotates(b, d, a, c, e);
  }

  lemma ViewAgain(r: nat, s: State)
    ensures View(r + 1, s) == View(1, View(r, s))
  {
    forall i: nat | i < 25
      ensures View(r + 1, s)[i] == View(1, View(r, s))[i]
    {
      assert Slot(r + 1, i) == Slot(r, Shift(i));
      assert Slot(1, i) == Slot(0, Shift(i)) == Shift(i);
    }
  }

  lemma {:induction false} ParityStored(r: nat, s: State, x: nat)
    requires x < 5
    ensures StoredParity(s, x, 5) == Parity(View(r, s), x)
  {
    hide View, Xor;
    if r == 0 {
      assert View(0, s) == s by { ViewHome(s); }
      ParitySum(s, x);
    } else {
      hide Parity, StoredParity;
      ParityStored(r - 1, s, x);
      ViewAgain(r - 1, s);
      ShiftKeepsParity(View(r - 1, s), x);
    }
  }

  lemma ViewHome(s: State)
    ensures View(0, s) == s
  {
  }

  lemma ParitySum(s: State, x: nat)
    requires x < 5
    ensures StoredParity(s, x, 5) == Parity(s, x)
  {
    hide Xor;
    assert StoredParity(s, x, 1) == Xor(Zero(), s[x]) == s[x] by { XorZero(s[x]); }
    assert StoredParity(s, x, 3) == Xor(StoredParity(s, x, 2), s[10 + x]);
  }

  lemma XorZero(a: Lane)
    ensures Xor(Zero(), a) == a
  {
  }

  method Deltas(state: array<Lane>, ghost r: nat)
    returns (d0: Lane, d1: Lane, d2: Lane, d3: Lane, d4: Lane)
    requires state.Length == 25
    ensures IsDelta(View(r, state[..]), d0, d1, d2, d3, d4)
  {
    hide Xor, Rotl, Parity, View;
    var b0: Lane, b1: Lane, b2: Lane, b3: Lane, b4: Lane := Zero(), Zero(), Zero(), Zero(), Zero();
    var i := 0;
    while i < 25
      invariant i % 5 == 0 && 0 <= i <= 25
      invariant b0 == StoredParity(state[..], 0, i / 5) && b1 == StoredParity(state[..], 1, i / 5)
      invariant b2 == StoredParity(state[..], 2, i / 5) && b3 == StoredParity(state[..], 3, i / 5)
      invariant b4 == StoredParity(state[..], 4, i / 5)
    {
      b0, b1, b2 := Xor(b0, state[i]), Xor(b1, state[i + 1]), Xor(b2, state[i + 2]);
      b3, b4 := Xor(b3, state[i + 3]), Xor(b4, state[i + 4]);
      i := i + 5;
    }
    d0 := Xor(b4, Rotl(b1, 1));
    d1 := Xor(b0, Rotl(b2, 1));
    d2 := Xor(b1, Rotl(b3, 1));
    d3 := Xor(b2, Rotl(b4, 1));
    d4 := Xor(b3, Rotl(b0, 1));
    ParityPlain(View(r, state[..]), 0);
    ParityPlain(View(r, state[..]), 1);
    ParityPlain(View(r, state[..]), 2);
    ParityPlain(View(r, state[..]), 3);
    ParityPlain(View(r, state[..]), 4);
    ParityStored(r, state[..], 0);
    ParityStored(r, state[..], 1);
    ParityStored(r, state[..], 2);
    ParityStored(r, state[..], 3);
    ParityStored(r, state[..], 4);
  }

  // ----- the four rounds -----------------------------------------------------------------------------

  lemma Layout0(s: State)
    ensures View(0, s)[0] == s[0] && View(0, s)[1] == s[1] && View(0, s)[2] == s[2] && View(0, s)[3] == s[3] && View(0, s)[4] == s[4]
    ensures View(0, s)[5] == s[5] && View(0, s)[6] == s[6] && View(0, s)[7] == s[7] && View(0, s)[8] == s[8] && View(0, s)[9] == s[9]
    ensures View(0, s)[10] == s[10] && View(0, s)[11] == s[11] && View(0, s)[12] == s[12] && View(0, s)[13] == s[13] && View(0, s)[14] == s[14]
    ensures View(0, s)[15] == s[15] && View(0, s)[16] == s[16] && View(0, s)[17] == s[17] && View(0, s)[18] == s[18] && View(0, s)[19] == s[19]
    ensures View(0, s)[20] == s[20] && View(0, s)[21] == s[21] && View(0, s)[22] == s[22] && View(0, s)[23] == s[23] && View(0, s)[24] == s[24]
  {
  }

  lemma ViewOnce(s: State)
    ensures forall i: nat | i < 25 :: View(1, s)[i] == s[Shift(i)]
  {
    hide Shift;
    forall i: nat | i < 25
      ensures View(1, s)[i] == s[Shift(i)]
    {
      assert Slot(1, i) == Slot(0, Shift(i));
    }
  }

  lemma Layout1(s: State)
    ensures View(1, s)[0] == s[0] && View(1, s)[1] == s[6] && View(1, s)[2] == s[12] && View(1, s)[3] == s[18] && View(1, s)[4] == s[24]
    ensures View(1, s)[5] == s[10] && View(1, s)[6] == s[16] && View(1, s)[7] == s[22] && View(1, s)[8] == s[3] && View(1, s)[9] == s[9]
    ensures View(1, s)[10] == s[20] && View(1, s)[11] == s[1] && View(1, s)[12] == s[7] && View(1, s)[13] == s[13] && View(1, s)[14] == s[19]
    ensures View(1, s)[15] == s[5] && View(1, s)[16] == s[11] && View(1, s)[17] == s[17] && View(1, s)[18] == s[23] && View(1, s)[19] == s[4]
    ensures View(1, s)[20] == s[15] && View(1, s)[21] == s[21] && View(1, s)[22] == s[2] && View(1, s)[23] == s[8] && View(1, s)[24] == s[14]
  {
    hide View, Slot;
    ViewOnce(s);
  }

  lemma Layout2(s: State)
    ensures View(2, s)[0] == s[0] && View(2, s)[1] == s[16] && View(2, s)[2] == s[7] && View(2, s)[3] == s[23] && View(2, s)[4] == s[14]
    ensures View(2, s)[5] == s[20] && View(2, s)[6] == s[11] && View(2, s)[7] == s[2] && View(2, s)[8] == s[18] && View(2, s)[9] == s[9]
    ensures View(2, s)[10] == s[15] && View(2, s)[11] == s[6] && View(2, s)[12] == s[22] && View(2, s)[13] == s[13] && View(2, s)[14] == s[4]
    ensures View(2, s)[15] == s[10] && View(2, s)[16] == s[1] && View(2, s)[17] == s[17] && View(2, s)[18] == s[8] && View(2, s)[19] == s[24]
    ensures View(2, s)[20] == s[5] && View(2, s)[21] == s[21] && View(2, s)[22] == s[12] && View(2, s)[23] == s[3] && View(2, s)[24] == s[19]
  {
    hide View;
    Layout1(s);
    ViewAgain(1, s);
    Layout1(View(1, s));
  }

  lemma Layout3(s: State)
    ensures View(3, s)[0] == s[0] && View(3, s)[1] == s[11] && View(3, s)[2] == s[22] && View(3, s)[3] == s[8] && View(3, s)[4] == s[19]
    ensures View(3, s)[5] == s[15] && View(3, s)[6] == s[1] && View(3, s)[7] == s[12] && View(3, s)[8] == s[23] && View(3, s)[9] == s[9]
    ensures View(3, s)[10] == s[5] && View(3, s)[11] == s[16] && View(3, s)[12] == s[2] && View(3, s)[13] == s[13] && View(3, s)[14] == s[24]
    ensures View(3, s)[15] == s[20] && View(3, s)[16] == s[6] && View(3, s)[17] == s[17] && View(3, s)[18] == s[3] && View(3, s)[19] == s[14]
    ensures View(3, s)[20] == s[10] && View(3, s)[21] == s[21] && View(3, s)[22] == s[7] && View(3, s)[23] == s[18] && View(3, s)[24] == s[4]
  {
    hide View;
    Layout1(s);
    ViewAgain(2, s);
    Layout1(View(2, s));
    Layout2(s);
  }

  lemma Layout4(s: State)
    ensures View(4, s)[0] == s[0] && View(4, s)[1] == s[1] && View(4, s)[2] == s[2] && View(4, s)[3] == s[3] && View(4, s)[4] == s[4]
    ensures View(4, s)[5] == s[5] && View(4, s)[6] == s[6] && View(4, s)[7] == s[7] && View(4, s)[8] == s[8] && View(4, s)[9] == s[9]
    ensures View(4, s)[10] == s[10] && View(4, s)[11] == s[11] && View(4, s)[12] == s[12] && View(4, s)[13] == s[13] && View(4, s)[14] == s[14]
    ensures View(4, s)[15] == s[15] && View(4, s)[16] == s[16] && View(4, s)[17] == s[17] && View(4, s)[18] == s[18] && View(4, s)[19] == s[19]
    ensures View(4, s)[20] == s[20] && View(4, s)[21] == s[21] && View(4, s)[22] == s[22] && View(4, s)[23] == s[23] && View(4, s)[24] == s[24]
  {
    HomeAfterFour(s);
  }

  lemma RoundLanes(a: State, b: State, rc: Lane)
    requires b[0] == Xor(Mixed(a, 0, 0), rc)
    requires b[1] == Mixed(a, 1, 0) && b[2] == Mixed(a, 2, 0) && b[3] == Mixed(a, 3, 0) && b[4] == Mixed(a, 4, 0)
    requires b[5] == Mixed(a, 0, 1) && b[6] == Mixed(a, 1, 1) && b[7] == Mixed(a, 2, 1) && b[8] == Mixed(a, 3, 1) && b[9] == Mixed(a, 4, 1)
    requires b[10] == Mixed(a, 0, 2) && b[11] == Mixed(a, 1, 2) && b[12] == Mixed(a, 2, 2) && b[13] == Mixed(a, 3, 2) && b[14] == Mixed(a, 4, 2)
    requires b[15] == Mixed(a, 0, 3) && b[16] == Mixed(a, 1, 3) && b[17] == Mixed(a, 2, 3) && b[18] == Mixed(a, 3, 3) && b[19] == Mixed(a, 4, 3)
    requires b[20] == Mixed(a, 0, 4) && b[21] == Mixed(a, 1, 4) && b[22] == Mixed(a, 2, 4) && b[23] == Mixed(a, 3, 4) && b[24] == Mixed(a, 4, 4)
    ensures b == Round(a, rc)
  {
    hide Mixed, Xor, Round;
    forall x: nat, y: nat | x < 5 && y < 5 && x + 5 * y != 0
      ensures b[x + 5 * y] == Mixed(a, x, y)
    {
      assert x == 0 || x == 1 || x == 2 || x == 3 || x == 4;
      assert y == 0 || y == 1 || y == 2 || y == 3 || y == 4;
    }
    RoundByLanes(a, rc, b);
  }

  method Round0(state: array<Lane>, rc: Lane)
    requires state.Length == 25
    modifies state
    ensures View(1, state[..]) == Round(View(0, old(state[..])), rc)
  {
    hide View, Delta, Mixed, Round;
    ghost var a := View(0, state[..]);
    Layout0(state[..]);
    var d0, d1, d2, d3, d4 := Deltas(state, 0);
    Row0(state, 0, 6, 12, 18, 24, d0, d1, d2, d3, d4, rc, a);
    Row1(state, 10, 16, 22, 3, 9, d0, d1, d2, d3, d4, a);
    Row2(state, 20, 1, 7, 13, 19, d0, d1, d2, d3, d4, a);
    Row3(state, 5, 11, 17, 23, 4, d0, d1, d2, d3, d4, a);
    Row4(state, 15, 21, 2, 8, 14, d0, d1, d2, d3, d4, a);
    Layout1(state[..]);
    RoundLanes(a, View(1, state[..]), rc);
  }

  method Round1(state: array<Lane>, rc: Lane)
    requires state.Length == 25
    modifies state
    ensures View(2, state[..]) == Round(View(1, old(state[..])), rc)
  {
    hide View, Delta, Mixed, Round;
    ghost var a := View(1, state[..]);
    Layout1(state[..]);
    var d0, d1, d2, d3, d4 := Deltas(state, 1);
    Row0(state, 0, 16, 7, 23, 14, d0, d1, d2, d3, d4, rc, a);
    Row1(state, 20, 11, 2, 18, 9, d0, d1, d2, d3, d4, a);
    Row2(state, 15, 6, 22, 13, 4, d0, d1, d2, d3, d4, a);
    Row3(state, 10, 1, 17, 8, 24, d0, d1, d2, d3, d4, a);
    Row4(state, 5, 21, 12, 3, 19, d0, d1, d2, d3, d4, a);
    Layout2(state[..]);
    RoundLanes(a, View(2, state[..]), rc);
  }

  method Round2(state: array<Lane>, rc: Lane)
    requires state.Length == 25
    modifies state
    ensures View(3, state[..]) == Round(View(2, old(state[..])), rc)
  {
    hide View, Delta, Mixed, Round;
    ghost var a := View(2, state[..]);
    Layout2(state[..]);
    var d0, d1, d2, d3, d4 := Deltas(state, 2);
    Row0(state, 0, 11, 22, 8, 19, d0, d1, d2, d3, d4, rc, a);
    Row1(state, 15, 1, 12, 23, 9, d0, d1, d2, d3, d4, a);
    Row2(state, 5, 16, 2, 13, 24, d0, d1, d2, d3, d4, a);
    Row3(state, 20, 6, 17, 3, 14, d0, d1, d2, d3, d4, a);
    Row4(state, 10, 21, 7, 18, 4, d0, d1, d2, d3, d4, a);
    Layout3(state[..]);
    RoundLanes(a, View(3, state[..]), rc);
  }

  method Round3(state: array<Lane>, rc: Lane)
    requires state.Length == 25
    modifies state
    ensures View(4, state[..]) == Round(View(3, old(state[..])), rc)
  {
    hide View, Delta, Mixed, Round;
    ghost var a := View(3, state[..]);
    Layout3(state[..]);
    var d0, d1, d2, d3, d4 := Deltas(state, 3);
    Row0(state, 0, 1, 2, 3, 4, d0, d1, d2, d3, d4, rc, a);
    Row1(state, 5, 6, 7, 8, 9, d0, d1, d2, d3, d4, a);
    Row2(state, 10, 11, 12, 13, 14, d0, d1, d2, d3, d4, a);
    Row3(state, 15, 16, 17, 18, 19, d0, d1, d2, d3, d4, a);
    Row4(state, 20, 21, 22, 23, 24, d0, d1, d2, d3, d4, a);
    Layout4(state[..]);
    RoundLanes(a, View(4, state[..]), rc);
  }

  // ----- the permutation ----------------------------------------------------------------------------------

  /** Four rounds in one call leave every lane at its own index again. */
  method RoundX4(state: array<Lane>, table: seq<Lane>, ridx: nat)
    requires state.Length == 25 && ridx + 4 <= |table|
    modifies state
    ensures state[..] == Rounds(old(state[..]), table, ridx, ridx + 4)
  {
    hide Round, View;
    ghost var a: State := state[..];
    ViewHome(a);
    Round0(state, table[ridx]);
    Round1(state, table[ridx + 1]);
    Round2(state, table[ridx + 2]);
    Round3(state, table[ridx + 3]);
    HomeAfterFour(state[..]);
    FourRounds(a, table, ridx);
  }

  lemma FourRounds(a: State, table: seq<Lane>, from: nat)
    requires from + 4 <= |table|
    ensures Rounds(a, table, from, from + 4) ==
            Round(Round(Round(Round(a, table[from]), table[from + 1]), table[from + 2]), table[from + 3])
  {
    hide Round;
    assert Rounds(a, table, from, from + 1) == Round(Rounds(a, table, from, from), table[from]);
    assert Rounds(a, table, from, from + 2) == Round(Rounds(a, table, from, from + 1), table[from + 1]);
    assert Rounds(a, table, from, from + 3) == Round(Rounds(a, table, from, from + 2), table[from + 2]);
  }

  lemma {:induction false} RoundsSplit(a: State, table: seq<Lane>, from: nat, mid: nat, upto: nat)
    requires from <= mid <= upto <= |table|
    ensures Rounds(Rounds(a, table, from, mid), table, mid, upto) == Rounds(a, table, from, upto)
    decreases upto
  {
    hide Round;
    if mid < upto {
      RoundsSplit(a, table, from, mid, upto - 1);
    }
  }

  const MAX_NUM_ROUNDS := 24

  /** Keccak-p[1600] with 12 or 24 rounds: the last rounds of the table, in order. */
  method Permute(state: array<Lane>, table: seq<Lane>, rounds: nat)
    requires state.Length == 25 && |table| == 24 && (rounds == 12 || rounds == 24)
    modifies state
    ensures state[..] == KeccakP(old(state[..]), table, rounds)
  {
    hide Round, Rounds;
    var start := 24 - rounds;
    var i := start;
    assert Rounds(state[..], table, start, start) == state[..] by { NoRounds(state[..], table, start); }
    while i < MAX_NUM_ROUNDS
      invariant start <= i <= 24 && i % 4 == 0
      invariant state[..] == Rounds(old(state[..]), table, start, i)
    {
      ghost var b: State := state[..];
      RoundX4(state, table, i);
      RoundsSplit(old(state[..]), table, start, i, i + 4);
      i := i + 4;
    }
  }

  lemma NoRounds(a: State, table: seq<Lane>, from: nat)
    requires from <= |table|
    ensures Rounds(a, table, from, from) == a
  {
  }
}
