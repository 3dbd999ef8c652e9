/** The round constants: a feedback register against powers of x modulo a polynomial. */
module RoundConstants {
  import opened Keccak

  // ----- powers of x -----------------------------------------------------------------------------------------------

  /** Polynomials of degree below 8 over the field of two elements, lowest coefficient first. */
  type Residue = p: seq<bool> | |p| == 8 witness seq(8, _ => false)

  /** Multiplication by x modulo x^8 + x^6 + x^5 + x^4 + 1. */
  function TimesX(p: Residue): Residue {
    [p[7], p[0], p[1], p[2], p[3] != p[7], p[4] != p[7], p[5] != p[7], p[6]]
  }

  /** x^t modulo x^8 + x^6 + x^5 + x^4 + 1; section 3.2.5 of FIPS 202 takes its constant coefficient. */
  function XPower(t: nat): Residue {
    if t == 0 then [true, false, false, false, false, false, false, false] else TimesX(XPower(t - 1))
  }

  /** The position of bit j of a round constant is 2^j - 1. */
  function Mark(z: nat): (j: int)
    ensures -1 <= j <= 6
  {
    if z == 0 then 0 else if z == 1 then 1 else if z == 3 then 2 else if z == 7 then 3
    else if z == 15 then 4 else if z == 31 then 5 else if z == 63 then 6 else -1
  }

  function RoundConstant(i: nat): Lane {
    seq(64, z requires 0 <= z < 64 => Mark(z) >= 0 && XPower(Mark(z) + 7 * i)[0])
  }

  function StandardTable(): (table: seq<Lane>)
    ensures |table| == 24
  {
    seq(24, i requires 0 <= i < 24 => RoundConstant(i))
  }

  // ----- the register ----------------------------------------------------------------------------------------------

  /** One turn of the nine-bit register of algorithm 5, whose leftmost bit is the highest one. */
  function Turn(r: bv16): bv16 {
    var b := r & 1;
    var r8 := (r & 0xFF) ^ ((((r >> 8) & 1) ^ b) << 8);
    var r4 := (r8 & 0x1EF) ^ ((((r8 >> 4) & 1) ^ b) << 4);
    var r3 := (r4 & 0x1F7) ^ ((((r4 >> 3) & 1) ^ b) << 3);
    var r2 := (r3 & 0x1FB) ^ ((((r3 >> 2) & 1) ^ b) << 2);
    r2 >> 1
  }

  function Low(r: bv16): bool {
    r & 1 != 0
  }

  function Contents(r: bv16): Residue {
    [Low(r >> 7), Low(r >> 6), Low(r >> 5), Low(r >> 4), Low(r >> 3), Low(r >> 2), Low(r >> 1), Low(r)]
  }

  lemma TurnIsTimesX(r: bv16)
    requires r < 256
    ensures Turn(r) < 256 && Contents(Turn(r)) == TimesX(Contents(r))
  {
  }

  function Turned(r: bv16, n: nat): bv16 {
    if n == 0 then r else Turn(Turned(r, n - 1))
  }

  lemma {:induction false} RegisterHoldsPower(t: nat)
    ensures Turned(0x80, t) < 256 && Contents(Turned(0x80, t)) == XPower(t)
  {
    hide Turn, TimesX;
    if t > 0 {
      RegisterHoldsPower(t - 1);
      TurnIsTimesX(Turned(0x80, t - 1));
    }
  }

  // ----- the period ------------------------------------------------------------------------------------------------

  lemma {:induction false} TurnedAgain(r: bv16, m: nat, n: nat)
    ensures Turned(r, m + n) == Turned(Turned(r, m), n)
  {
    hide Turn;
    if n > 0 {
      TurnedAgain(r, m, n - 1);
    }
  }

  function FiveTurns(r: bv16): bv16 {
    Turn(Turn(Turn(Turn(Turn(r)))))
  }

  lemma FiveMore(m: nat)
    ensures Turned(0x80, m + 5) == FiveTurns(Turned(0x80, m))
  {
    hide Turn;
    assert Turned(0x80, m + 2) == Turn(Turn(Turned(0x80, m)));
    assert Turned(0x80, m + 4) == Turn(Turn(Turned(0x80, m + 2)));
  }

  function FifteenTurns(r: bv16): bv16 {
    FiveTurns(FiveTurns(FiveTurns(r)))
  }

  lemma FifteenMore(m: nat)
    ensures Turned(0x80, m + 15) == FifteenTurns(Turned(0x80, m))
  {
    hide FiveTurns, Turned;
    FiveMore(m);
    FiveMore(m + 5);
    FiveMore(m + 10);
  }

  lemma Waypoints()
    ensures FifteenTurns(0x80) == 0x83 && FifteenTurns(0x83) == 0xF7 && FifteenTurns(0xF7) == 0x9B
    ensures FifteenTurns(0x9B) == 0x70 && FifteenTurns(0x70) == 0xDC && FifteenTurns(0xDC) == 0x7B
    ensures FifteenTurns(0x7B) == 0xD5 && FifteenTurns(0xD5) == 0x2A && FifteenTurns(0x2A) == 0xCC
    ensures FifteenTurns(0xCC) == 0x81 && FifteenTurns(0x81) == 0xAF && FifteenTurns(0xAF) == 0xD3
    ensures FifteenTurns(0xD3) == 0xC2 && FifteenTurns(0xC2) == 0x14 && FifteenTurns(0x14) == 0x4A
    ensures FifteenTurns(0x4A) == 0xEA && FifteenTurns(0xEA) == 0x80
  {
  }

  /** After 255 turns the register is as at the start. */
  lemma FullCircle()
    ensures Turned(0x80, 255) == 0x80
  {
    hide FifteenTurns, Turned;
    Waypoints();
    assert Turned(0x80, 0) == 0x80 by { NoTurn(); }
    FifteenMore(0);
    FifteenMore(15);
    FifteenMore(30);
    FifteenMore(45);
    FifteenMore(60);
    FifteenMore(75);
    FifteenMore(90);
    FifteenMore(105);
    FifteenMore(120);
    FifteenMore(135);
    FifteenMore(150);
    FifteenMore(165);
    FifteenMore(180);
    FifteenMore(195);
    FifteenMore(210);
    FifteenMore(225);
    FifteenMore(240);
  }

  lemma NoTurn()
    ensures Turned(0x80, 0) == 0x80
  {
  }

  /** The exponent matters modulo 255 only, which is what lets the code shorten its loop. */
  lemma {:induction false} PowerPeriod(t: nat)
    ensures XPower(t) == XPower(t % 255)
    decreases t
  {
    hide Turned, XPower, Contents;
    if t >= 255 {
      PowerPeriod(t - 255);
      FullCircle();
      TurnedAgain(0x80, 255, t - 255);
      RegisterHoldsPower(t);
      RegisterHoldsPower(t - 255);
      assert (t - 255) % 255 == t % 255;
    }
  }

  // ----- the code --------------------------------------------------------------------------------------------------

  method Rc(t: nat) returns (bit: bool)
    ensures bit == XPower(t)[0]
  {
    hide Turn, XPower;
    PowerPeriod(t);
    if t % 255 == 0 {
      assert XPower(0)[0] by { RegisterHoldsPower(0); NoTurn(); }
      return true;
    }
    var r: bv16 := 0x80;
    NoTurn();
    var i: nat := 1;
    while i <= t % 255
      invariant 1 <= i <= t % 255 + 1 && r == Turned(0x80, i - 1)
    {
      r := Turn(r);
      i := i + 1;
    }
    RegisterHoldsPower(t % 255);
    bit := Low(r >> 7);
  }

  method ComputeRc(i: nat) returns (lane: Lane)
    ensures lane == RoundConstant(i)
  {
    hide XPower;
    lane := Zero();
    var j, offset: nat := 0, 0;
    while j < 7
      invariant j <= 7 && (j < 7 ==> Mark(offset) == j && offset < 64)
      invariant offset == if j == 0 then 0 else if j == 1 then 1 else if j == 2 then 3 else if j == 3 then 7
                          else if j == 4 then 15 else if j == 5 then 31 else if j == 6 then 63 else 127
      invariant forall z: nat | z < 64 :: lane[z] == (0 <= Mark(z) < j && XPower(Mark(z) + 7 * i)[0])
    {
      var bit := Rc(j + 7 * i);
      lane := lane[offset := lane[offset] || bit];
      j, offset := j + 1, 2 * offset + 1;
    }
    assert lane == RoundConstant(i);
  }

  method ComputeRcs() returns (table: seq<Lane>)
    ensures table == StandardTable()
  {
    hide RoundConstant;
    table := [];
    for i: nat := 0 to 24
      invariant |table| == i && forall k: nat | k < i :: table[k] == RoundConstant(k)
    {
      var lane := ComputeRc(i);
      table := table + [lane];
    }
  }
}
