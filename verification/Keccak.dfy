/** The Keccak-f[1600] round: the textbook step mappings and the unrolled in-place code. */
module Keccak {

  /** One 64-bit word of the state, as its bits, least significant first. */
  type Lane = l: seq<bool> | |l| == 64 witness seq(64, _ => false)

  type State = s: seq<Lane> | |s| == 25 witness seq(25, _ => seq(64, _ => false))

  function Zero(): Lane {
    seq(64, _ => false)
  }

  function Xor(a: Lane, b: Lane): Lane {
    seq(64, i requires 0 <= i < 64 => a[i] != b[i])
  }

  function AndNot(a: Lane, b: Lane): Lane {
    seq(64, i requires 0 <= i < 64 => a[i] && !b[i])
  }

  function Rotl(a: Lane, n: nat): Lane
    requires n < 64
  {
    a[64 - n..] + a[..64 - n]
  }

  // ----- the textbook round (FIPS 202, sections 3.2 and 3.3) --------------------------------------

  /** Lane (x, y) is stored at x + 5y; both coordinates count modulo 5. */
  function At(a: State, x: nat, y: nat): Lane {
    a[x % 5 + 5 * (y % 5)]
  }

  function Xor5(a: Lane, b: Lane, c: Lane, d: Lane, e: Lane): Lane {
    Xor(Xor(Xor(Xor(a, b), c), d), e)
  }

  function Parity(a: State, x: nat): Lane {
    Xor5(At(a, x, 0), At(a, x, 1), At(a, x, 2), At(a, x, 3), At(a, x, 4))
  }

  /** The difference that theta adds to every lane of column x. */
  function Delta(a: State, x: nat): Lane {
    Xor(Parity(a, x + 4), Rotl(Parity(a, x + 1), 1))
  }

  function Theta(a: State): State {
    seq(25, i requires 0 <= i < 25 => Xor(a[i], Delta(a, i % 5)))
  }

  /** Rotation offsets modulo the lane width, as tabulated in the source. */
  const ROT: seq<nat> := [0, 1, 62, 28, 27, 36, 44, 6, 55, 20, 3, 10, 43, 25, 39, 41, 45, 15, 21, 8, 18, 2, 61, 56, 14]

  /** The order in which Algorithm 2 of FIPS 202 visits the lanes, starting at (1, 0). */
  const WALK: seq<nat> := [1, 10, 7, 11, 17, 18, 3, 5, 16, 8, 21, 24, 4, 15, 23, 19, 13, 12, 2, 20, 14, 22, 9, 6]

  /** Each lane (x, y) of the walk is followed by (y, 2x + 3y). */
  lemma WalkSteps(t: nat)
    requires t < 23
    ensures WALK[t + 1] == WALK[t] / 5 + 5 * ((2 * (WALK[t] % 5) + 3 * (WALK[t] / 5)) % 5)
  {
  }

  /** The table is the one that Algorithm 2 computes: offsets along the walk are the triangular numbers. */
  lemma OffsetsFollowWalk(t: nat)
    requires t < 24
    ensures 0 < WALK[t] < 25 && Offset(WALK[t]) == (t + 1) * (t + 2) / 2 % 64
  {
  }

  function Offset(i: nat): (n: nat)
    requires i < 25
    ensures n < 64
    ensures i == 0 ==> n == 0
  {
    ROT[i]
  }

  function Rho(a: State): State {
    seq(25, i requires 0 <= i < 25 => Rotl(a[i], Offset(i)))
  }

  function Pi(a: State): State {
    seq(25, i requires 0 <= i < 25 => At(a, i % 5 + 3 * (i / 5), i % 5))
  }

  /** The lane k places to the right of lane i in its row. */
  function Beside(a: State, i: nat, k: nat): Lane {
    At(a, i % 5 + k, i / 5)
  }

  function Chi(a: State): State {
    seq(25, i requires 0 <= i < 25 => ChiLane(a[i], Beside(a, i, 1), Beside(a, i, 2)))
  }

  function ChiLane(a: Lane, b: Lane, c: Lane): Lane {
    Xor(a, AndNot(c, b))
  }

  function Iota(a: State, rc: Lane): State {
    a[0 := Xor(a[0], rc)]
  }

  function Round(a: State, rc: Lane): State {
    Iota(Chi(Pi(Rho(Theta(a)))), rc)
  }

  /** Rounds with indices from <= i < upto, in order. */
  function Rounds(a: State, table: seq<Lane>, from: nat, upto: nat): State
    requires from <= upto <= |table|
    decreases upto
  {
    if from == upto then a else Round(Rounds(a, table, from, upto - 1), table[upto - 1])
  }

  /** Algorithm 7 of FIPS 202: nr rounds ending with the last entry of the table. */
  function KeccakP(a: State, table: seq<Lane>, nr: nat): State
    requires |table| == 24 && nr <= 24
  {
    Rounds(a, table, 24 - nr, 24)
  }

  // ----- the round lane by lane -----------------------------------------------------------------------

  /** Lane (x, y) just before chi: it comes from lane (x + 3y, x). */
  function Moved(a: State, x: nat, y: nat): Lane
    requires x < 5 && y < 5
  {
    Carried(a, (x + 3 * y) % 5, x)
  }

  /** Lane (x, y) after theta and its rotation. */
  function Carried(a: State, x: nat, y: nat): Lane
    requires x < 5 && y < 5
  {
    Rotl(Xor(a[x + 5 * y], Delta(a, x)), Offset(x + 5 * y))
  }

  /** Lane (x, y) after chi. */
  function Mixed(a: State, x: nat, y: nat): Lane
    requires x < 5 && y < 5
  {
    ChiLane(Moved(a, x, y), Moved(a, (x + 1) % 5, y), Moved(a, (x + 2) % 5, y))
  }

  lemma Coordinates(x: nat, y: nat)
    requires x < 5 && y < 5
    ensures (x + 5 * y) % 5 == x && (x + 5 * y) / 5 == y
  {
  }

  lemma AtIs(a: State, u: nat, v: nat, x: nat, y: nat)
    requires x == u % 5 && y == v % 5
    ensures At(a, u, v) == a[x + 5 * y]
  {
  }

  lemma RotatedLane(a: State, r: State, x: nat, y: nat)
    requires r == Rho(Theta(a)) && x < 5 && y < 5
    ensures r[x + 5 * y] == Carried(a, x, y)
  {
    hide Xor, Rotl, Delta, Offset;
    Coordinates(x, y);
  }

  lemma PermutedLane(a: State, r: State, p: State, x: nat, y: nat)
    requires r == Rho(Theta(a)) && p == Pi(r) && x < 5 && y < 5
    ensures p[x + 5 * y] == Moved(a, x, y)
  {
    hide Rho, Theta, Carried, At;
    Coordinates(x, y);
    var k := (x + 3 * y) % 5;
    AtIs(r, x + 3 * y, x, k, x);
    RotatedLane(a, r, k, x);
  }

  lemma ChiOf(p: State, c: State, x: nat, y: nat)
    requires c == Chi(p) && x < 5 && y < 5
    ensures c[x + 5 * y] == ChiLane(p[x + 5 * y], p[(x + 1) % 5 + 5 * y], p[(x + 2) % 5 + 5 * y])
  {
    hide ChiLane, At;
    Coordinates(x, y);
    AtIs(p, x + 1, y, (x + 1) % 5, y);
    AtIs(p, x + 2, y, (x + 2) % 5, y);
  }

  lemma MixedLane(a: State, r: State, p: State, c: State, x: nat, y: nat)
    requires r == Rho(Theta(a)) && p == Pi(r) && c == Chi(p) && x < 5 && y < 5
    ensures c[x + 5 * y] == Mixed(a, x, y)
  {
    hide Rho, Theta, Pi, Chi, Moved, ChiLane;
    ChiOf(p, c, x, y);
    PermutedLane(a, r, p, x, y);
    PermutedLane(a, r, p, (x + 1) % 5, y);
    PermutedLane(a, r, p, (x + 2) % 5, y);
  }

  /** The step mappings composed, read lane by lane. */
  lemma RoundByLanes(a: State, rc: Lane, b: State)
    requires b[0] == Xor(Mixed(a, 0, 0), rc)
    requires forall x: nat, y: nat | x < 5 && y < 5 && x + 5 * y != 0 :: b[x + 5 * y] == Mixed(a, x, y)
    ensures b == Round(a, rc)
  {
    hide Theta, Rho, Pi, Chi, Mixed, Xor;
    var t := Theta(a);
    var r := Rho(t);
    var p := Pi(r);
    var c := Chi(p);
    forall i: nat | i < 25
      ensures b[i] == Iota(c, rc)[i]
    {
      var x, y := i % 5, i / 5;
      assert i == x + 5 * y;
      MixedLane(a, r, p, c, x, y);
    }
  }
}
