/** The permutation and the functions over it bit by bit, in the coordinates and numbers of FIPS 202. */
module Fips202 {
  import Integers
  import opened Octets
  import opened Keccak
  import opened Sponge
  import opened Xof
  import opened Instance

  /** Bit z of lane (x, y), all coordinates taken modulo their ranges. */
  function Bit(a: State, x: nat, y: nat, z: nat): bool {
    a[x % 5 + 5 * (y % 5)][z % 64]
  }

  /** The parity of a column. */
  function ColumnParity(a: State, x: nat, z: nat): bool {
    ((((Bit(a, x, 0, z) != Bit(a, x, 1, z)) != Bit(a, x, 2, z)) != Bit(a, x, 3, z)) != Bit(a, x, 4, z))
  }

  lemma ParityBit(a: State, x: nat, z: nat)
    requires z < 64
    ensures Parity(a, x)[z] == ColumnParity(a, x, z)
  {
  }

  lemma RotatedBit(l: Lane, n: nat, z: nat)
    requires n < 64 && z < 64
    ensures Rotl(l, n)[(z + n) % 64] == l[z]
  {
  }

  lemma XorBit(a: Lane, b: Lane, z: nat)
    requires z < 64
    ensures Xor(a, b)[z] == (a[z] != b[z])
  {
  }

  lemma Coordinates(x: nat, y: nat)
    requires x < 5 && y < 5
    ensures x + 5 * y < 25 && x % 5 == x && y % 5 == y && (x + 5 * y) % 5 == x && (x + 5 * y) / 5 == y
  {
  }

  /** Algorithm 1: each bit is changed by the parities of the columns to the left and to the right in the slice before. */
  lemma ThetaBit(a: State, x: nat, y: nat, z: nat)
    requires x < 5 && y < 5 && z < 64
    ensures Bit(Theta(a), x, y, z) == ((Bit(a, x, y, z) != ColumnParity(a, x + 4, z)) != ColumnParity(a, x + 1, z + 63))
  {
    hide Parity, Rotl, ColumnParity, Xor;
    Coordinates(x, y);
    assert Theta(a)[x + 5 * y] == Xor(a[x + 5 * y], Delta(a, x));
    XorBit(a[x + 5 * y], Delta(a, x), z);
    hide Theta;
    var w := (z + 63) % 64;
    assert (w + 1) % 64 == z;
    RotatedBit(Parity(a, x + 1), 1, w);
    XorBit(Parity(a, x + 4), Rotl(Parity(a, x + 1), 1), z);
    ParityBit(a, x + 4, z);
    ParityBit(a, x + 1, w);
    WrappedParity(a, x + 1, z + 63);
  }

  lemma WrappedParity(a: State, x: nat, z: nat)
    ensures ColumnParity(a, x, z) == ColumnParity(a, x, z % 64)
  {
  }

  /** Algorithm 2: each lane is rotated towards higher z by its offset. */
  lemma RhoBit(a: State, x: nat, y: nat, z: nat)
    requires x < 5 && y < 5 && z < 64
    ensures x + 5 * y < 25 && Bit(Keccak.Rho(a), x, y, z + Offset(x + 5 * y)) == Bit(a, x, y, z)
  {
    hide Rotl, Offset;
    Coordinates(x, y);
    assert Keccak.Rho(a)[x + 5 * y] == Rotl(a[x + 5 * y], Offset(x + 5 * y));
    hide Keccak.Rho;
    RotatedBit(a[x + 5 * y], Offset(x + 5 * y), z);
  }

  /** Algorithm 3: lane (x, y) comes from (x + 3y, x). */
  lemma PiBit(a: State, x: nat, y: nat, z: nat)
    requires x < 5 && y < 5 && z < 64
    ensures Bit(Pi(a), x, y, z) == Bit(a, x + 3 * y, x, z)
  {
    Coordinates(x, y);
    PiAt(a, x + 5 * y);
    hide Pi;
  }

  lemma PiAt(a: State, i: nat)
    requires i < 25
    ensures Pi(a)[i] == Keccak.At(a, i % 5 + 3 * (i / 5), i % 5)
  {
    hide Keccak.At;
  }

  /** Algorithm 4: each bit is changed where the next bit of its row is 0 and the one after it 1. */
  lemma ChiBit(a: State, x: nat, y: nat, z: nat)
    requires x < 5 && y < 5 && z < 64
    ensures Bit(Chi(a), x, y, z) == (Bit(a, x, y, z) != (!Bit(a, x + 1, y, z) && Bit(a, x + 2, y, z)))
  {
    hide ChiLane, Beside;
    Coordinates(x, y);
    var i := x + 5 * y;
    ChiAt(a, i);
    hide Chi;
    ChiLaneBit(a[i], Beside(a, i, 1), Beside(a, i, 2), z);
    BesideBit(a, x, y, 1, z);
    BesideBit(a, x, y, 2, z);
  }

  lemma ChiAt(a: State, i: nat)
    requires i < 25
    ensures Chi(a)[i] == ChiLane(a[i], Beside(a, i, 1), Beside(a, i, 2))
  {
    hide ChiLane, Beside;
  }

  lemma BesideBit(a: State, x: nat, y: nat, k: nat, z: nat)
    requires x < 5 && y < 5 && z < 64
    ensures Beside(a, x + 5 * y, k)[z] == Bit(a, x + k, y, z)
  {
    Coordinates(x, y);
    var i := x + 5 * y;
    assert Beside(a, i, k) == Keccak.At(a, x + k, y);
  }

  lemma ChiLaneBit(a: Lane, b: Lane, c: Lane, z: nat)
    requires z < 64
    ensures ChiLane(a, b, c)[z] == (a[z] != (!b[z] && c[z]))
  {
  }

  /** Algorithm 6: only lane (0, 0) takes the round constant. */
  lemma IotaBit(a: State, rc: Lane, x: nat, y: nat, z: nat)
    requires x < 5 && y < 5 && z < 64
    ensures Bit(Iota(a, rc), x, y, z) == (Bit(a, x, y, z) != (x == 0 && y == 0 && rc[z]))
  {
  }

  /** Algorithm 2 visits (1, 0) first; lane (0, 0) is not rotated. */
  lemma WalkBegins()
    ensures WALK[0] == 1 && Offset(0) == 0
  {
  }

  /** Rates in bytes and rounds of the four functions. */
  lemma Rates(table: seq<Lane>)
    requires |table| == 24
    ensures Sha3(256, table).rate == 136 && Sha3(512, table).rate == 72
    ensures Shake(128, table).rate == 168 && Shake(256, table).rate == 136
    ensures Sha3(256, table).rounds == Sha3(512, table).rounds == Shake(128, table).rounds == Shake(256, table).rounds == 24
  {
  }

  /**
   * The byte after a message that leaves room in its block: domain bits and the first bit of the padding. It is 6 for
   * SHA3 and 31 for SHAKE (section B.2 of FIPS 202); the last byte of the block ends with a 1.
   */
  lemma DomainBytes(kind: Kind, table: seq<Lane>, pos: nat)
    requires |table| == 24 && pos + 2 <= kind.rate
    requires kind == Sha3(256, table) || kind == Sha3(512, table) || kind == Shake(128, table) || kind == Shake(256, table)
    ensures
      var tail := kind.ds + Pad101(kind.R(), 8 * pos + |kind.ds|);
      && |tail| == 8 * (kind.rate - pos) && tail[|tail| - 1]
      && ByteValue(tail[..8]) == (if kind == Sha3(256, table) || kind == Sha3(512, table) then 6 else 31)
      && forall i :: 8 <= i < |tail| - 1 ==> !tail[i]
  {
    PadLength(kind.R(), 8 * pos + |kind.ds|);
  }

  lemma PadLength(r: nat, m: nat)
    requires 0 < r && m + 2 <= r
    ensures |Pad101(r, m)| == r - m
  {
    if m + 2 < r {
      ModUnique(m + 2, r, 0, m + 2);
      ModUnique(r - (m + 2), r, 0, r - (m + 2));
    } else {
      ModUnique(r, r, 1, 0);
    }
  }

  /**
   * The oracles of the scheme by rate, domain bits and output length: SHA3-512, SHA3-256 and SHAKE256 (section 4.1 of
   * FIPS 203), with 24 rounds.
   */
  lemma OraclesOfTheScheme(table: seq<Lane>, m: Integers.Bytes)
    requires |table| == 24
    ensures Kind(72, [false, true], 24, table).Sound() && Kind(136, [false, true], 24, table).Sound()
    ensures Kind(136, [true, true, true, true], 24, table).Sound()
    ensures Standard(table).g(m) == Hash(Kind(72, [false, true], 24, table), m, 64)
    ensures Standard(table).h(m) == Hash(Kind(136, [false, true], 24, table), m, 32)
    ensures Standard(table).j(m) == Hash(Kind(136, [true, true, true, true], 24, table), m, 32)
  {
    hide Hash, Uniform, Noise;
  }
}
