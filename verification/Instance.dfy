/** The oracles of the scheme as the header computes them: SHA-3, SHAKE and the two samplers. */
module Instance {
  import opened Integers
  import opened Octets
  import opened BitBuffer
  import opened Keccak
  import opened Sponge
  import opened Xof
  import opened Zq
  import opened Compression
  import opened Transform
  import opened PolyRing
  import Sampling
  import Cbd
  import KPke

  // ----- hashing bytes -----------------------------------------------------------------------------------------

  function OctetsOf(m: Bytes): (s: seq<Byte>)
    ensures |s| == |m|
  {
    seq<Byte>(|m|, i requires 0 <= i < |m| => OctetOf(m[i]))
  }

  function Values(s: seq<Byte>): (m: Bytes)
    ensures |m| == |s|
  {
    seq<byte>(|s|, i requires 0 <= i < |s| => ByteValue(s[i]))
  }

  /** The first 8n bits that absorbing m, finalizing and squeezing gives. */
  ghost function Output(kind: Kind, m: Bytes, n: nat): (bits: BitString)
    requires kind.Sound()
    ensures |bits| == 8 * n
  {
    OneShotLength(kind.F(), kind.R(), BitsOf(OctetsOf(m)) + kind.ds, 8 * n);
    OneShot(kind.F(), kind.R(), BitsOf(OctetsOf(m)) + kind.ds, 8 * n)
  }

  ghost function Hash(kind: Kind, m: Bytes, n: nat): (out: Bytes)
    requires kind.Sound()
    ensures |out| == n
  {
    ByteCount(Output(kind, m, n), n);
    Values(BytesOf(Output(kind, m, n)))
  }

  lemma ByteCount(bits: BitString, n: nat)
    requires |bits| == 8 * n
    ensures |BytesOf(bits)| == n
  {
    assert |BitsOf(BytesOf(bits))| == 8 * |BytesOf(bits)|;
  }

  lemma OneShotLength(f: State -> State, r: nat, p: BitString, d: nat)
    requires 0 < r <= 1600
    ensures |OneShot(f, r, p, d)| == d
  {
    hide Squeeze, Blocks, Draw;
    DrawIsSqueeze(f, r, Blocks(f, r, Sponge.Zeros(), p + Pad101(r, |p|)), d);
  }

  lemma OneShotGrows(f: State -> State, r: nat, p: BitString, d: nat, e: nat)
    requires 0 < r <= 1600 && d <= e
    ensures OneShot(f, r, p, d) <= OneShot(f, r, p, e)
  {
    hide Squeeze, Blocks, Draw, Drawn;
    var s := Blocks(f, r, Sponge.Zeros(), p + Pad101(r, |p|));
    DrawIsSqueeze(f, r, s, d);
    DrawIsSqueeze(f, r, s, e);
    DrawAppend(f, r, Cursor(s, 0), d, e - d);
  }

  /** Asking for more output keeps what was there. */
  lemma HashGrows(kind: Kind, m: Bytes, n: nat, k: nat)
    requires kind.Sound() && n <= k
    ensures Hash(kind, m, n) <= Hash(kind, m, k)
  {
    hide Output, BitsOf, ByteValue, BytesOf;
    ByteCount(Output(kind, m, n), n);
    ByteCount(Output(kind, m, k), k);
    OutputGrows(kind, m, n, k);
    var a, b := BytesOf(Output(kind, m, n)), BytesOf(Output(kind, m, k));
    BitsOfFront(b, n);
    BitsOfInjective(a, b[..n]);
  }

  lemma OutputGrows(kind: Kind, m: Bytes, n: nat, k: nat)
    requires kind.Sound() && n <= k
    ensures Output(kind, m, n) <= Output(kind, m, k)
  {
    hide OneShot;
    OneShotGrows(kind.F(), kind.R(), BitsOf(OctetsOf(m)) + kind.ds, 8 * n, 8 * k);
  }

  lemma BitsOfFront(b: seq<Byte>, n: nat)
    requires n <= |b|
    ensures BitsOf(b[..n]) == BitsOf(b)[..8 * n]
  {
  }

  // ----- the four functions ------------------------------------------------------------------------------------

  const SHA3_DOMAIN: BitString := [false, true]
  const SHAKE_DOMAIN: BitString := [true, true, true, true]

  function Sha3(bits: nat, table: seq<Lane>): (kind: Kind)
    requires |table| == 24 && (bits == 256 || bits == 512)
    ensures kind.Sound()
  {
    Kind(200 - bits / 4, SHA3_DOMAIN, 24, table)
  }

  function Shake(bits: nat, table: seq<Lane>): (kind: Kind)
    requires |table| == 24 && (bits == 128 || bits == 256)
    ensures kind.Sound() && (bits == 128 ==> kind.rate == 168)
  {
    Kind(200 - bits / 4, SHAKE_DOMAIN, 24, table)
  }

  /** The block stream of sample_ntt after n blocks. */
  ghost function MatrixStream(table: seq<Lane>, rho: KPke.Bytes32, a: byte, b: byte, n: nat): (s: Bytes)
    requires |table| == 24
    ensures |s| == 168 * n
  {
    Hash(Shake(128, table), rho + [a, b], 168 * n)
  }

  /** Whether n blocks hold enough words below the prime. */
  ghost predicate Enough(table: seq<Lane>, rho: KPke.Bytes32, a: byte, b: byte, n: nat)
    requires |table| == 24
  {
    |Sampling.Sampled(Sampling.WordsOf(MatrixStream(table, rho, a, b, n)))| == 256
  }

  /** What sample_ntt leaves once enough blocks were squeezed; zero stands for a stream that never suffices. */
  ghost function Uniform(table: seq<Lane>, rho: KPke.Bytes32, a: byte, b: byte): Poly
    requires |table| == 24
  {
    if exists n: nat :: Enough(table, rho, a, b, n) then
      var n: nat :| Enough(table, rho, a, b, n);
      Sampling.Sampled(Sampling.WordsOf(MatrixStream(table, rho, a, b, n)))
    else PolyRing.Zero()
  }

  function ToBits(m: Bytes): (w: seq<bv8>)
    ensures |w| == |m|
  {
    seq<bv8>(|m|, i requires 0 <= i < |m| => m[i] as bv8)
  }

  ghost function Noise(table: seq<Lane>, eta: nat, seed: KPke.Bytes32, nonce: byte): Poly
    requires |table| == 24
  {
    if eta <= 3 then Cbd.CbdOf(eta, ToBits(Hash(Shake(256, table), seed + [nonce], 64 * eta))) else PolyRing.Zero()
  }

  /** The oracles for a table of round constants. */
  ghost function Standard(table: seq<Lane>): KPke.Oracles
    requires |table| == 24
  {
    KPke.Oracles(
      (m: Bytes) => Hash(Sha3(512, table), m, 64),
      (m: Bytes) => Hash(Sha3(256, table), m, 32),
      (m: Bytes) => Hash(Shake(256, table), m, 32),
      (rho: KPke.Bytes32, a: byte, b: byte) => Uniform(table, rho, a, b),
      (eta: nat, seed: KPke.Bytes32, nonce: byte) => Noise(table, eta, seed, nonce))
  }

  // ----- what the samplers guarantee -------------------------------------------------------------------------------

  /** However many blocks are squeezed, once there are enough the matrix entry is settled. */
  lemma UniformSettles(table: seq<Lane>, rho: KPke.Bytes32, a: byte, b: byte, n: nat)
    requires |table| == 24 && Enough(table, rho, a, b, n)
    ensures Standard(table).uniform(rho, a, b) == Sampling.Sampled(Sampling.WordsOf(MatrixStream(table, rho, a, b, n)))
  {
    hide Enough, MatrixStream, Sampling.Sampled, Sampling.WordsOf;
    var k: nat :| Enough(table, rho, a, b, k) && Uniform(table, rho, a, b) ==
                  Sampling.Sampled(Sampling.WordsOf(MatrixStream(table, rho, a, b, k)));
    if k <= n {
      SettledLater(table, rho, a, b, k, n);
    } else {
      SettledLater(table, rho, a, b, n, k);
    }
  }

  lemma SettledLater(table: seq<Lane>, rho: KPke.Bytes32, a: byte, b: byte, n: nat, k: nat)
    requires |table| == 24 && Enough(table, rho, a, b, n) && n <= k
    ensures Sampling.Sampled(Sampling.WordsOf(MatrixStream(table, rho, a, b, k))) ==
            Sampling.Sampled(Sampling.WordsOf(MatrixStream(table, rho, a, b, n)))
  {
    hide Sampling.Sampled, Sampling.WordsOf, Hash;
    HashGrows(Shake(128, table), rho + [a, b], 168 * n, 168 * k);
    var s := MatrixStream(table, rho, a, b, k);
    assert MatrixStream(table, rho, a, b, n) == s[..168 * n];
    Sampling.FullIsFinal(s, 168 * n);
  }

  /** Every coefficient of every sampled vector is within the width of its distribution. */
  lemma NoiseIsSmall(table: seq<Lane>, eta: nat, seed: KPke.Bytes32, nonce: nat, k: nat, i: nat, c: nat)
    requires |table| == 24 && eta <= 3 && i < k && c < 256
    ensures -(eta as int) <= Centered(KPke.NoiseVec(Standard(table), eta, seed, nonce, k)[i][c]) <= eta
  {
    hide Hash, Centered, Cbd.CbdOf, Uniform;
    var o := Standard(table);
    assert KPke.NoiseVec(o, eta, seed, nonce, k)[i] == KPke.NoisePoly(o, eta, seed, nonce + i);
    assert o.noise(eta, seed, (nonce + i) % 256) == Noise(table, eta, seed, (nonce + i) % 256);
    Cbd.CbdIsSmall(eta, ToBits(Hash(Shake(256, table), seed + [(nonce + i) % 256], 64 * eta)), c);
  }
}
