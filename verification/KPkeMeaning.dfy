/** What keys and ciphertexts are made of: hash outputs and sampled polynomials, without the helpers of the scheme. */
module KPkeMeaning {
  import opened Common
  import opened Integers
  import opened Bits
  import opened Zq
  import opened Transform
  import opened PolyRing
  import opened Vectors
  import opened Compression
  import opened Packing
  import opened PolyVec
  import opened VecPacking
  import opened KPke

  /** The sizes of table 3 of FIPS 203. */
  lemma StandardSizes(p: Params)
    requires p.Supported()
    ensures p.k == 2 ==> PublicLen(p) == 800 && SecretLen(p) + PublicLen(p) + 64 == 1632 && CipherLen(p) == 768
    ensures p.k == 3 ==> PublicLen(p) == 1184 && SecretLen(p) + PublicLen(p) + 64 == 2400 && CipherLen(p) == 1088
    ensures p.k == 4 ==> PublicLen(p) == 1568 && SecretLen(p) + PublicLen(p) + 64 == 3168 && CipherLen(p) == 1568
    ensures p.k == 2 || p.k == 3 || p.k == 4
    ensures p.eta1 == (if p.k == 2 then 3 else 2) && p.eta2 == 2
    ensures p.du == (if p.k == 4 then 11 else 10) && p.dv == (if p.k == 4 then 5 else 4)
  {
  }

  /** Row i of the matrix: entry j is sampled from the two bytes j and i, in this order. */
  function SampledRow(o: Oracles, rho: Bytes32, k: nat, i: byte): (row: seq<Poly>)
    requires k <= 4
    ensures |row| == k
  {
    seq<Poly>(k, j requires 0 <= j < k => o.uniform(rho, j, i))
  }

  /** Column i: entry j is sampled from i and j. */
  function SampledColumn(o: Oracles, rho: Bytes32, k: nat, i: byte): (column: seq<Poly>)
    requires k <= 4
    ensures |column| == k
  {
    seq<Poly>(k, j requires 0 <= j < k => o.uniform(rho, i, j))
  }

  /**
   * Keys made from a hash output: its first half is published and seeds the matrix; its second half seeds the secret and
   * the error, whose nonces follow each other. Both keys hold transformed vectors.
   */
  ghost predicate AreKeysOf(o: Oracles, p: Params, g: Bytes64, public: Bytes, secret: Bytes)
    requires p.Supported() && |public| == PublicLen(p) && |secret| == SecretLen(p)
  {
    var s, t := DecodeVec(12, p.k, secret), DecodeVec(12, p.k, public[..384 * p.k]);
    && public[384 * p.k..] == g[..32]
    && (forall i: nat | i < p.k :: s[i] == NttOf(o.noise(p.eta1, g[32..], i)))
    && (forall i: nat | i < p.k ::
          t[i] == PolyAdd(Dot(SampledRow(o, g[..32], p.k, i), s), NttOf(o.noise(p.eta1, g[32..], p.k + i))))
  }

  /** The hash is taken of the seed d and the dimension. */
  lemma KeysFromSeed(o: Oracles, p: Params, d: Bytes32)
    requires p.Supported()
    ensures AreKeysOf(o, p, o.g(d + [p.k]), KeygenOf(o, p, d).public, KeygenOf(o, p, d).secret)
  {
    hide NttOf, Dot, PolyAdd, DecodeVec, EncodeVec;
    KeygenDecodes(o, p, d);
    var g := o.g(d + [p.k]);
    var a := MatrixOf(o, g[..32], p.k, false);
    forall i: nat | i < p.k
      ensures a[i] == SampledRow(o, g[..32], p.k, i)
      ensures NoiseVec(o, p.eta1, g[32..], 0, p.k)[i] == o.noise(p.eta1, g[32..], i)
      ensures NoiseVec(o, p.eta1, g[32..], p.k, p.k)[i] == o.noise(p.eta1, g[32..], p.k + i)
    {
      NoiseAt(o, p.eta1, g[32..], 0, p.k, i);
      NoiseAt(o, p.eta1, g[32..], p.k, p.k, i);
    }
  }

  /** Bit b of the message becomes 0 or 1665, half of the prime rounded up. */
  lemma MessageCoefficient(m: Bytes32, b: nat)
    requires b < 256
    ensures MessagePoly(m)[b] == if DecodeOf(1, m)[b] == 1 then 1665 else 0
  {
    hide DecodeOf, Pow2, Compression.Expand, Decompress;
    Pow2Values();
    DecodedDigits(1, m);
    BitsAreSmall(m);
    HalfOfPrime();
    assert MessagePoly(m)[b] == Decompress(1, DecodeOf(1, m)[b]);
  }

  lemma HalfOfPrime()
    ensures IsScale(1) && Pow2(1) == 2 && Compression.Expand(2, 0, 3329) == 0 && Compression.Expand(2, 1, 3329) == 1665
  {
    hide Pow2;
    Pow2Values();
  }

  /** The transformed noise r: nonces 0 to k - 1. */
  function SampledR(o: Oracles, p: Params, coins: Bytes32): (r: seq<Poly>)
    ensures |r| == p.k
  {
    seq<Poly>(p.k, j requires 0 <= j < p.k => NttOf(o.noise(p.eta1, coins, j % 256)))
  }

  /** The transposed matrix times r, and noise e1 with nonces k to 2k - 1. */
  function SampledU(o: Oracles, p: Params, rho: Bytes32, coins: Bytes32): (u: seq<Poly>)
    requires p.Supported()
    ensures |u| == p.k
  {
    seq<Poly>(p.k, i requires 0 <= i < p.k =>
      PolyAdd(InttOf(Dot(SampledColumn(o, rho, p.k, i), SampledR(o, p, coins))), o.noise(p.eta2, coins, p.k + i)))
  }

  /** The key vector times r, noise e2 with nonce 2k, and the message. */
  function SampledV(o: Oracles, p: Params, t: seq<Poly>, m: Bytes32, coins: Bytes32): Poly
    requires p.Supported() && |t| == p.k
  {
    PolyAdd(PolyAdd(InttOf(Dot(t, SampledR(o, p, coins))), o.noise(p.eta2, coins, 2 * p.k)), MessagePoly(m))
  }

  lemma RIsSampled(o: Oracles, p: Params, coins: Bytes32)
    requires p.Supported()
    ensures NttVec(NoiseVec(o, p.eta1, coins, 0, p.k)) == SampledR(o, p, coins)
  {
    hide NttOf;
    var noise := NoiseVec(o, p.eta1, coins, 0, p.k);
    forall j | 0 <= j < p.k
      ensures NttVec(noise)[j] == SampledR(o, p, coins)[j]
    {
      NoiseAt(o, p.eta1, coins, 0, p.k, j);
    }
  }

  lemma UIsSampled(o: Oracles, p: Params, rho: Bytes32, coins: Bytes32)
    requires p.Supported()
    ensures VectorU(o, p, rho, coins) == SampledU(o, p, rho, coins)
  {
    hide NttOf, InttOf, Dot, PolyAdd, NoiseVec, SampledR, MatrixRow;
    RIsSampled(o, p, coins);
    forall i: nat | i < p.k
      ensures MatrixRow(o, rho, p.k, i, true) == SampledColumn(o, rho, p.k, i)
      ensures NoiseVec(o, p.eta2, coins, p.k, p.k)[i] == o.noise(p.eta2, coins, p.k + i)
    {
      RowIsColumn(o, rho, p.k, i);
      NoiseAt(o, p.eta2, coins, p.k, p.k, i);
    }
  }

  lemma RowIsColumn(o: Oracles, rho: Bytes32, k: nat, i: byte)
    requires k <= 4
    ensures MatrixRow(o, rho, k, i, true) == SampledColumn(o, rho, k, i)
  {
  }

  lemma NoiseAt(o: Oracles, eta: nat, seed: Bytes32, nonce: nat, k: nat, i: nat)
    requires i < k && nonce + i < 256
    ensures NoiseVec(o, eta, seed, nonce, k)[i] == o.noise(eta, seed, nonce + i)
  {
    assert NoiseVec(o, eta, seed, nonce, k)[i] == NoisePoly(o, eta, seed, nonce + i);
  }

  /** The first part of a ciphertext holds u and the second part v, compressed and packed. */
  lemma CipherFromCoins(o: Oracles, p: Params, public: Bytes, m: Bytes32, coins: Bytes32)
    requires p.Supported() && |public| == PublicLen(p)
    ensures IsWidth(p.du) && IsWidth(p.dv) && IsScale(p.du) && IsScale(p.dv)
    ensures
      var c, t := Algorithm14(o, p, public, m, coins), DecodeVec(12, p.k, public[..384 * p.k]);
      && c[..32 * p.du * p.k] == EncodeVec(p.du, CompressVec(p.du, SampledU(o, p, public[384 * p.k..], coins)))
      && c[32 * p.du * p.k..] == EncodeOf(p.dv, CompressPoly(p.dv, SampledV(o, p, t, m, coins)))
  {
    hide NttOf, InttOf, Dot, PolyAdd, DecodeVec, EncodeVec, EncodeOf, CompressVec, CompressPoly, MessagePoly, NoiseVec;
    hide SampledU, SampledR, VectorU, NttVec;
    SupportedMeans(p);
    RIsSampled(o, p, coins);
    UIsSampled(o, p, public[384 * p.k..], coins);
  }
}
