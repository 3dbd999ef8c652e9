/** The public-key encryption scheme K-PKE as functions of seeds, and when decryption recovers the message. */
module KPke {
  import opened Common
  import opened Integers
  import opened Bits
  import opened Radix
  import opened Zq
  import opened Transform
  import opened PolyRing
  import opened Vectors
  import opened Compression
  import opened Packing
  import opened PolyVec
  import opened VecPacking

  type Bytes32 = s: seq<byte> | |s| == 32 witness seq(32, _ => 0)
  type Bytes64 = s: seq<byte> | |s| == 64 witness seq(64, _ => 0)

  /** The hash functions and samplers, as arbitrary functions of what they absorb. */
  datatype Oracles = Oracles(
    g: Bytes -> Bytes64,                               // SHA3-512
    h: Bytes -> Bytes32,                               // SHA3-256
    j: Bytes -> Bytes32,                               // SHAKE256
    uniform: (Bytes32, byte, byte) -> Poly,            // sample_ntt over SHAKE128 of the seed and two bytes
    noise: (nat, Bytes32, byte) -> Poly)               // centred binomial of the given width over SHAKE256

  /** The parameter sets the templates admit: ML-KEM-512, ML-KEM-768 and ML-KEM-1024. */
  datatype Params = Params(k: nat, eta1: nat, eta2: nat, du: nat, dv: nat) {
    predicate Supported() {
      this == Params(2, 3, 2, 10, 4) || this == Params(3, 2, 2, 10, 4) || this == Params(4, 2, 2, 11, 5)
    }
  }

  lemma SupportedMeans(p: Params)
    requires p.Supported()
    ensures 2 <= p.k <= 4 && IsWidth(p.du) && p.du < 12 && IsWidth(p.dv) && p.dv < 12
    ensures IsWidth(1) && IsWidth(12)
  {
  }

  // ----- sampling -------------------------------------------------------------------------------

  /** Entry (i, j) of the matrix is sampled from bytes (j, i), or from (i, j) when transposed. */
  function MatrixEntryOf(o: Oracles, rho: Bytes32, i: byte, j: byte, transpose: bool): Poly {
    if transpose then o.uniform(rho, i, j) else o.uniform(rho, j, i)
  }

  function MatrixRow(o: Oracles, rho: Bytes32, k: nat, i: byte, transpose: bool): (row: seq<Poly>)
    requires k <= 4
    ensures |row| == k
  {
    seq(k, j requires 0 <= j < k => MatrixEntryOf(o, rho, i, j, transpose))
  }

  function MatrixOf(o: Oracles, rho: Bytes32, k: nat, transpose: bool): (a: seq<seq<Poly>>)
    requires k <= 4
    ensures |a| == k && IsMatrix(a, k)
  {
    seq(k, i requires 0 <= i < k => MatrixRow(o, rho, k, i, transpose))
  }

  function NoisePoly(o: Oracles, eta: nat, seed: Bytes32, nonce: nat): Poly {
    o.noise(eta, seed, nonce % 256)
  }

  function NoiseVec(o: Oracles, eta: nat, seed: Bytes32, nonce: nat, k: nat): (v: seq<Poly>)
    ensures |v| == k
  {
    seq<Poly>(k, i requires 0 <= i < k => NoisePoly(o, eta, seed, nonce + i))
  }

  // ----- the scheme --------------------------------------------------------------------------------

  function PublicLen(p: Params): nat {
    384 * p.k + 32
  }

  function SecretLen(p: Params): nat {
    384 * p.k
  }

  function CipherLen(p: Params): nat {
    32 * p.du * p.k + 32 * p.dv
  }

  datatype KeyPair = KeyPair(public: Bytes, secret: Bytes)

  function SeedsOf(o: Oracles, p: Params, d: Bytes32): Bytes64
    requires p.Supported()
  {
    o.g(d + [p.k])
  }

  function Rho(g: Bytes64): Bytes32 {
    g[..32]
  }

  function Sigma(g: Bytes64): Bytes32 {
    g[32..]
  }

  function KeygenOf(o: Oracles, p: Params, d: Bytes32): (pair: KeyPair)
    requires p.Supported()
    ensures |pair.public| == PublicLen(p) && |pair.secret| == SecretLen(p)
  {
    var seeds := SeedsOf(o, p, d);
    var a := MatrixOf(o, Rho(seeds), p.k, false);
    var s := NttVec(NoiseVec(o, p.eta1, Sigma(seeds), 0, p.k));
    var e := NttVec(NoiseVec(o, p.eta1, Sigma(seeds), p.k, p.k));
    var t := VecAdd(MatVec(a, s), e);
    KeyPair(EncodeVec(12, t) + Rho(seeds), EncodeVec(12, s))
  }

  /** The two parts of a ciphertext before compression. */
  function VectorU(o: Oracles, p: Params, rho: Bytes32, coins: Bytes32): (u: seq<Poly>)
    requires p.Supported()
    ensures |u| == p.k
  {
    var r := NttVec(NoiseVec(o, p.eta1, coins, 0, p.k));
    VecAdd(InttVec(MatVec(MatrixOf(o, rho, p.k, true), r)), NoiseVec(o, p.eta2, coins, p.k, p.k))
  }

  function MessagePoly(m: Bytes32): Poly {
    Pow2Values();
    DecodedDigits(1, m);
    DecompressPoly(1, DecodeOf(1, m))
  }

  function PolyV(o: Oracles, p: Params, t: seq<Poly>, m: Bytes32, coins: Bytes32): Poly
    requires p.Supported() && |t| == p.k
  {
    var r := NttVec(NoiseVec(o, p.eta1, coins, 0, p.k));
    PolyAdd(PolyAdd(InttOf(Dot(t, r)), NoisePoly(o, p.eta2, coins, 2 * p.k)), MessagePoly(m))
  }

  /** Algorithm 14 of FIPS 203: key words are taken modulo the prime, and every key is accepted. */
  function Algorithm14(o: Oracles, p: Params, public: Bytes, m: Bytes32, coins: Bytes32): (c: Bytes)
    requires p.Supported() && |public| == PublicLen(p)
    ensures |c| == CipherLen(p)
  {
    SupportedMeans(p);
    var t, rho := DecodeVec(12, p.k, public[..384 * p.k]), public[384 * p.k..];
    var u, v := VectorU(o, p, rho, coins), PolyV(o, p, t, m, coins);
    EncodeVec(p.du, CompressVec(p.du, u)) + EncodeOf(p.dv, CompressPoly(p.dv, v))
  }

  /** The source first puts the encoded vector to the decode-and-encode test of section 7.2. */
  function EncryptOf(o: Oracles, p: Params, public: Bytes, m: Bytes32, coins: Bytes32): (c: Option<Bytes>)
    requires p.Supported() && |public| == PublicLen(p)
    ensures c.Some? ==> |c.value| == CipherLen(p)
  {
    var encoded := public[..384 * p.k];
    if EncodeVec(12, DecodeVec(12, p.k, encoded)) != encoded then None else Some(Algorithm14(o, p, public, m, coins))
  }

  /** All 12-bit words of an encoded vector are canonical coefficients. */
  ghost predicate WellFormed(p: Params, public: Bytes)
    requires |public| == PublicLen(p)
  {
    forall i | 0 <= i < p.k :: Canonical(Slice(12, p.k, public[..384 * p.k], i))
  }

  /** A key is refused exactly when one of its 12-bit words is no canonical coefficient. */
  lemma EncryptAccepts(o: Oracles, p: Params, public: Bytes, m: Bytes32, coins: Bytes32)
    requires p.Supported() && |public| == PublicLen(p)
    ensures EncryptOf(o, p, public, m, coins) ==
            if WellFormed(p, public) then Some(Algorithm14(o, p, public, m, coins)) else None
  {
    hide EncodeVec, DecodeVec, Algorithm14, Slice, Canonical;
    VecModulusCheck(p.k, public[..384 * p.k]);
  }

  lemma DecodedVecSmall(l: nat, k: nat, b: Bytes)
    requires IsWidth(l) && l < 12 && |b| == 32 * l * k
    ensures CompressedVec(l, DecodeVec(l, k, b))
  {
    hide IsWidth, DecodeOf, Slice, Pow2;
    forall i | 0 <= i < k
      ensures Compressed(l, DecodeVec(l, k, b)[i])
    {
      DecodedDigits(l, Slice(l, k, b, i));
    }
  }

  /** What decryption subtracts and rounds. */
  function DecryptedPoly(p: Params, secret: Bytes, c: Bytes): Poly
    requires p.Supported() && |secret| == SecretLen(p) && |c| == CipherLen(p)
  {
    SupportedMeans(p);
    var split := 32 * p.du * p.k;
    DecodedVecSmall(p.du, p.k, c[..split]);
    DecodedDigits(p.dv, c[split..]);
    var u := DecompressVec(p.du, DecodeVec(p.du, p.k, c[..split]));
    var v := DecompressPoly(p.dv, DecodeOf(p.dv, c[split..]));
    PolySub(v, InttOf(Dot(DecodeVec(12, p.k, secret), NttVec(u))))
  }

  function DecryptOf(p: Params, secret: Bytes, c: Bytes): (m: Bytes32)
    requires p.Supported() && |secret| == SecretLen(p) && |c| == CipherLen(p)
  {
    EncodeOf(1, CompressPoly(1, DecryptedPoly(p, secret, c)))
  }

  // ----- what the noise is ----------------------------------------------------------------------------

  /** Decompressing after compressing, minus the original: the rounding error of one polynomial. */
  function Rounding(d: nat, f: Poly): Poly
    requires IsScale(d)
  {
    CompressedSmall(d, f);
    PolySub(DecompressPoly(d, CompressPoly(d, f)), f)
  }

  function RoundingVec(d: nat, v: seq<Poly>): (w: seq<Poly>)
    requires IsScale(d)
    ensures |w| == |v|
  {
    seq(|v|, i requires 0 <= i < |v| => Rounding(d, v[i]))
  }

  lemma CompressedSmall(d: nat, f: Poly)
    requires IsScale(d)
    ensures Compressed(d, CompressPoly(d, f))
  {
    hide Pow2, Compress, Nearest;
    ScaleValues(d);
  }

  /** e.r + e2 + cv - s.(e1 + cu), with schoolbook products modulo X^256 + 1. */
  function TotalNoise(s: seq<Poly>, e: seq<Poly>, r: seq<Poly>, e1: seq<Poly>, e2: Poly, cu: seq<Poly>, cv: Poly): Poly
    requires |s| == |e| == |r| == |e1| == |cu|
  {
    PolySub(PolyAdd(PolyAdd(SumOfProducts(e, r), e2), cv), SumOfProducts(s, VecAdd(e1, cu)))
  }

  // ----- the algebra of decryption ----------------------------------------------------------------------

  /** v - s.u is the message plus noise, whatever the matrix and all the vectors are. */
  lemma DecryptionAlgebra(a: seq<seq<Poly>>, s: seq<Poly>, e: seq<Poly>, r: seq<Poly>, e1: seq<Poly>, e2: Poly, mu: Poly,
                          cu: seq<Poly>, cv: Poly)
    requires |a| == |s| == |e| == |r| == |e1| == |cu| && IsMatrix(a, |s|)
    ensures var t := VecAdd(MatVec(a, NttVec(s)), NttVec(e));
            var u := VecAdd(InttVec(MatVec(Transpose(a, |s|), NttVec(r))), e1);
            var v := PolyAdd(PolyAdd(InttOf(Dot(t, NttVec(r))), e2), mu);
            PolySub(PolyAdd(v, cv), InttOf(Dot(NttVec(s), NttVec(VecAdd(u, cu))))) ==
            PolyAdd(mu, TotalNoise(s, e, r, e1, e2, cu, cv))
  {
    hide NttOf, InttOf, Dot, MatVec, Transpose, PolyAdd, PolySub, SumOfProducts, VecAdd, IsMatrix;
    var s', e', r' := NttVec(s), NttVec(e), NttVec(r);
    var b := Transpose(a, |s|);
    var core := MatVec(b, r');
    var x := InttOf(Dot(s', core));
    // t . r
    DotCommutes(VecAdd(MatVec(a, s'), e'), r');
    DotAdds(r', MatVec(a, s'), e');
    DotCommutes(r', MatVec(a, s'));
    DotCommutes(r', e');
    TransposeMoves(a, s', r');
    InttAdds(Dot(s', core), Dot(e', r'));
    DotThroughTransform(e, r);
    // s . u
    var w := VecAdd(e1, cu);
    VecAddAssociates(InttVec(core), e1, cu);
    NttVecAdds(InttVec(core), w);
    NttVecOfIntt(core);
    DotAdds(s', core, NttVec(w));
    InttAdds(Dot(s', core), Dot(s', NttVec(w)));
    DotThroughTransform(s, w);
    CancelCore(x, SumOfProducts(e, r), e2, mu, cv, SumOfProducts(s, w));
  }

  lemma VecAddAssociates(u: seq<Poly>, v: seq<Poly>, w: seq<Poly>)
    requires |u| == |v| == |w|
    ensures VecAdd(VecAdd(u, v), w) == VecAdd(u, VecAdd(v, w))
  {
    hide PolyAdd;
    forall i | 0 <= i < |u|
      ensures VecAdd(VecAdd(u, v), w)[i] == VecAdd(u, VecAdd(v, w))[i]
    {
      AddAssociates(u[i], v[i], w[i]);
    }
  }

  lemma CancelCore(x: Poly, er: Poly, e2: Poly, mu: Poly, cv: Poly, sw: Poly)
    ensures PolySub(PolyAdd(PolyAdd(PolyAdd(PolyAdd(x, er), e2), mu), cv), PolyAdd(x, sw)) ==
            PolyAdd(mu, PolySub(PolyAdd(PolyAdd(er, e2), cv), sw))
  {
    hide PolyAdd, PolySub, Mod;
    var l := PolySub(PolyAdd(PolyAdd(PolyAdd(PolyAdd(x, er), e2), mu), cv), PolyAdd(x, sw));
    var r := PolyAdd(mu, PolySub(PolyAdd(PolyAdd(er, e2), cv), sw));
    forall i | 0 <= i < 256
      ensures Cong(l[i], r[i])
    {
      CancelCoreAt(x, er, e2, mu, cv, sw, i);
    }
    PolyEqual(l, r);
  }

  lemma CancelCoreAt(x: Poly, er: Poly, e2: Poly, mu: Poly, cv: Poly, sw: Poly, i: nat)
    requires i < 256
    ensures Cong(PolySub(PolyAdd(PolyAdd(PolyAdd(PolyAdd(x, er), e2), mu), cv), PolyAdd(x, sw))[i],
                 PolyAdd(mu, PolySub(PolyAdd(PolyAdd(er, e2), cv), sw))[i])
  {
    hide PolyAdd, PolySub, Mod;
    var p1 := PolyAdd(x, er);
    var p2 := PolyAdd(p1, e2);
    var p3 := PolyAdd(p2, mu);
    var p4 := PolyAdd(p3, cv);
    var p5 := PolyAdd(x, sw);
    SumCong(x, er, i, x[i], er[i]);
    SumCong(p1, e2, i, x[i] as int + er[i], e2[i]);
    SumCong(p2, mu, i, x[i] as int + er[i] + e2[i], mu[i]);
    SumCong(p3, cv, i, x[i] as int + er[i] + e2[i] + mu[i], cv[i]);
    SumCong(x, sw, i, x[i], sw[i]);
    SumCong(p4, p5, i, x[i] as int + er[i] + e2[i] + mu[i] + cv[i], x[i] as int + sw[i]);
    var q1 := PolyAdd(er, e2);
    var q2 := PolyAdd(q1, cv);
    var q3 := PolySub(q2, sw);
    SumCong(er, e2, i, er[i], e2[i]);
    SumCong(q1, cv, i, er[i] as int + e2[i], cv[i]);
    SumCong(q2, sw, i, er[i] as int + e2[i] + cv[i], sw[i]);
    SumCong(mu, q3, i, mu[i], er[i] as int + e2[i] + cv[i] - sw[i]);
  }

  lemma SumCong(f: Poly, g: Poly, i: nat, x: int, y: int)
    requires i < 256 && Cong(f[i], x) && Cong(g[i], y)
    ensures Cong(PolyAdd(f, g)[i], x + y) && Cong(PolySub(f, g)[i], x - y)
  {
    hide PolyAdd, PolySub, Mod;
    AddAt(f, g, i);
    CongAdd(f[i], x, g[i], y);
  }

  // ----- the theorem -----------------------------------------------------------------------------------

  /** The noise of one exchange, from the seeds alone. */
  function NoiseOfExchange(o: Oracles, p: Params, d: Bytes32, m: Bytes32, coins: Bytes32): Poly
    requires p.Supported()
  {
    SupportedMeans(p);
    var seeds := SeedsOf(o, p, d);
    var s := NoiseVec(o, p.eta1, Sigma(seeds), 0, p.k);
    var e := NoiseVec(o, p.eta1, Sigma(seeds), p.k, p.k);
    var r := NoiseVec(o, p.eta1, coins, 0, p.k);
    var e1 := NoiseVec(o, p.eta2, coins, p.k, p.k);
    var e2 := NoisePoly(o, p.eta2, coins, 2 * p.k);
    var t := VecAdd(MatVec(MatrixOf(o, Rho(seeds), p.k, false), NttVec(s)), NttVec(e));
    var cu := RoundingVec(p.du, VectorU(o, p, Rho(seeds), coins));
    var cv := Rounding(p.dv, PolyV(o, p, t, m, coins));
    TotalNoise(s, e, r, e1, e2, cu, cv)
  }

  lemma MatrixTransposes(o: Oracles, rho: Bytes32, k: nat)
    requires k <= 4
    ensures Transpose(MatrixOf(o, rho, k, false), k) == MatrixOf(o, rho, k, true)
  {
    var a, b := MatrixOf(o, rho, k, false), MatrixOf(o, rho, k, true);
    forall j | 0 <= j < k
      ensures Transpose(a, k)[j] == b[j]
    {
      assert Column(a, k, j) == MatrixRow(o, rho, k, j, true);
    }
  }

  /** A freshly generated public key passes the modulus check and decodes to the vector it encodes. */
  lemma KeygenDecodes(o: Oracles, p: Params, d: Bytes32)
    requires p.Supported()
    ensures var seeds := SeedsOf(o, p, d);
            var s := NttVec(NoiseVec(o, p.eta1, Sigma(seeds), 0, p.k));
            var e := NttVec(NoiseVec(o, p.eta1, Sigma(seeds), p.k, p.k));
            var t := VecAdd(MatVec(MatrixOf(o, Rho(seeds), p.k, false), s), e);
            var pair := KeygenOf(o, p, d);
            pair.public[..384 * p.k] == EncodeVec(12, t) && pair.public[384 * p.k..] == Rho(seeds) &&
            DecodeVec(12, p.k, EncodeVec(12, t)) == t && DecodeVec(12, p.k, pair.secret) == s
  {
    hide MatVec, MatrixOf, NttVec, NoiseVec, VecAdd, EncodeVec, DecodeVec, SeedsOf, AreDigitsVec;
    var seeds := SeedsOf(o, p, d);
    var s := NttVec(NoiseVec(o, p.eta1, Sigma(seeds), 0, p.k));
    var t := VecAdd(MatVec(MatrixOf(o, Rho(seeds), p.k, false), s), NttVec(NoiseVec(o, p.eta1, Sigma(seeds), p.k, p.k)));
    CanonicalDigits(s);
    CanonicalDigits(t);
    DecodeOfEncodeVec(12, s);
    DecodeOfEncodeVec(12, t);
  }

  /** What decryption reads back from a ciphertext: each part plus its rounding error. */
  lemma CipherDecodes(p: Params, u: seq<Poly>, v: Poly)
    requires p.Supported() && |u| == p.k
    ensures IsWidth(p.du) && p.du < 12 && IsWidth(p.dv) && p.dv < 12
    ensures var c := EncodeVec(p.du, CompressVec(p.du, u)) + EncodeOf(p.dv, CompressPoly(p.dv, v));
            var split := 32 * p.du * p.k;
            |c| == CipherLen(p) && CompressedVec(p.du, DecodeVec(p.du, p.k, c[..split])) &&
            Compressed(p.dv, DecodeOf(p.dv, c[split..])) &&
            DecompressVec(p.du, DecodeVec(p.du, p.k, c[..split])) == VecAdd(u, RoundingVec(p.du, u)) &&
            DecompressPoly(p.dv, DecodeOf(p.dv, c[split..])) == PolyAdd(v, Rounding(p.dv, v))
  {
    hide CompressVec, CompressPoly, EncodeVec, EncodeOf, DecodeVec, DecodeOf, Rounding, DecompressPoly, PolyAdd, Compressed;
    SupportedMeans(p);
    var cu, cv := CompressVec(p.du, u), CompressPoly(p.dv, v);
    var c := EncodeVec(p.du, cu) + EncodeOf(p.dv, cv);
    var split := 32 * p.du * p.k;
    assert c[..split] == EncodeVec(p.du, cu) && c[split..] == EncodeOf(p.dv, cv);
    CompressedVecSmall(p.du, u);
    DecodeOfEncodeVec(p.du, cu);
    CompressedSmall(p.dv, v);
    CompressedIsDigits(p.dv, cv);
    DecodeOfEncode(p.dv, cv);
    RoundedPoly(p.dv, v);
    RoundedVec(p.du, u);
  }

  lemma CompressedIsDigits(d: nat, f: Poly)
    ensures Compressed(d, f) <==> AreDigits(Pow2(d), f)
  {
    hide Pow2;
  }

  lemma CompressedVecSmall(d: nat, v: seq<Poly>)
    requires IsScale(d)
    ensures CompressedVec(d, CompressVec(d, v)) && AreDigitsVec(Pow2(d), CompressVec(d, v))
  {
    hide Pow2, CompressPoly, Compressed, AreDigits;
    forall i | 0 <= i < |v|
      ensures Compressed(d, CompressVec(d, v)[i]) && AreDigits(Pow2(d), CompressVec(d, v)[i])
    {
      CompressedSmall(d, v[i]);
      CompressedIsDigits(d, CompressPoly(d, v[i]));
    }
  }

  lemma RoundedPoly(d: nat, f: Poly)
    requires IsScale(d)
    ensures Compressed(d, CompressPoly(d, f)) && DecompressPoly(d, CompressPoly(d, f)) == PolyAdd(f, Rounding(d, f))
  {
    hide CompressPoly, DecompressPoly, PolyAdd, PolySub, Compressed;
    CompressedSmall(d, f);
    SubThenAdd(DecompressPoly(d, CompressPoly(d, f)), f);
  }

  lemma RoundedVec(d: nat, v: seq<Poly>)
    requires IsScale(d)
    ensures CompressedVec(d, CompressVec(d, v)) && DecompressVec(d, CompressVec(d, v)) == VecAdd(v, RoundingVec(d, v))
  {
    hide CompressPoly, DecompressPoly, PolyAdd, Rounding, Compressed;
    CompressedVecSmall(d, v);
    forall i | 0 <= i < |v|
      ensures DecompressVec(d, CompressVec(d, v))[i] == VecAdd(v, RoundingVec(d, v))[i]
    {
      RoundedPoly(d, v[i]);
    }
  }

  /** Encryption under a generated key succeeds, and decryption computes the message plus the noise. */
  lemma DecryptedIsNoisy(o: Oracles, p: Params, d: Bytes32, m: Bytes32, coins: Bytes32)
    requires p.Supported()
    ensures var pair := KeygenOf(o, p, d);
            var c := EncryptOf(o, p, pair.public, m, coins);
            c.Some? &&
            DecryptedPoly(p, pair.secret, c.value) == PolyAdd(MessagePoly(m), NoiseOfExchange(o, p, d, m, coins))
  {
    hide NttVec, InttVec, VecAdd, MatVec, MatrixOf, Transpose, Dot, InttOf, PolyAdd, PolySub, NoiseVec, NoisePoly, MessagePoly;
    hide SeedsOf, Rho, Sigma, TotalNoise, Rounding, RoundingVec, EncodeVec, EncodeOf, DecodeVec, DecodeOf, CompressVec;
    hide CompressPoly, DecompressVec, DecompressPoly, CompressedVec, Compressed, IsMatrix;
    SupportedMeans(p);
    KeygenDecodes(o, p, d);
    var seeds := SeedsOf(o, p, d);
    var rho := Rho(seeds);
    var s := NoiseVec(o, p.eta1, Sigma(seeds), 0, p.k);
    var e := NoiseVec(o, p.eta1, Sigma(seeds), p.k, p.k);
    var r := NoiseVec(o, p.eta1, coins, 0, p.k);
    var e1 := NoiseVec(o, p.eta2, coins, p.k, p.k);
    var e2 := NoisePoly(o, p.eta2, coins, 2 * p.k);
    var a := MatrixOf(o, rho, p.k, false);
    MatrixTransposes(o, rho, p.k);
    var t := VecAdd(MatVec(a, NttVec(s)), NttVec(e));
    var u, v := VectorU(o, p, rho, coins), PolyV(o, p, t, m, coins);
    CipherDecodes(p, u, v);
    DecryptionAlgebra(a, s, e, r, e1, e2, MessagePoly(m), RoundingVec(p.du, u), Rounding(p.dv, v));
  }

  /** Every coefficient of the noise stays within what its message bit tolerates. */
  predicate NoiseTolerated(bits: Poly, noise: Poly) {
    forall i :: 0 <= i < 256 ==> Tolerates(bits[i], noise[i])
  }

  lemma BitsAreSmall(m: Bytes32)
    ensures forall i :: 0 <= i < 256 ==> DecodeOf(1, m)[i] < 2
  {
    hide DecodeOf, Pow2;
    Pow2Values();
    DecodedDigits(1, m);
  }

  lemma RoundedBits(m: Bytes32, noise: Poly)
    ensures CompressPoly(1, PolyAdd(MessagePoly(m), noise)) == DecodeOf(1, m) <==> NoiseTolerated(DecodeOf(1, m), noise)
  {
    hide DecodeOf, Compress, Decompress, Mod, Tolerates, Pow2;
    var bits := DecodeOf(1, m);
    var x := CompressPoly(1, PolyAdd(MessagePoly(m), noise));
    BitsAreSmall(m);
    forall i | 0 <= i < 256
      ensures x[i] == bits[i] <==> Tolerates(bits[i], noise[i])
    {
      MessageBit(bits[i], noise[i]);
    }
    if NoiseTolerated(bits, noise) {
      assert x == bits;
    } else {
      var i :| 0 <= i < 256 && !Tolerates(bits[i], noise[i]);
      assert x[i] != bits[i];
    }
  }

  lemma EncodedBits(x: Poly, m: Bytes32)
    requires Compressed(1, x)
    ensures EncodeOf(1, x) == m <==> x == DecodeOf(1, m)
  {
    hide EncodeOf, DecodeOf, Compressed, Pow2;
    CompressedIsDigits(1, x);
    DecodeOfEncode(1, x);
    EncodeOfDecode(1, m);
  }

  /** Decryption recovers the message exactly when no coefficient of the noise leaves its bit's range. */
  lemma DecryptRecovers(o: Oracles, p: Params, d: Bytes32, m: Bytes32, coins: Bytes32)
    requires p.Supported()
    ensures var pair := KeygenOf(o, p, d);
            var c := EncryptOf(o, p, pair.public, m, coins);
            c.Some? &&
            (DecryptOf(p, pair.secret, c.value) == m <==>
             NoiseTolerated(DecodeOf(1, m), NoiseOfExchange(o, p, d, m, coins)))
  {
    hide KeygenOf, EncryptOf, DecryptedPoly, NoiseOfExchange, MessagePoly, PolyAdd, EncodeOf, DecodeOf, CompressPoly;
    hide NoiseTolerated, Compressed;
    DecryptedIsNoisy(o, p, d, m, coins);
    var noise := NoiseOfExchange(o, p, d, m, coins);
    RoundedBits(m, noise);
    CompressedSmall(1, PolyAdd(MessagePoly(m), noise));
    EncodedBits(CompressPoly(1, PolyAdd(MessagePoly(m), noise)), m);
  }

  /** Noise of centred absolute value at most 831 always decrypts. */
  lemma SmallNoiseDecrypts(o: Oracles, p: Params, d: Bytes32, m: Bytes32, coins: Bytes32)
    requires p.Supported()
    requires var noise := NoiseOfExchange(o, p, d, m, coins);
             forall i :: 0 <= i < 256 ==> -831 <= Centered(noise[i]) <= 831
    ensures var pair := KeygenOf(o, p, d);
            var c := EncryptOf(o, p, pair.public, m, coins);
            c.Some? && DecryptOf(p, pair.secret, c.value) == m
  {
    hide KeygenOf, EncryptOf, DecryptOf, NoiseOfExchange, DecodeOf, Centered;
    DecryptRecovers(o, p, d, m, coins);
    BitsAreSmall(m);
  }
}
