/** Inputs on which decapsulation departs from algorithm 18 of FIPS 203, for every parameter set. */
module Departures {
  import opened Integers
  import opened Bits
  import opened Radix
  import opened Zq
  import opened Transform
  import opened TransformInverse
  import opened TransformRing
  import opened PolyRing
  import opened Vectors
  import opened Compression
  import opened Packing
  import opened PolyVec
  import opened VecPacking
  import opened KPke
  import opened MlKem

  // ----- nothing in, nothing out ---------------------------------------------------------------------------------

  lemma NttOfZero()
    ensures NttOf(Zero()) == Zero()
  {
    hide NttOf, InttOf, Mod;
    AddZero(Zero());
    NttAdds(Zero(), Zero());
    Idempotent(NttOf(Zero()));
  }

  lemma InttOfZero()
    ensures InttOf(Zero()) == Zero()
  {
    hide NttOf, InttOf;
    NttOfZero();
    InttOfNtt(Zero());
  }

  lemma Idempotent(f: Poly)
    requires f == PolyAdd(f, f)
    ensures f == Zero()
  {
    forall i | 0 <= i < 256
      ensures f[i] == 0
    {
      assert f[i] == Mod(f[i] as int + f[i]);
    }
  }

  function Zeros(k: nat): (v: seq<Poly>)
    ensures |v| == k
  {
    seq(k, _ => Zero())
  }

  lemma {:induction false} DotZero(u: seq<Poly>)
    ensures Dot(u, Zeros(|u|)) == Zero()
  {
    hide PairMul, PolyAdd;
    if |u| > 0 {
      var n := |u| - 1;
      assert Zeros(|u|)[..n] == Zeros(n);
      DotZero(u[..n]);
      MulZero(u[n]);
      AddZero(Zero());
    }
  }

  // ----- the oracles of the witness --------------------------------------------------------------------------------

  /** The polynomial with every coefficient 2, which the centred binomial sampler can give. */
  function Twos(): Poly {
    seq(256, i requires 0 <= i < 256 => 2)
  }

  /** Noise only in the vector e1 of encryption, a derivation of zeros, and a rejection hash of ones. */
  function Plain(o: Oracles, p: Params): Oracles {
    o.(g := (_: Bytes) => Filled(64, 0), j := (_: Bytes) => Filled(32, 1),
       noise := (eta: nat, seed: Bytes32, nonce: byte) => PlainSample(p, nonce))
  }

  function PlainSample(p: Params, nonce: nat): Poly {
    if p.k <= nonce < 2 * p.k then Twos() else Zero()
  }

  lemma PlainNoise(o: Oracles, p: Params, seed: Bytes32)
    requires p.Supported()
    ensures NoiseVec(Plain(o, p), p.eta1, seed, 0, p.k) == Zeros(p.k)
    ensures NoiseVec(Plain(o, p), p.eta2, seed, p.k, p.k) == seq(p.k, _ => Twos())
  {
    hide Twos, Zero;
    var oracles := Plain(o, p);
    forall i | 0 <= i < p.k
      ensures NoiseVec(oracles, p.eta1, seed, 0, p.k)[i] == Zero()
      ensures NoiseVec(oracles, p.eta2, seed, p.k, p.k)[i] == Twos()
    {
      assert NoiseVec(oracles, p.eta2, seed, p.k, p.k)[i] == NoisePoly(oracles, p.eta2, seed, p.k + i);
      assert oracles.noise(p.eta1, seed, i) == PlainSample(p, i);
      assert oracles.noise(p.eta2, seed, p.k + i) == PlainSample(p, p.k + i);
    }
  }

  lemma PlainU(o: Oracles, p: Params, rho: Bytes32, coins: Bytes32)
    requires p.Supported()
    ensures VectorU(Plain(o, p), p, rho, coins)[0] == Twos()
  {
    hide NttOf, InttOf, Dot, Zero, Twos, PolyAdd, MatrixRow, NoiseVec, Plain;
    var oracles := Plain(o, p);
    PlainNoise(o, p, coins);
    NttOfZero();
    InttOfZero();
    var r := NttVec(Zeros(p.k));
    assert r == Zeros(p.k);
    var a := MatrixOf(oracles, rho, p.k, true);
    DotZero(a[0]);
    AddZero(Twos());
  }

  lemma TwosCompress(d: nat)
    requires d == 10 || d == 11
    ensures IsScale(d) && CompressPoly(d, Twos())[0] == 1
  {
    hide Compress, Pow2;
    Pow2Values();
  }

  /** What is re-encrypted under these oracles is never the zero ciphertext. */
  lemma NeverZero(o: Oracles, p: Params, public: Bytes, m: Bytes32, coins: Bytes32)
    requires p.Supported() && |public| == PublicLen(p)
    ensures Algorithm14(Plain(o, p), p, public, m, coins) != Filled(CipherLen(p), 0)
  {
    hide VectorU, PolyV, EncodeVec, EncodeOf, CompressPoly, Twos, Plain;
    SupportedMeans(p);
    var rho := public[384 * p.k..];
    var u := VectorU(Plain(o, p), p, rho, coins);
    PlainU(o, p, rho, coins);
    TwosCompress(p.du);
    var v := CompressVec(p.du, u);
    assert v[0] == CompressPoly(p.du, Twos());
    FirstByteOdd(p.du, v);
    assert Algorithm14(Plain(o, p), p, public, m, coins)[0] == EncodeVec(p.du, v)[0];
  }

  lemma FirstByteOdd(l: nat, v: seq<Poly>)
    requires (l == 10 || l == 11) && |v| > 0 && v[0][0] == 1
    ensures |EncodeVec(l, v)| > 0 && EncodeVec(l, v)[0] != 0
  {
    hide EncodeVec, EncodeOf;
    SliceOfEncode(l, v, 0);
    SliceFits(l, |v|, 0);
    EncodeIsBitSerial(l, v[0], 0);
    assert EncodeVec(l, v)[0] == EncodeOf(l, v[0])[0];
  }

  // ----- keys of equal bytes ----------------------------------------------------------------------------------------

  lemma FilledEntry(p: Params, b: byte, i: nat)
    requires p.Supported() && i < p.k
    ensures Slice(12, p.k, PublicPart(p, Filled(KemSecretLen(p), b))[..384 * p.k], i) == Filled(384, b)
  {
    var s := PublicPart(p, Filled(KemSecretLen(p), b))[..384 * p.k];
    SliceFits(12, p.k, i);
    assert s == Filled(384 * p.k, b);
    assert s[384 * i..384 * i + 384] == Filled(384, b);
  }

  lemma FilledIsNotCanonical()
    ensures !Canonical(Filled(384, 255))
  {
    hide Words;
    FirstWord(Filled(384, 255));
  }

  lemma {:induction false} ZeroValue(n: nat)
    ensures LeValue(256, Filled(n, 0)) == 0
  {
    if n > 0 {
      assert Filled(n, 0)[1..] == Filled(n - 1, 0);
      ZeroValue(n - 1);
    }
  }

  lemma {:induction false} ZeroDigits(n: nat)
    ensures forall i :: 0 <= i < n ==> Digits(4096, n, 0)[i] == 0
  {
    if n > 0 {
      ZeroDigits(n - 1);
    }
  }

  lemma ZeroIsCanonical()
    ensures Canonical(Filled(384, 0))
  {
    hide Digits, LeValue, Pow2;
    Pow2Values();
    ZeroValue(384);
    ZeroDigits(256);
  }

  lemma FilledParts(p: Params, b: byte)
    requires p.Supported()
    ensures RejectPart(p, Filled(KemSecretLen(p), b)) == Filled(32, b)
    ensures b == 0 ==> WellFormedSecret(p, Filled(KemSecretLen(p), b))
    ensures b == 255 ==> !WellFormedSecret(p, Filled(KemSecretLen(p), b))
  {
    hide Canonical, Slice, PublicPart;
    forall i | 0 <= i < p.k
      ensures Slice(12, p.k, PublicPart(p, Filled(KemSecretLen(p), b))[..384 * p.k], i) == Filled(384, b)
    {
      FilledEntry(p, b, i);
    }
    ZeroIsCanonical();
    FilledIsNotCanonical();
    assert Slice(12, p.k, PublicPart(p, Filled(KemSecretLen(p), b))[..384 * p.k], 0) == Filled(384, b);
  }

  // ----- the witnesses ------------------------------------------------------------------------------------------------

  /** A well-formed key of zeros: the zero ciphertext is rejected, and the stored seed leaves in place of the hash. */
  lemma SeedForHash(o: Oracles, p: Params)
    requires p.Supported()
    ensures
      var oracles, secret, c := Plain(o, p), Filled(KemSecretLen(p), 0), Filled(CipherLen(p), 0);
      && WellFormedSecret(p, secret)
      && DecapsulateOf(oracles, p, secret, c) == Filled(32, 0)
      && FipsDecapsulateOf(oracles, p, secret, c) == Filled(32, 1)
  {
    hide Algorithm14, WellFormedSecret, Accepts, DerivedKeys, RejectPart, PublicPart, SecretPart, DecryptOf;
    var oracles, secret, c := Plain(o, p), Filled(KemSecretLen(p), 0), Filled(CipherLen(p), 0);
    FilledParts(p, 0);
    NeverZero(o, p, PublicPart(p, secret), DecryptOf(p, SecretPart(p, secret), c), DerivedKeys(oracles, p, secret, c)[32..]);
    AcceptsExactly(oracles, p, secret, c);
  }

  /** A malformed key: the modulus test inside re-encryption fails, and the zero ciphertext gets the derived secret. */
  lemma SecretForHash(o: Oracles, p: Params)
    requires p.Supported()
    ensures
      var oracles, secret, c := Plain(o, p), Filled(KemSecretLen(p), 255), Filled(CipherLen(p), 0);
      && !WellFormedSecret(p, secret) && Accepts(oracles, p, secret, c)
      && DecapsulateOf(oracles, p, secret, c) == DerivedKeys(oracles, p, secret, c)[..32] == Filled(32, 0)
      && FipsDecapsulateOf(oracles, p, secret, c) == Filled(32, 1)
  {
    hide Algorithm14, WellFormedSecret, Accepts, RejectPart, PublicPart, SecretPart, DecryptOf;
    var oracles, secret, c := Plain(o, p), Filled(KemSecretLen(p), 255), Filled(CipherLen(p), 0);
    FilledParts(p, 255);
    NeverZero(o, p, PublicPart(p, secret), DecryptOf(p, SecretPart(p, secret), c), DerivedKeys(oracles, p, secret, c)[32..]);
    AcceptsExactly(oracles, p, secret, c);
    assert DerivedKeys(oracles, p, secret, c) == Filled(64, 0);
  }
}
