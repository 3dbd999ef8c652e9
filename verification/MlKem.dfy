/** The key encapsulation mechanism ML-KEM on top of K-PKE. */
module MlKem {
  import opened Common
  import opened Integers
  import opened Packing
  import opened Subtle
  import opened VecPacking
  import opened KPke
  import opened KPkeMeaning
  import opened KPkeCode

  function KemSecretLen(p: Params): nat {
    SecretLen(p) + PublicLen(p) + 64
  }

  /** The four parts of a decapsulation key. */
  function SecretPart(p: Params, secret: Bytes): (part: Bytes)
    requires |secret| == KemSecretLen(p)
    ensures |part| == SecretLen(p)
  {
    secret[..SecretLen(p)]
  }

  function PublicPart(p: Params, secret: Bytes): (part: Bytes)
    requires |secret| == KemSecretLen(p)
    ensures |part| == PublicLen(p)
  {
    secret[SecretLen(p)..SecretLen(p) + PublicLen(p)]
  }

  function HashPart(p: Params, secret: Bytes): Bytes32
    requires |secret| == KemSecretLen(p)
  {
    secret[SecretLen(p) + PublicLen(p)..SecretLen(p) + PublicLen(p) + 32]
  }

  function RejectPart(p: Params, secret: Bytes): Bytes32
    requires |secret| == KemSecretLen(p)
  {
    secret[SecretLen(p) + PublicLen(p) + 32..]
  }

  // ----- the mechanism --------------------------------------------------------------------------------

  function KemKeygenOf(o: Oracles, p: Params, d: Bytes32, z: Bytes32): (pair: KeyPair)
    requires p.Supported()
    ensures |pair.public| == PublicLen(p) && |pair.secret| == KemSecretLen(p)
  {
    var pke := KeygenOf(o, p, d);
    KeyPair(pke.public, pke.secret + pke.public + o.h(pke.public) + z)
  }

  datatype Encapsulation = Encapsulation(cipher: Bytes, shared: Bytes32)

  function EncapsulateOf(o: Oracles, p: Params, m: Bytes32, public: Bytes): (r: Option<Encapsulation>)
    requires p.Supported() && |public| == PublicLen(p)
    ensures r.Some? ==> |r.value.cipher| == CipherLen(p)
  {
    var keys := o.g(m + o.h(public));
    var c := EncryptOf(o, p, public, m, keys[32..]);
    if c.None? then None else Some(Encapsulation(c.value, keys[..32]))
  }

  /** The ciphertext that decapsulation compares with: all zeros if its embedded public key is malformed. */
  function Reencrypted(o: Oracles, p: Params, secret: Bytes, m: Bytes32, coins: Bytes32): Bytes
    requires p.Supported() && |secret| == KemSecretLen(p)
  {
    var c := EncryptOf(o, p, PublicPart(p, secret), m, coins);
    if c.None? then seq(CipherLen(p), _ => 0) else c.value
  }

  /** The secret and the coins that decapsulation derives from the decrypted message. */
  function DerivedKeys(o: Oracles, p: Params, secret: Bytes, c: Bytes): Bytes64
    requires p.Supported() && |secret| == KemSecretLen(p) && |c| == CipherLen(p)
  {
    o.g(DecryptOf(p, SecretPart(p, secret), c) + HashPart(p, secret))
  }

  /** Whether re-encrypting the decrypted message under the embedded key gives the ciphertext back. */
  predicate Accepts(o: Oracles, p: Params, secret: Bytes, c: Bytes)
    requires p.Supported() && |secret| == KemSecretLen(p) && |c| == CipherLen(p)
  {
    Reencrypted(o, p, secret, DecryptOf(p, SecretPart(p, secret), c), DerivedKeys(o, p, secret, c)[32..]) == c
  }

  /** On a mismatch the source hands out the stored rejection seed itself. */
  function DecapsulateOf(o: Oracles, p: Params, secret: Bytes, c: Bytes): Bytes32
    requires p.Supported() && |secret| == KemSecretLen(p) && |c| == CipherLen(p)
  {
    if Accepts(o, p, secret, c) then DerivedKeys(o, p, secret, c)[..32] else RejectPart(p, secret)
  }

  // ----- decapsulation and algorithm 18 -----------------------------------------------------------------

  /** What algorithm 18 compares the ciphertext with. */
  function FipsReencrypted(o: Oracles, p: Params, secret: Bytes, c: Bytes): Bytes
    requires p.Supported() && |secret| == KemSecretLen(p) && |c| == CipherLen(p)
  {
    Algorithm14(o, p, PublicPart(p, secret), DecryptOf(p, SecretPart(p, secret), c), DerivedKeys(o, p, secret, c)[32..])
  }

  /** Algorithm 18 of FIPS 203: on a mismatch, the hash of rejection seed and ciphertext. */
  function FipsDecapsulateOf(o: Oracles, p: Params, secret: Bytes, c: Bytes): Bytes32
    requires p.Supported() && |secret| == KemSecretLen(p) && |c| == CipherLen(p)
  {
    if FipsReencrypted(o, p, secret, c) == c then DerivedKeys(o, p, secret, c)[..32] else o.j(RejectPart(p, secret) + c)
  }

  ghost predicate WellFormedSecret(p: Params, secret: Bytes)
    requires |secret| == KemSecretLen(p)
  {
    WellFormed(p, PublicPart(p, secret))
  }

  /** Under a well-formed embedded key both accept the same ciphertexts; otherwise the source compares with zeros. */
  lemma AcceptsExactly(o: Oracles, p: Params, secret: Bytes, c: Bytes)
    requires p.Supported() && |secret| == KemSecretLen(p) && |c| == CipherLen(p)
    ensures Accepts(o, p, secret, c) <==>
            c == if WellFormedSecret(p, secret) then FipsReencrypted(o, p, secret, c) else Filled(CipherLen(p), 0)
  {
    hide EncryptOf, DecryptOf, DerivedKeys, WellFormed, Algorithm14;
    EncryptAccepts(o, p, PublicPart(p, secret), DecryptOf(p, SecretPart(p, secret), c), DerivedKeys(o, p, secret, c)[32..]);
  }

  /** Under a well-formed key the source meets algorithm 18 on what it accepts, and else only if the seed is its own hash. */
  lemma MeetsFips(o: Oracles, p: Params, secret: Bytes, c: Bytes)
    requires p.Supported() && |secret| == KemSecretLen(p) && |c| == CipherLen(p) && WellFormedSecret(p, secret)
    ensures DecapsulateOf(o, p, secret, c) == FipsDecapsulateOf(o, p, secret, c) <==>
            Accepts(o, p, secret, c) || o.j(RejectPart(p, secret) + c) == RejectPart(p, secret)
  {
    hide FipsReencrypted, Accepts, DerivedKeys, WellFormedSecret;
    AcceptsExactly(o, p, secret, c);
  }

  /**
   * Under a malformed key the source hands out the derived secret for the zero ciphertext and the seed for all others;
   * whether algorithm 18 agrees depends on what re-encryption without the test gives.
   */
  lemma MeetsFipsMalformed(o: Oracles, p: Params, secret: Bytes, c: Bytes)
    requires p.Supported() && |secret| == KemSecretLen(p) && |c| == CipherLen(p) && !WellFormedSecret(p, secret)
    ensures
      var derived, seed := DerivedKeys(o, p, secret, c)[..32], RejectPart(p, secret);
      DecapsulateOf(o, p, secret, c) == if c == Filled(CipherLen(p), 0) then derived else seed
    ensures
      var derived, seed, hash := DerivedKeys(o, p, secret, c)[..32], RejectPart(p, secret), o.j(RejectPart(p, secret) + c);
      var zero, same := c == Filled(CipherLen(p), 0), FipsReencrypted(o, p, secret, c) == c;
      DecapsulateOf(o, p, secret, c) == FipsDecapsulateOf(o, p, secret, c) <==>
        (zero && same) || (zero && !same && derived == hash) || (!zero && same && seed == derived) ||
        (!zero && !same && seed == hash)
  {
    hide FipsReencrypted, Accepts, DerivedKeys, WellFormedSecret;
    AcceptsExactly(o, p, secret, c);
  }

  /** Generated keys are well formed. */
  lemma GeneratedIsWellFormed(o: Oracles, p: Params, d: Bytes32, z: Bytes32)
    requires p.Supported()
    ensures WellFormedSecret(p, KemKeygenOf(o, p, d, z).secret)
  {
    hide KeygenOf, EncryptOf, DecryptOf, NoiseOfExchange, NoiseTolerated, KemKeygenOf, PublicPart, WellFormed;
    SecretParts(o, p, d, z);
    DecryptRecovers(o, p, d, z, z);
    EncryptAccepts(o, p, KeygenOf(o, p, d).public, z, z);
  }

  /** Of the ciphertexts that decrypt to one message at most one is accepted. */
  lemma AcceptsOne(o: Oracles, p: Params, secret: Bytes, c: Bytes, c': Bytes)
    requires p.Supported() && |secret| == KemSecretLen(p) && |c| == |c'| == CipherLen(p) && c != c'
    requires DecryptOf(p, SecretPart(p, secret), c) == DecryptOf(p, SecretPart(p, secret), c')
    ensures !Accepts(o, p, secret, c) || !Accepts(o, p, secret, c')
    ensures !Accepts(o, p, secret, c) ==> DecapsulateOf(o, p, secret, c) == RejectPart(p, secret)
  {
    hide EncryptOf, DecryptOf;
  }

  function Filled(n: nat, b: byte): (s: Bytes)
    ensures |s| == n
  {
    seq(n, _ => b)
  }

  // ----- agreement -----------------------------------------------------------------------------------

  lemma SecretParts(o: Oracles, p: Params, d: Bytes32, z: Bytes32)
    requires p.Supported()
    ensures var pair, pke := KemKeygenOf(o, p, d, z), KeygenOf(o, p, d);
            SecretPart(p, pair.secret) == pke.secret && PublicPart(p, pair.secret) == pke.public == pair.public &&
            HashPart(p, pair.secret) == o.h(pke.public) && RejectPart(p, pair.secret) == z
  {
    hide KeygenOf;
  }

  /** Whenever decryption recovers the message, both sides hold the same secret. */
  lemma KemAgrees(o: Oracles, p: Params, d: Bytes32, z: Bytes32, m: Bytes32)
    requires p.Supported()
    requires var pair := KemKeygenOf(o, p, d, z);
             var e := EncapsulateOf(o, p, m, pair.public);
             e.Some? && DecryptOf(p, SecretPart(p, pair.secret), e.value.cipher) == m
    ensures var pair := KemKeygenOf(o, p, d, z);
            var e := EncapsulateOf(o, p, m, pair.public);
            DecapsulateOf(o, p, pair.secret, e.value.cipher) == e.value.shared
  {
    hide KeygenOf, EncryptOf, DecryptOf, KemKeygenOf, SecretPart, PublicPart, HashPart, RejectPart;
    SecretParts(o, p, d, z);
  }

  /** Encapsulation under a generated key succeeds, and tolerable noise makes both sides agree. */
  lemma KemAgreesUnderNoise(o: Oracles, p: Params, d: Bytes32, z: Bytes32, m: Bytes32)
    requires p.Supported()
    ensures var pair := KemKeygenOf(o, p, d, z);
            var e := EncapsulateOf(o, p, m, pair.public);
            var coins := o.g(m + o.h(pair.public))[32..];
            e.Some? &&
            (NoiseTolerated(DecodeOf(1, m), NoiseOfExchange(o, p, d, m, coins)) ==>
             DecapsulateOf(o, p, pair.secret, e.value.cipher) == e.value.shared)
  {
    hide KeygenOf, EncryptOf, DecryptOf, NoiseOfExchange, NoiseTolerated, DecodeOf, DecapsulateOf;
    hide KemKeygenOf, SecretPart, PublicPart, HashPart, RejectPart;
    SecretParts(o, p, d, z);
    var pair := KemKeygenOf(o, p, d, z);
    var coins := o.g(m + o.h(pair.public))[32..];
    DecryptRecovers(o, p, d, m, coins);
    if NoiseTolerated(DecodeOf(1, m), NoiseOfExchange(o, p, d, m, coins)) {
      KemAgrees(o, p, d, z, m);
    }
  }

  // ----- the mechanism by hash outputs ----------------------------------------------------------------------

  /** The layout of a decapsulation key: K-PKE secret, public key, its hash, and the rejection seed. */
  ghost predicate AreKemKeysOf(o: Oracles, p: Params, d: Bytes32, z: Bytes32, public: Bytes, secret: Bytes)
    requires p.Supported() && |public| == PublicLen(p) && |secret| == KemSecretLen(p)
  {
    && AreKeysOf(o, p, o.g(d + [p.k]), public, secret[..384 * p.k])
    && secret[384 * p.k..768 * p.k + 32] == public
    && secret[768 * p.k + 32..768 * p.k + 64] == o.h(public)
    && secret[768 * p.k + 64..] == z
  }

  lemma KemKeysFromSeed(o: Oracles, p: Params, d: Bytes32, z: Bytes32)
    requires p.Supported()
    ensures AreKemKeysOf(o, p, d, z, KemKeygenOf(o, p, d, z).public, KemKeygenOf(o, p, d, z).secret)
  {
    hide KeygenOf, AreKeysOf, KemKeygenOf;
    KeysFromSeed(o, p, d);
    SecretParts(o, p, d, z);
  }

  /** The secret is the first half of the hash of message and key hash; the second half are the coins. */
  ghost predicate IsEncapsulation(o: Oracles, p: Params, m: Bytes32, public: Bytes, cipher: Bytes, shared: Bytes)
    requires p.Supported() && |public| == PublicLen(p)
  {
    var g := o.g(m + o.h(public));
    shared == g[..32] && cipher == Algorithm14(o, p, public, m, g[32..])
  }

  lemma SharedFromMessage(o: Oracles, p: Params, m: Bytes32, public: Bytes)
    requires p.Supported() && |public| == PublicLen(p)
    ensures
      var e := EncapsulateOf(o, p, m, public);
      (e.Some? <==> WellFormed(p, public)) &&
      (e.Some? ==> IsEncapsulation(o, p, m, public, e.value.cipher, e.value.shared))
  {
    hide EncryptOf, Algorithm14, WellFormed;
    EncryptAccepts(o, p, public, m, o.g(m + o.h(public))[32..]);
  }

  /** What decapsulation compares and hands out, given the four parts of its key. */
  ghost function SharedOf(o: Oracles, p: Params, s: Bytes, public: Bytes, h: Bytes32, z: Bytes32, c: Bytes): Bytes32
    requires p.Supported() && |s| == SecretLen(p) && |public| == PublicLen(p) && |c| == CipherLen(p)
  {
    var m := DecryptOf(p, s, c);
    var g := o.g(m + h);
    if (if WellFormed(p, public) then Algorithm14(o, p, public, m, g[32..]) else Filled(|c|, 0)) == c then g[..32] else z
  }

  lemma DecapsulatesByHash(o: Oracles, p: Params, secret: Bytes, c: Bytes)
    requires p.Supported() && |secret| == KemSecretLen(p) && |c| == CipherLen(p)
    ensures DecapsulateOf(o, p, secret, c) ==
            SharedOf(o, p, secret[..384 * p.k], secret[384 * p.k..768 * p.k + 32], secret[768 * p.k + 32..768 * p.k + 64],
                     secret[768 * p.k + 64..], c)
  {
    hide EncryptOf, DecryptOf, Algorithm14, WellFormed, Accepts;
    AcceptsExactly(o, p, secret, c);
    assert PublicPart(p, secret) == secret[384 * p.k..768 * p.k + 32];
    assert HashPart(p, secret) == secret[768 * p.k + 32..768 * p.k + 64];
  }

  // ----- the code ---------------------------------------------------------------------------------------

  lemma ThreeParts(s: Bytes, a: nat, b: nat)
    requires a <= b <= |s|
    ensures s == s[..a] + s[a..b] + s[b..]
  {
  }

  method Keygen(o: Oracles, p: Params, d: Bytes32, z: Bytes32, public: array<byte>, secret: array<byte>)
    requires p.Supported() && public.Length == PublicLen(p) && secret.Length == KemSecretLen(p) && public != secret
    modifies public, secret
    ensures KeyPair(public[..], secret[..]) == KemKeygenOf(o, p, d, z)
    ensures AreKemKeysOf(o, p, d, z, public[..], secret[..])
  {
    hide KeygenOf, AreKemKeysOf;
    KemKeysFromSeed(o, p, d, z);
    var sl, pl := SecretLen(p), PublicLen(p);
    KPkeCode.Keygen(o, p, d, secret, sl, secret, 0);
    CopyBytes(public, 0, secret[sl..sl + pl]);
    assert public[..] == public[0..pl];
    ghost var pke := secret[..sl + pl];
    assert pke == secret[0..sl] + secret[sl..sl + pl];
    CopyBytes(secret, sl + pl + 32, z);
    assert secret[..sl + pl] == pke;
    var digest := o.h(public[..]);
    CopyBytes(secret, sl + pl, digest);
    assert secret[..sl + pl] == pke;
    ThreeParts(secret[..], sl + pl, sl + pl + 32);
  }

  method Encapsulate(o: Oracles, p: Params, m: array<byte>, public: array<byte>, cipher: array<byte>, shared: array<byte>)
    returns (ok: bool)
    requires p.Supported() && m.Length == 32 && public.Length == PublicLen(p)
    requires cipher.Length == CipherLen(p) && shared.Length == 32
    requires cipher != m && cipher != public && shared != cipher && shared != m && shared != public
    modifies cipher, shared
    ensures var e := EncapsulateOf(o, p, m[..], public[..]);
            ok == e.Some? && (ok ==> cipher[..] == e.value.cipher && shared[..] == e.value.shared) &&
            (!ok ==> cipher[..] == old(cipher[..]) && shared[..] == old(shared[..]))
    ensures ok <==> WellFormed(p, public[..])
    ensures ok ==> IsEncapsulation(o, p, m[..], public[..], cipher[..], shared[..])
  {
    hide EncryptOf, IsEncapsulation, WellFormed;
    SharedFromMessage(o, p, m[..], public[..]);
    assert m[0..32] == m[..] && public[0..PublicLen(p)] == public[..];
    var keys := o.g(m[..] + o.h(public[..]));
    ok := Encrypt(o, p, public, 0, m, 0, keys[32..], cipher);
    if ok {
      CopyBytes(shared, 0, keys[..32]);
      assert shared[..] == shared[0..32];
    }
  }

  method Decapsulate(o: Oracles, p: Params, secret: array<byte>, cipher: array<byte>, shared: array<byte>)
    requires p.Supported() && secret.Length == KemSecretLen(p) && cipher.Length == CipherLen(p) && shared.Length == 32
    requires shared != secret && shared != cipher
    modifies shared
    ensures shared[..] == DecapsulateOf(o, p, old(secret[..]), old(cipher[..]))
    ensures shared[..] ==
            SharedOf(o, p, old(secret[..384 * p.k]), old(secret[384 * p.k..768 * p.k + 32]),
                     old(secret[768 * p.k + 32..768 * p.k + 64]), old(secret[768 * p.k + 64..]), old(cipher[..]))
    ensures WellFormedSecret(p, old(secret[..])) && Accepts(o, p, old(secret[..]), old(cipher[..])) ==>
            shared[..] == FipsDecapsulateOf(o, p, old(secret[..]), old(cipher[..]))
    ensures !Accepts(o, p, old(secret[..]), old(cipher[..])) ==> shared[..] == RejectPart(p, old(secret[..]))
  {
    hide EncryptOf, DecryptOf, FipsReencrypted, WellFormedSecret, SharedOf;
    DecapsulatesByHash(o, p, secret[..], cipher[..]);
    var sl, pl := SecretLen(p), PublicLen(p);
    ghost var sk := secret[..];
    if WellFormedSecret(p, sk) {
      MeetsFips(o, p, sk, cipher[..]);
    }
    assert sk[..sl] == secret[0..sl] && sk[sl..sl + pl] == secret[sl..sl + pl];
    var m := new byte[32](_ => 0);
    Decrypt(p, secret, 0, cipher, m, 0);
    assert m[0..32] == m[..];
    var h := secret[sl + pl..sl + pl + 32];
    var z := secret[sl + pl + 32..];
    var keys := o.g(m[..] + h);
    var unused := o.j(z + cipher[..]);
    var again := new byte[CipherLen(p)](_ => 0);
    var _ := Encrypt(o, p, secret, sl, m, 0, keys[32..], again);
    assert again[..] == Reencrypted(o, p, sk, m[..], keys[32..]);
    assert cipher[0..CipherLen(p)] == cipher[..] && again[0..CipherLen(p)] == again[..];
    var cond := CtMemcmp(cipher, 0, again, 0, CipherLen(p));
    CtCondMemcpy(cond, shared, keys[..32], z);
  }
}
