/** Key generation, encryption and decryption of K-PKE on flat arrays. */
module KPkeCode {
  import opened Integers
  import opened Zq
  import opened Transform
  import opened PolyRing
  import opened Vectors
  import opened Compression
  import opened Packing
  import opened PolyVec
  import opened VecPacking
  import opened Subtle
  import opened KPke
  import opened KPkeMeaning

  // ----- sampling into arrays ---------------------------------------------------------------------

  /** Writes one sampled polynomial. */
  method StorePoly(dst: array<zq>, k: nat, i: nat, f: Poly)
    requires dst.Length == 256 * k && i < k
    modifies dst
    ensures Polys(dst[..], k) == old(Polys(dst[..], k))[i := f]
  {
    hide Polys;
    ghost var before := dst[..];
    Store(dst, 256 * i, f);
    assert dst[..] == Patch(before, 256 * i, f);
    PatchPolys(before, k, i, f);
  }

  method GenerateMatrix(o: Oracles, rho: Bytes32, k: nat, transpose: bool) returns (mat: array<zq>)
    requires k <= 4
    ensures fresh(mat) && mat.Length == 256 * (k * k)
    ensures forall i, j {:trigger Cell(i, j, k)} :: 0 <= i < k && 0 <= j < k ==>
              Cell(i, j, k) < k * k && Polys(mat[..], k * k)[Cell(i, j, k)] == MatrixEntryOf(o, rho, i, j, transpose)
  {
    hide Cell, Polys, MatrixEntryOf;
    mat := new zq[256 * (k * k)](_ => 0);
    forall i, j | 0 <= i < k && 0 <= j < k
      ensures Cell(i, j, k) < k * k
    {
      CellFits(i, k, j, k);
    }
    for i := 0 to k
      invariant forall i', j' {:trigger Cell(i', j', k)} :: 0 <= i' < i && 0 <= j' < k ==>
                  Cell(i', j', k) < k * k &&
                  Polys(mat[..], k * k)[Cell(i', j', k)] == MatrixEntryOf(o, rho, i', j', transpose)
    {
      for j := 0 to k
        invariant forall i', j' {:trigger Cell(i', j', k)} :: 0 <= i' < k && 0 <= j' < k && (i' < i || (i' == i && j' < j)) ==>
                    Cell(i', j', k) < k * k &&
                    Polys(mat[..], k * k)[Cell(i', j', k)] == MatrixEntryOf(o, rho, i', j', transpose)
      {
        StorePoly(mat, k * k, Cell(i, j, k), MatrixEntryOf(o, rho, i, j, transpose));
        forall i', j' | 0 <= i' < k && 0 <= j' < k
          ensures (i' == i && j' == j) || Cell(i', j', k) != Cell(i, j, k)
        {
          if Cell(i', j', k) == Cell(i, j, k) {
            CellDistinct(i, j, i', j', k);
          }
        }
      }
    }
  }

  method GenerateVector(o: Oracles, eta: nat, seed: Bytes32, nonce: nat, k: nat) returns (vec: array<zq>)
    ensures fresh(vec) && vec.Length == 256 * k && Polys(vec[..], k) == NoiseVec(o, eta, seed, nonce, k)
  {
    hide Polys, NoisePoly;
    vec := new zq[256 * k](_ => 0);
    ghost var was := Polys(vec[..], k);
    for i := 0 to k
      invariant Polys(vec[..], k) == NoiseVec(o, eta, seed, nonce, k)[..i] + was[i..]
    {
      StorePoly(vec, k, i, NoisePoly(o, eta, seed, nonce + i));
    }
  }

  // ----- products with a single column -------------------------------------------------------------

  lemma ZeroPolys(n: nat, s: seq<zq>)
    requires |s| == 256 * n && forall i :: 0 <= i < |s| ==> s[i] == 0
    ensures forall i :: 0 <= i < n ==> Polys(s, n)[i] == Zero()
  {
    forall i | 0 <= i < n
      ensures Polys(s, n)[i] == Zero()
    {
      assert PolyAt(s, i) == Zero();
    }
  }

  /** A sampled matrix times a vector, into a fresh vector. */
  method MatrixTimesVector(o: Oracles, rho: Bytes32, k: nat, transpose: bool, v: array<zq>) returns (c: array<zq>)
    requires k <= 4 && v.Length == 256 * k
    ensures fresh(c) && c.Length == 256 * k
    ensures Polys(c[..], k) == MatVec(MatrixOf(o, rho, k, transpose), Polys(v[..], k))
  {
    hide Polys, MatrixEntryOf, Dot, PolyAdd, RowOf, ColumnOf, Cell;
    var mat := GenerateMatrix(o, rho, k, transpose);
    c := new zq[256 * k](_ => 0);
    ZeroPolys(k, c[..]);
    ghost var zeros, m, x := Polys(c[..], k), Polys(mat[..], k * k), Polys(v[..], k);
    MatrixMultiply(mat, k, k, v, 1, c);
    forall i | 0 <= i < k
      ensures Polys(c[..], k)[i] == MatVec(MatrixOf(o, rho, k, transpose), x)[i]
    {
      CellOfColumn(i);
      SampledRow(o, rho, k, transpose, m, i);
      WholeColumn(x);
      AddZero(Dot(MatrixRow(o, rho, k, i, transpose), x));
    }
  }

  lemma CellOfColumn(i: nat)
    ensures Cell(i, 0, 1) == i
  {
  }

  lemma SampledRow(o: Oracles, rho: Bytes32, k: nat, transpose: bool, m: seq<Poly>, i: nat)
    requires k <= 4 && i < k && |m| == k * k
    requires forall i, j {:trigger Cell(i, j, k)} :: 0 <= i < k && 0 <= j < k ==>
               Cell(i, j, k) < k * k && m[Cell(i, j, k)] == MatrixEntryOf(o, rho, i, j, transpose)
    ensures RowOf(m, i, k, k) == MatrixRow(o, rho, k, i, transpose)
  {
    hide MatrixEntryOf, Cell;
    forall j | 0 <= j < k
      ensures RowOf(m, i, k, k)[j] == MatrixRow(o, rho, k, i, transpose)[j]
    {
      CellFits(i, k, j, k);
    }
  }

  lemma WholeColumn(x: seq<Poly>)
    ensures |x| * 1 == |x| && ColumnOf(x, 0, |x|, 1) == x
  {
  }

  /** The inner product of two vectors, into a fresh polynomial. */
  method InnerProduct(a: array<zq>, b: array<zq>, k: nat) returns (c: array<zq>)
    requires a.Length == b.Length == 256 * k
    ensures fresh(c) && c.Length == 256 && c[..] == Dot(Polys(a[..], k), Polys(b[..], k))
  {
    hide Polys, Dot, PolyAdd, RowOf, ColumnOf, Cell;
    c := new zq[256](_ => 0);
    ZeroPolys(1, c[..]);
    ghost var x, y := Polys(a[..], k), Polys(b[..], k);
    MatrixMultiply(a, 1, k, b, 1, c);
    CellOfColumn(0);
    WholeRow(x);
    WholeColumn(y);
    AddZero(Dot(x, y));
    SinglePoly(c[..]);
  }

  lemma WholeRow(x: seq<Poly>)
    ensures 1 * |x| == |x| && RowOf(x, 0, 1, |x|) == x
  {
  }

  lemma SinglePoly(s: seq<zq>)
    requires |s| == 256
    ensures Polys(s, 1) == [s]
  {
    assert s[0..256] == s;
  }

  // ----- the three algorithms ------------------------------------------------------------------------

  /** Everything outside the byte range is untouched. */
  twostate predicate BytesKept(a: array<byte>, ao: nat, n: nat)
    reads a
  {
    forall i :: 0 <= i < a.Length && !(ao <= i < ao + n) ==> a[i] == old(a[i])
  }

  method CopyBytes(dst: array<byte>, ao: nat, bytes: Bytes)
    requires ao + |bytes| <= dst.Length
    modifies dst
    ensures dst[ao..ao + |bytes|] == bytes && BytesKept(dst, ao, |bytes|)
  {
    Store(dst, ao, bytes);
  }

  method EncodeInto(l: nat, src: array<zq>, k: nat, dst: array<byte>, ao: nat)
    requires IsWidth(l) && src.Length == 256 * k && ao + 32 * l * k <= dst.Length
    modifies dst
    ensures dst[ao..ao + 32 * l * k] == EncodeVec(l, Polys(src[..], k)) && BytesKept(dst, ao, 32 * l * k)
  {
    hide EncodeVec, Polys, IsWidth;
    PolyVecEncode(l, src, k, dst, ao);
  }

  /** The two outputs may be parts of one array, as long as they do not overlap. */
  predicate Apart(x: array<byte>, xo: nat, xn: nat, y: array<byte>, yo: nat, yn: nat) {
    x != y || xo + xn <= yo || yo + yn <= xo
  }

  /** What is outside both byte ranges is untouched in the first array. */
  twostate predicate KeptOutsideBoth(x: array<byte>, xo: nat, xn: nat, y: array<byte>, yo: nat, yn: nat)
    reads x
  {
    forall i :: 0 <= i < x.Length && !(xo <= i < xo + xn) && (x == y ==> !(yo <= i < yo + yn)) ==> x[i] == old(x[i])
  }

  method Keygen(o: Oracles, p: Params, d: Bytes32, public: array<byte>, po: nat, secret: array<byte>, so: nat)
    requires p.Supported() && po + PublicLen(p) <= public.Length && so + SecretLen(p) <= secret.Length
    requires Apart(public, po, PublicLen(p), secret, so, SecretLen(p))
    modifies public, secret
    ensures public[po..po + PublicLen(p)] == KeygenOf(o, p, d).public
    ensures secret[so..so + SecretLen(p)] == KeygenOf(o, p, d).secret
    ensures AreKeysOf(o, p, o.g(d + [p.k]), public[po..po + PublicLen(p)], secret[so..so + SecretLen(p)])
    ensures KeptOutsideBoth(public, po, PublicLen(p), secret, so, SecretLen(p))
    ensures KeptOutsideBoth(secret, so, SecretLen(p), public, po, PublicLen(p))
  {
    hide Polys, NoiseVec, NttVec, MatVec, MatrixOf, VecAdd, EncodeVec, SeedsOf, AreKeysOf;
    KeysFromSeed(o, p, d);
    var k := p.k;
    var seeds := SeedsOf(o, p, d);
    var rho, sigma := Rho(seeds), Sigma(seeds);

    var s := GenerateVector(o, p.eta1, sigma, 0, k);
    var e := GenerateVector(o, p.eta1, sigma, k, k);
    PolyVecNtt(s, k);
    PolyVecNtt(e, k);

    var t := MatrixTimesVector(o, rho, k, false, s);
    PolyVecAddTo(e, t, k);

    EncodeInto(12, t, k, public, po);
    assert public[po..po + 384 * k] == EncodeVec(12, Polys(t[..], k));
    CopyBytes(public, po + 384 * k, rho);
    assert public[po..po + PublicLen(p)] == EncodeVec(12, Polys(t[..], k)) + rho;
    EncodeInto(12, s, k, secret, so);
    assert secret[so..so + SecretLen(p)] == EncodeVec(12, Polys(s[..], k));
  }

  // ----- single polynomials as vectors of length one ---------------------------------------------------

  method AddOne(src: array<zq>, dst: array<zq>)
    requires src.Length == dst.Length == 256 && src != dst
    modifies dst
    ensures dst[..] == PolyAdd(old(dst[..]), src[..])
  {
    hide Polys, PolyAdd;
    SinglePoly(src[..]);
    SinglePoly(dst[..]);
    PolyVecAddTo(src, dst, 1);
    SinglePoly(dst[..]);
    assert Polys(dst[..], 1)[0] == dst[..];
  }

  method SubOne(src: array<zq>, dst: array<zq>)
    requires src.Length == dst.Length == 256 && src != dst
    modifies dst
    ensures dst[..] == PolySub(old(dst[..]), src[..])
  {
    hide Polys, PolySub;
    SinglePoly(src[..]);
    SinglePoly(dst[..]);
    PolyVecSubFrom(src, dst, 1);
    SinglePoly(dst[..]);
    assert Polys(dst[..], 1)[0] == dst[..];
  }

  method InttOne(v: array<zq>)
    requires v.Length == 256
    modifies v
    ensures v[..] == InttOf(old(v[..]))
  {
    hide Polys, InttOf;
    SinglePoly(v[..]);
    PolyVecIntt(v, 1);
    SinglePoly(v[..]);
    assert Polys(v[..], 1)[0] == v[..];
  }

  method CompressOne(d: nat, v: array<zq>)
    requires IsScale(d) && v.Length == 256
    modifies v
    ensures v[..] == CompressPoly(d, old(v[..]))
  {
    hide Polys, CompressPoly;
    SinglePoly(v[..]);
    PolyVecCompress(d, v, 1);
    SinglePoly(v[..]);
    assert Polys(v[..], 1)[0] == v[..];
  }

  method DecompressOne(d: nat, v: array<zq>)
    requires IsScale(d) && v.Length == 256 && Compressed(d, v[..])
    modifies v
    ensures old(Compressed(d, v[..])) && v[..] == DecompressPoly(d, old(v[..]))
  {
    hide Polys, DecompressPoly, Compressed;
    SinglePoly(v[..]);
    PolyVecDecompress(d, v, 1);
    SinglePoly(v[..]);
    assert Polys(v[..], 1)[0] == v[..];
  }

  /** Decoding the message gives bits, and a set bit becomes (q + 1) / 2. */
  method DecodeMessage(m: array<byte>, mo: nat) returns (mu: array<zq>)
    requires mo + 32 <= m.Length
    ensures fresh(mu) && mu.Length == 256 && mu[..] == MessagePoly(m[mo..mo + 32])
  {
    hide DecodeOf, DecompressPoly, Compressed;
    mu := new zq[256](_ => 0);
    Decode(1, m, mo, mu, 0);
    assert mu[..] == DecodeOf(1, m[mo..mo + 32]);
    DecodedDigits(1, m[mo..mo + 32]);
    CompressedIsDigits(1, mu[..]);
    DecompressOne(1, mu);
  }

  /** Decodes the encoded vector and compares its re-encoding byte by byte. */
  method CheckedVector(public: array<byte>, po: nat, k: nat) returns (t: array<zq>, ok: bool)
    requires po + 384 * k <= public.Length
    ensures fresh(t) && t.Length == 256 * k
    ensures var encoded := public[po..po + 384 * k];
            Polys(t[..], k) == DecodeVec(12, k, encoded) && ok == (EncodeVec(12, DecodeVec(12, k, encoded)) == encoded)
  {
    hide Polys, EncodeVec, DecodeVec, IsWidth;
    SupportedMeans(Params(2, 3, 2, 10, 4));
    t := new zq[256 * k](_ => 0);
    var check := new byte[384 * k](_ => 0);
    PolyVecDecode(12, public, po, t, k);
    EncodeInto(12, t, k, check, 0);
    assert check[..] == check[0..384 * k];
    var areEqual := CtMemcmp(public, po, check, 0, 384 * k);
    ok := areEqual != 0;
  }

  method ComputeU(o: Oracles, p: Params, rho: Bytes32, coins: Bytes32, r: array<zq>) returns (u: array<zq>)
    requires p.Supported() && r.Length == 256 * p.k
    requires Polys(r[..], p.k) == NttVec(NoiseVec(o, p.eta1, coins, 0, p.k))
    ensures fresh(u) && u.Length == 256 * p.k && Polys(u[..], p.k) == VectorU(o, p, rho, coins)
  {
    hide Polys, NoiseVec, NttVec, InttVec, MatVec, MatrixOf, VecAdd;
    var e1 := GenerateVector(o, p.eta2, coins, p.k, p.k);
    u := MatrixTimesVector(o, rho, p.k, true, r);
    PolyVecIntt(u, p.k);
    PolyVecAddTo(e1, u, p.k);
  }

  method ComputeV(o: Oracles, p: Params, t: array<zq>, m: array<byte>, mo: nat, coins: Bytes32, r: array<zq>)
    returns (v: array<zq>)
    requires p.Supported() && t.Length == r.Length == 256 * p.k && mo + 32 <= m.Length
    requires Polys(r[..], p.k) == NttVec(NoiseVec(o, p.eta1, coins, 0, p.k))
    ensures fresh(v) && v.Length == 256 && v[..] == PolyV(o, p, Polys(t[..], p.k), m[mo..mo + 32], coins)
  {
    hide Polys, NoiseVec, NttVec, Dot, InttOf, NoisePoly, MessagePoly, PolyAdd;
    var e2 := GenerateVector(o, p.eta2, coins, 2 * p.k, 1);
    SinglePoly(e2[..]);
    SingleNoise(o, p.eta2, coins, 2 * p.k);
    assert [e2[..]][0] == NoisePoly(o, p.eta2, coins, 2 * p.k);
    v := InnerProduct(t, r, p.k);
    InttOne(v);
    AddOne(e2, v);
    var mu := DecodeMessage(m, mo);
    AddOne(mu, v);
  }

  lemma SingleNoise(o: Oracles, eta: nat, seed: Bytes32, nonce: nat)
    ensures NoiseVec(o, eta, seed, nonce, 1) == [NoisePoly(o, eta, seed, nonce)]
  {
  }

  /** Encrypts into the whole ciphertext array, which is left alone when the modulus check fails. */
  method Encrypt(o: Oracles, p: Params, public: array<byte>, po: nat, m: array<byte>, mo: nat, coins: Bytes32,
                 ctxt: array<byte>)
    returns (ok: bool)
    requires p.Supported() && po + PublicLen(p) <= public.Length && mo + 32 <= m.Length
    requires ctxt.Length == CipherLen(p) && ctxt != public && ctxt != m
    modifies ctxt
    ensures var c := EncryptOf(o, p, public[po..po + PublicLen(p)], m[mo..mo + 32], coins);
            ok == c.Some? && ctxt[..] == if ok then c.value else old(ctxt[..])
  {
    hide Polys, NoiseVec, NttVec, VectorU, PolyV, EncodeVec, EncodeOf, DecodeVec, CompressVec, CompressPoly, IsWidth;
    SupportedMeans(p);
    var k := p.k;
    ghost var pub := public[po..po + PublicLen(p)];
    assert pub[..384 * k] == public[po..po + 384 * k];
    var rho: Bytes32 := public[po + 384 * k..po + PublicLen(p)];
    assert pub[384 * k..] == rho;

    var t, valid := CheckedVector(public, po, k);
    if !valid {
      return false;
    }

    var r := GenerateVector(o, p.eta1, coins, 0, k);
    PolyVecNtt(r, k);
    var u := ComputeU(o, p, rho, coins, r);
    var v := ComputeV(o, p, t, m, mo, coins, r);
    PolyVecCompress(p.du, u, k);
    CompressOne(p.dv, v);
    EncodeCipher(p, u, v, ctxt);
    ok := true;
  }

  method EncodeCipher(p: Params, u: array<zq>, v: array<zq>, ctxt: array<byte>)
    requires p.Supported() && u.Length == 256 * p.k && v.Length == 256 && ctxt.Length == CipherLen(p)
    modifies ctxt
    ensures ctxt[..] == EncodeVec(p.du, Polys(u[..], p.k)) + EncodeOf(p.dv, v[..])
  {
    hide Polys, EncodeVec, EncodeOf, IsWidth;
    SupportedMeans(p);
    var split := 32 * p.du * p.k;
    PolyVecEncode(p.du, u, p.k, ctxt, 0);
    ghost var first := EncodeVec(p.du, Polys(u[..], p.k));
    assert ctxt[..split] == first;
    Encode(p.dv, v, 0, ctxt, split);
    assert v[0..256] == v[..];
  }

  /** The two parts of a ciphertext, decoded and decompressed. */
  method SplitCipher(p: Params, ctxt: array<byte>) returns (u: array<zq>, v: array<zq>)
    requires p.Supported() && ctxt.Length == CipherLen(p)
    ensures fresh(u) && u.Length == 256 * p.k && fresh(v) && v.Length == 256 && u != v && IsWidth(p.du) && IsWidth(p.dv)
    ensures
      var c, split := ctxt[..], 32 * p.du * p.k;
      && CompressedVec(p.du, DecodeVec(p.du, p.k, c[..split])) && Compressed(p.dv, DecodeOf(p.dv, c[split..]))
      && Polys(u[..], p.k) == DecompressVec(p.du, DecodeVec(p.du, p.k, c[..split]))
      && v[..] == DecompressPoly(p.dv, DecodeOf(p.dv, c[split..]))
  {
    hide Polys, DecodeVec, DecodeOf, DecompressVec, DecompressPoly, CompressedVec, Compressed, IsWidth;
    SupportedMeans(p);
    var k, split := p.k, 32 * p.du * p.k;
    ghost var c := ctxt[..];
    u := new zq[256 * k](_ => 0);
    v := new zq[256](_ => 0);
    PolyVecDecode(p.du, ctxt, 0, u, k);
    assert ctxt[0..split] == c[..split];
    DecodedVecSmall(p.du, k, c[..split]);
    PolyVecDecompress(p.du, u, k);
    Decode(p.dv, ctxt, split, v, 0);
    assert ctxt[split..split + 32 * p.dv] == c[split..];
    assert v[..] == DecodeOf(p.dv, c[split..]);
    DecodedDigits(p.dv, c[split..]);
    CompressedIsDigits(p.dv, v[..]);
    DecompressOne(p.dv, v);
  }

  method Decrypt(p: Params, secret: array<byte>, so: nat, ctxt: array<byte>, m: array<byte>, mo: nat)
    requires p.Supported() && so + SecretLen(p) <= secret.Length && ctxt.Length == CipherLen(p) && mo + 32 <= m.Length
    requires m != secret && m != ctxt
    modifies m
    ensures m[mo..mo + 32] == DecryptOf(p, secret[so..so + SecretLen(p)], ctxt[..])
    ensures BytesKept(m, mo, 32)
  {
    hide Polys, DecodeVec, DecodeOf, DecompressVec, DecompressPoly, NttVec, Dot, InttOf, PolySub, CompressPoly, EncodeOf;
    hide CompressedVec, Compressed, IsWidth;
    SupportedMeans(p);
    var k := p.k;
    ghost var c := ctxt[..];
    var u, v := SplitCipher(p, ctxt);
    var s := new zq[256 * k](_ => 0);
    PolyVecDecode(12, secret, so, s, k);
    PolyVecNtt(u, k);

    var t := InnerProduct(s, u, k);
    InttOne(t);
    SubOne(t, v);
    assert v[..] == DecryptedPoly(p, secret[so..so + SecretLen(p)], c);
    CompressOne(1, v);
    Encode(1, v, 0, m, mo);
    assert v[0..256] == v[..];
  }
}
