/** The samplers of the scheme run on sponge objects: matrix entries from SHAKE128, noise from SHAKE256. */
module InstanceCode {
  import opened Integers
  import opened Octets
  import opened Keccak
  import opened Sponge
  import opened Xof
  import opened Zq
  import opened Transform
  import opened PolyVec
  import opened Instance
  import Sampling
  import Cbd
  import KPke
  import KPkeCode

  // ----- one object, read piece by piece ----------------------------------------------------------------------------

  /** A sponge that has taken in a message and awaits reading. */
  ghost function Fed(kind: Kind, m: Bytes): (x: Status)
    requires kind.Sound()
    ensures Ready(kind, x) && x.finalized
  {
    AfterFinalize(kind, AfterAbsorb(kind, Start(), OctetsOf(m)))
  }

  /** The same after n bytes were read. */
  ghost function ReadFor(kind: Kind, m: Bytes, n: nat): (x: Status)
    requires kind.Sound()
    ensures Ready(kind, x) && x.finalized
  {
    AfterSqueeze(kind, Fed(kind, m), n)
  }

  lemma NothingRead(kind: Kind, m: Bytes)
    requires kind.Sound()
    ensures ReadFor(kind, m, 0) == Fed(kind, m)
  {
    hide Fed;
  }

  lemma OutputIsDraw(kind: Kind, m: Bytes, n: nat)
    requires kind.Sound()
    ensures Instance.Output(kind, m, n) == Draw(kind.F(), kind.R(), Fed(kind, m).cursor, 8 * n)
  {
    hide Draw, OneShot, BitsOf, Sponge.Absorb, AfterFinalize;
    FinalIsOneShot(kind, OctetsOf(m), AfterAbsorb(kind, Start(), OctetsOf(m)), n);
  }

  /** Reading k more bytes continues the hash of the message. */
  lemma ReadOn(kind: Kind, m: Bytes, n: nat, k: nat, out: seq<Byte>)
    requires kind.Sound() && |out| == k && BitsOf(out) == SqueezeOutput(kind, ReadFor(kind, m, n), k)
    ensures AfterSqueeze(kind, ReadFor(kind, m, n), k) == ReadFor(kind, m, n + k)
    ensures Values(out) == Hash(kind, m, n + k)[n..]
  {
    hide Draw, Drawn, BitsOf, Instance.Output, BytesOf, ByteValue, Fed;
    var c := Fed(kind, m).cursor;
    OutputIsDraw(kind, m, n + k);
    var all := Instance.Output(kind, m, n + k);
    DrawAppend(kind.F(), kind.R(), c, 8 * n, 8 * k);
    assert 8 * n + 8 * k == 8 * (n + k);
    assert all[8 * n..] == BitsOf(out);
    ByteCount(all, n + k);
    BitsOfBack(BytesOf(all), n);
    BitsOfInjective(out, BytesOf(all)[n..]);
  }

  lemma BitsOfBack(b: seq<Byte>, n: nat)
    requires n <= |b|
    ensures BitsOf(b[n..]) == BitsOf(b)[8 * n..]
  {
    forall i | 0 <= i < 8 * (|b| - n)
      ensures BitsOf(b[n..])[i] == BitsOf(b)[8 * n..][i]
    {
      assert (8 * n + i) / 8 == n + i / 8 && (8 * n + i) % 8 == i % 8;
    }
  }

  /** An object that has absorbed the message and is ready to be read. */
  method Feed(kind: Kind, m: Bytes) returns (hasher: Hasher)
    requires kind.Sound()
    ensures fresh(hasher) && fresh(hasher.state) && hasher.Valid() && hasher.kind == kind
    ensures hasher.View() == ReadFor(kind, m, 0)
  {
    hide AfterAbsorb, AfterFinalize, ReadFor;
    NothingRead(kind, m);
    hasher := new Hasher(kind);
    hasher.Absorb(OctetsOf(m));
    hasher.Finalize();
  }

  /** Fills the buffer with the next bytes of the hash. */
  method ReadBytes(hasher: Hasher, buffer: array<Byte>, ghost m: Bytes, ghost n: nat) returns (bytes: Bytes)
    requires hasher.Valid() && hasher.View() == ReadFor(hasher.kind, m, n)
    modifies hasher, hasher.state, buffer
    ensures hasher.Valid() && hasher.View() == ReadFor(hasher.kind, m, n + buffer.Length)
    ensures bytes == Hash(hasher.kind, m, n + buffer.Length)[n..]
  {
    hide ReadFor, AfterSqueeze, BitsOf, SqueezeOutput, Hash, Values;
    hasher.Squeeze(buffer);
    ReadOn(hasher.kind, m, n, buffer.Length, buffer[..]);
    bytes := Values(buffer[..]);
  }

  /** A digest of n bytes: G, H and J of the scheme are SHA3-512, SHA3-256 and SHAKE256 with 64, 32 and 32 bytes. */
  method Digest(kind: Kind, m: Bytes, n: nat) returns (bytes: Bytes)
    requires kind.Sound()
    ensures bytes == Hash(kind, m, n)
  {
    hide Hash, ReadFor;
    var hasher := Feed(kind, m);
    var buffer := new Byte[n](_ => ZeroByte());
    bytes := ReadBytes(hasher, buffer, m, 0);
  }

  // ----- noise -----------------------------------------------------------------------------------------------------

  /** One polynomial of generate_vector: SHAKE256 of seed and nonce, then the binomial sampler. */
  method SampleNoise(table: seq<Lane>, eta: nat, seed: KPke.Bytes32, nonce: byte) returns (poly: array<zq>)
    requires |table| == 24 && (eta == 2 || eta == 3)
    ensures fresh(poly) && poly.Length == 256 && poly[..] == Standard(table).noise(eta, seed, nonce)
  {
    hide Hash, ReadFor, Cbd.CbdOf, Uniform, Shake;
    var kind := Shake(256, table);
    var hasher := Feed(kind, seed + [nonce]);
    var buffer := new Byte[64 * eta](_ => ZeroByte());
    var bytes := ReadBytes(hasher, buffer, seed + [nonce], 0);
    var prf := new bv8[64 * eta](i requires 0 <= i < |bytes| => bytes[i] as bv8);
    assert prf[..] == ToBits(bytes);
    poly := new zq[256](_ => 0);
    Cbd.SamplePolyCbd(eta, prf, poly);
    assert poly[..] == Noise(table, eta, seed, nonce);
  }

  lemma NoiseEntry(o: KPke.Oracles, eta: nat, seed: KPke.Bytes32, nonce: nat, k: nat, i: nat)
    requires i < k
    ensures KPke.NoiseVec(o, eta, seed, nonce, k)[i] == o.noise(eta, seed, (nonce + i) % 256)
  {
    assert KPke.NoiseVec(o, eta, seed, nonce, k)[i] == KPke.NoisePoly(o, eta, seed, nonce + i);
  }

  method GenerateVector(table: seq<Lane>, eta: nat, seed: KPke.Bytes32, nonce: nat, k: nat) returns (vec: array<zq>)
    requires |table| == 24 && (eta == 2 || eta == 3)
    ensures fresh(vec) && vec.Length == 256 * k
    ensures Polys(vec[..], k) == KPke.NoiseVec(Standard(table), eta, seed, nonce, k)
  {
    hide Polys, Standard;
    vec := new zq[256 * k](_ => 0);
    ghost var was, noise := Polys(vec[..], k), KPke.NoiseVec(Standard(table), eta, seed, nonce, k);
    for i := 0 to k
      invariant Polys(vec[..], k) == noise[..i] + was[i..]
    {
      var poly := SampleNoise(table, eta, seed, (nonce + i) % 256);
      NoiseEntry(Standard(table), eta, seed, nonce, k, i);
      KPkeCode.StorePoly(vec, k, i, poly[..]);
    }
  }

  // ----- matrix entries --------------------------------------------------------------------------------------------

  /**
   * sample_ntt: block after block is squeezed until the polynomial is full. The number of blocks is bounded here; the
   * entry is the one of the scheme when they suffice, and they do not suffice otherwise.
   */
  method SampleEntry(table: seq<Lane>, rho: KPke.Bytes32, a: byte, b: byte, blocks: nat) returns (poly: array<zq>, count: nat)
    requires |table| == 24
    ensures fresh(poly) && poly.Length == 256 && count <= 256 && (count == 256 <==> Enough(table, rho, a, b, blocks))
    ensures count == 256 ==> poly[..] == Standard(table).uniform(rho, a, b)
  {
    hide Hash, ReadFor, Sampling.WordsOf, Sampling.Sampled, Standard, Shake;
    var m := rho + [a, b];
    var kind := Shake(128, table);
    var hasher := Feed(kind, m);
    var buffer := new Byte[168](_ => ZeroByte());
    poly := new zq[256](_ => 0);
    ghost var stream := MatrixStream(table, rho, a, b, blocks);
    count := 0;
    var n: nat := 0;
    Sampling.NothingSampled(stream);
    while count < 256 && n < blocks
      invariant n <= blocks && count <= 256 && hasher.Valid() && hasher.kind == kind
      invariant hasher.View() == ReadFor(kind, m, 168 * n)
      invariant fresh(hasher) && fresh(hasher.state) && fresh(buffer) && fresh(poly)
      invariant poly[..count] == Sampling.Sampled(Sampling.WordsOf(stream[..168 * n])) || count == 256
      invariant count == 256 ==> poly[..] == Sampling.Sampled(Sampling.WordsOf(stream))
      decreases blocks - n
    {
      var bytes := ReadBytes(hasher, buffer, m, 168 * n);
      BlockOfStream(table, rho, a, b, n, blocks);
      count := Sampling.SampleBlock(bytes, stream, 168 * n, poly, count);
      n := n + 1;
    }
    assert count < 256 ==> stream[..168 * n] == stream;
    assert poly[..256] == poly[..];
    if count == 256 {
      UniformSettles(table, rho, a, b, blocks);
    }
  }

  /** Block n of a long stream is what is read next after n blocks. */
  lemma BlockOfStream(table: seq<Lane>, rho: KPke.Bytes32, a: byte, b: byte, n: nat, blocks: nat)
    requires |table| == 24 && n < blocks
    ensures
      var next := Hash(Shake(128, table), rho + [a, b], 168 * n + 168);
      MatrixStream(table, rho, a, b, blocks)[168 * n..168 * n + 168] == next[168 * n..]
  {
    hide Hash;
    HashGrows(Shake(128, table), rho + [a, b], 168 * n + 168, 168 * blocks);
  }

  method GenerateMatrix(table: seq<Lane>, rho: KPke.Bytes32, k: nat, transpose: bool, blocks: nat)
    returns (mat: array<zq>, ok: bool)
    requires |table| == 24 && k <= 4
    ensures fresh(mat) && mat.Length == 256 * (k * k)
    ensures ok <==> forall i: byte, j: byte | i < k && j < k :: Enough(table, rho, i, j, blocks)
    ensures ok ==> forall i, j {:trigger Cell(i, j, k)} :: 0 <= i < k && 0 <= j < k ==>
              Cell(i, j, k) < k * k &&
              Polys(mat[..], k * k)[Cell(i, j, k)] == KPke.MatrixEntryOf(Standard(table), rho, i, j, transpose)
  {
    hide Cell, Polys, Standard, Enough;
    mat := new zq[256 * (k * k)](_ => 0);
    ok := true;
    forall i, j | 0 <= i < k && 0 <= j < k
      ensures Cell(i, j, k) < k * k
    {
      CellFits(i, k, j, k);
    }
    for i := 0 to k
      invariant ok <==> forall i', j' | 0 <= i' < i && 0 <= j' < k :: EntryFound(table, rho, i', j', transpose, blocks)
      invariant ok ==> forall i', j' {:trigger Cell(i', j', k)} :: 0 <= i' < i && 0 <= j' < k ==>
                  Cell(i', j', k) < k * k &&
                  Polys(mat[..], k * k)[Cell(i', j', k)] == KPke.MatrixEntryOf(Standard(table), rho, i', j', transpose)
    {
      for j := 0 to k
        invariant ok <==> forall i', j' | 0 <= i' < k && 0 <= j' < k && (i' < i || (i' == i && j' < j)) ::
                    EntryFound(table, rho, i', j', transpose, blocks)
        invariant ok ==> forall i', j' {:trigger Cell(i', j', k)} ::
                    0 <= i' < k && 0 <= j' < k && (i' < i || (i' == i && j' < j)) ==>
                    Cell(i', j', k) < k * k &&
                    Polys(mat[..], k * k)[Cell(i', j', k)] == KPke.MatrixEntryOf(Standard(table), rho, i', j', transpose)
      {
        var first, second := if transpose then i else j, if transpose then j else i;
        var poly, count := SampleEntry(table, rho, first, second, blocks);
        assert count == 256 <==> EntryFound(table, rho, i, j, transpose, blocks);
        ok := ok && count == 256;
        KPkeCode.StorePoly(mat, k * k, Cell(i, j, k), poly[..]);
        forall i', j' | 0 <= i' < k && 0 <= j' < k
          ensures (i' == i && j' == j) || Cell(i', j', k) != Cell(i, j, k)
        {
          if Cell(i', j', k) == Cell(i, j, k) {
            CellDistinct(i, j, i', j', k);
          }
        }
      }
    }
    AllFound(table, rho, k, transpose, blocks);
  }

  ghost predicate EntryFound(table: seq<Lane>, rho: KPke.Bytes32, i: int, j: int, transpose: bool, blocks: nat)
    requires |table| == 24
  {
    0 <= i < 256 && 0 <= j < 256 && if transpose then Enough(table, rho, i, j, blocks) else Enough(table, rho, j, i, blocks)
  }

  lemma AllFound(table: seq<Lane>, rho: KPke.Bytes32, k: nat, transpose: bool, blocks: nat)
    requires |table| == 24 && k <= 4
    ensures (forall i, j | 0 <= i < k && 0 <= j < k :: EntryFound(table, rho, i, j, transpose, blocks)) <==>
            forall i: byte, j: byte | i < k && j < k :: Enough(table, rho, i, j, blocks)
  {
    hide Enough;
    if forall i, j | 0 <= i < k && 0 <= j < k :: EntryFound(table, rho, i, j, transpose, blocks) {
      forall i: byte, j: byte | i < k && j < k
        ensures Enough(table, rho, i, j, blocks)
      {
        assert EntryFound(table, rho, i, j, transpose, blocks) && EntryFound(table, rho, j, i, transpose, blocks);
      }
    }
  }
}
