/** The centred binomial sampler: bit counts taken for several coefficients in one machine word. */
module Cbd {
  import opened Zq
  import opened Transform
  import opened Compression

  // ----- the definition ---------------------------------------------------------------------------------

  /** Bit k of a byte. */
  function Bit8(w: bv8, k: nat): (r: nat)
    requires k < 8
    ensures r <= 1
  {
    var b: bv8 :=
      if k == 0 then w else if k == 1 then w >> 1 else if k == 2 then w >> 2 else if k == 3 then w >> 3
      else if k == 4 then w >> 4 else if k == 5 then w >> 5 else if k == 6 then w >> 6 else w >> 7;
    if b & 1 == 1 then 1 else 0
  }

  /** Bit b of a byte string, counting from the least significant bit of the first byte. */
  function BitOf(prf: seq<bv8>, b: nat): (r: nat)
    requires b < 8 * |prf|
    ensures r <= 1
  {
    Bit8(prf[b / 8], b % 8)
  }

  /** How many of the n bits from bit b on are ones. */
  function Ones(prf: seq<bv8>, b: nat, n: nat): (r: nat)
    requires b + n <= 8 * |prf|
    ensures r <= n
  {
    if n == 0 then 0 else Ones(prf, b, n - 1) + BitOf(prf, b + n - 1)
  }

  /** Algorithm 8 of FIPS 203: coefficient i is a difference of two counts of eta bits. */
  function CbdOf(eta: nat, prf: seq<bv8>): Poly
    requires eta <= 3 && |prf| == 64 * eta
  {
    seq(256, i requires 0 <= i < 256 => CoefficientOf(eta, prf, i))
  }

  function CoefficientOf(eta: nat, prf: seq<bv8>, i: nat): zq
    requires eta <= 3 && |prf| == 64 * eta && i < 256
  {
    var b := First(eta, i);
    Sub(Ones(prf, b, eta), Ones(prf, b + eta, eta))
  }

  /** The first bit that coefficient i depends on. */
  function First(eta: nat, i: nat): (b: nat)
    requires i < 256
    ensures b + 2 * eta <= 512 * eta
  {
    assert 512 * eta - (2 * eta * i + 2 * eta) == (510 - 2 * i) * eta;
    2 * eta * i
  }

  /** Every coefficient is small. */
  lemma CbdIsSmall(eta: nat, prf: seq<bv8>, i: nat)
    requires eta <= 3 && |prf| == 64 * eta && i < 256
    ensures 0 <= eta + Centered(CbdOf(eta, prf)[i]) <= 2 * eta
  {
    hide Sub;
    var at := First(eta, i);
    var a: int, b: int := Ones(prf, at, eta), Ones(prf, at + eta, eta);
    CenteredUnique(a - b, a - b);
    assert CbdOf(eta, prf)[i] == Mod(a - b);
    CenteredUnique(CbdOf(eta, prf)[i], a - b);
  }

  // ----- width 2: two coefficients from each byte ----------------------------------------------------------

  /** `(word & 0x55) + ((word >> 1) & 0x55)`: four counts of two bits each. */
  function PairCounts(word: bv8): bv8 {
    (word & 0x55) + ((word >> 1) & 0x55)
  }

  lemma PairAt0(w: bv8)
    ensures PairCounts(w) & 3 <= 2
    ensures (PairCounts(w) & 3) as int == Bit8(w, 0) + Bit8(w, 1)
  {
    assert PairCounts(w) & 3 == (w & 1) + ((w >> 1) & 1);
    SmallSum(w & 1, (w >> 1) & 1);
    assert w & 1 <= 1 && (w >> 1) & 1 <= 1;
  }

  lemma PairAt2(w: bv8)
    ensures (PairCounts(w) >> 2) & 3 <= 2
    ensures ((PairCounts(w) >> 2) & 3) as int == Bit8(w, 2) + Bit8(w, 3)
  {
    assert (PairCounts(w) >> 2) & 3 == ((w >> 2) & 1) + ((w >> 3) & 1);
    SmallSum((w >> 2) & 1, (w >> 3) & 1);
    assert (w >> 2) & 1 <= 1 && (w >> 3) & 1 <= 1;
  }

  lemma PairAt4(w: bv8)
    ensures (PairCounts(w) >> 4) & 3 <= 2
    ensures ((PairCounts(w) >> 4) & 3) as int == Bit8(w, 4) + Bit8(w, 5)
  {
    assert (PairCounts(w) >> 4) & 3 == ((w >> 4) & 1) + ((w >> 5) & 1);
    SmallSum((w >> 4) & 1, (w >> 5) & 1);
    assert (w >> 4) & 1 <= 1 && (w >> 5) & 1 <= 1;
  }

  lemma PairAt6(w: bv8)
    ensures (PairCounts(w) >> 6) & 3 <= 2
    ensures ((PairCounts(w) >> 6) & 3) as int == Bit8(w, 6) + Bit8(w, 7)
  {
    assert (PairCounts(w) >> 6) & 3 == ((w >> 6) & 1) + ((w >> 7) & 1);
    SmallSum((w >> 6) & 1, (w >> 7) & 1);
    assert (w >> 6) & 1 <= 1 && (w >> 7) & 1 <= 1;
  }

  lemma SmallSum(x: bv8, y: bv8)
    requires x <= 1 && y <= 1
    ensures x + y <= 2 && (x + y) as int == (if x == 1 then 1 else 0) + (if y == 1 then 1 else 0)
  {
    assert x == 0 || x == 1;
    assert y == 0 || y == 1;
  }

  lemma PairOnes(prf: seq<bv8>, i: nat, k: nat)
    requires i < |prf| && k < 7
    ensures Ones(prf, 8 * i + k, 2) == Bit8(prf[i], k) + Bit8(prf[i], k + 1)
  {
    hide Bit8;
    assert (8 * i + k) / 8 == i && (8 * i + k) % 8 == k;
    assert (8 * i + k + 1) / 8 == i && (8 * i + k + 1) % 8 == k + 1;
    assert Ones(prf, 8 * i + k, 1) == Ones(prf, 8 * i + k, 0) + BitOf(prf, 8 * i + k);
    assert Ones(prf, 8 * i + k, 2) == Ones(prf, 8 * i + k, 1) + BitOf(prf, 8 * i + k + 1);
  }

  method Coefficients2(word: bv8, ghost prf: seq<bv8>, ghost i: nat) returns (c0: zq, c1: zq)
    requires |prf| == 128 && i < 128 && word == prf[i]
    ensures c0 == CoefficientOf(2, prf, 2 * i) && c1 == CoefficientOf(2, prf, 2 * i + 1)
  {
    hide Sub, Bit8, Ones, PairCounts;
    var t := PairCounts(word);
    PairAt0(word);
    PairOnes(prf, i, 0);
    PairAt2(word);
    PairOnes(prf, i, 2);
    PairAt4(word);
    PairOnes(prf, i, 4);
    PairAt6(word);
    PairOnes(prf, i, 6);
    c0 := Sub((t & 3) as int, ((t >> 2) & 3) as int);
    c1 := Sub(((t >> 4) & 3) as int, ((t >> 6) & 3) as int);
  }

  // ----- width 3: four coefficients from three bytes --------------------------------------------------------

  function Word24(b0: bv8, b1: bv8, b2: bv8): bv32 {
    ((b2 as bv32) << 16) | ((b1 as bv32) << 8) | (b0 as bv32)
  }

  /** Eight counts of three bits each, three bits apart. */
  function TripleCounts(word: bv32): bv32 {
    (word & 0x249249) + ((word >> 1) & 0x249249) + ((word >> 2) & 0x249249)
  }

  lemma SmallSum32(x: bv32, y: bv32, z: bv32)
    requires x <= 1 && y <= 1 && z <= 1
    ensures x + y + z <= 3
    ensures (x + y + z) as int == (if x == 1 then 1 else 0) + (if y == 1 then 1 else 0) + (if z == 1 then 1 else 0)
  {
    assert x == 0 || x == 1;
    assert y == 0 || y == 1;
    assert z == 0 || z == 1;
  }

  /** Bit j of the word, as a bit of one of its three bytes. */
  function Bit24(b0: bv8, b1: bv8, b2: bv8, j: nat): (r: nat)
    requires j < 24
    ensures r <= 1
  {
    Bit8(if j < 8 then b0 else if j < 16 then b1 else b2, j % 8)
  }

  /** The count at bit k: `(t >> k) & 7`. */
  function CountAt(t: bv32, k: nat): bv32
    requires k < 24 && k % 3 == 0
  {
    if k == 0 then t & 7 else if k == 3 then (t >> 3) & 7 else if k == 6 then (t >> 6) & 7
    else if k == 9 then (t >> 9) & 7 else if k == 12 then (t >> 12) & 7 else if k == 15 then (t >> 15) & 7
    else if k == 18 then (t >> 18) & 7 else (t >> 21) & 7
  }

  lemma TripleAt0(b0: bv8, b1: bv8, b2: bv8, w: bv32)
    requires w == Word24(b0, b1, b2)
    ensures TripleCounts(w) & 7 <= 3
    ensures (TripleCounts(w) & 7) as int == Bit8(b0, 0) + Bit8(b0, 1) + Bit8(b0, 2)
  {
    assert TripleCounts(w) & 7 == (w & 1) + ((w >> 1) & 1) + ((w >> 2) & 1);
    SmallSum32(w & 1, (w >> 1) & 1, (w >> 2) & 1);
    assert w & 1 == ((b0 & 1) as bv32);
    assert (w >> 1) & 1 == (((b0 >> 1) & 1) as bv32);
    assert (w >> 2) & 1 == (((b0 >> 2) & 1) as bv32);
  }

  lemma TripleAt3(b0: bv8, b1: bv8, b2: bv8, w: bv32)
    requires w == Word24(b0, b1, b2)
    ensures (TripleCounts(w) >> 3) & 7 <= 3
    ensures ((TripleCounts(w) >> 3) & 7) as int == Bit8(b0, 3) + Bit8(b0, 4) + Bit8(b0, 5)
  {
    assert (TripleCounts(w) >> 3) & 7 == ((w >> 3) & 1) + ((w >> 4) & 1) + ((w >> 5) & 1);
    SmallSum32((w >> 3) & 1, (w >> 4) & 1, (w >> 5) & 1);
    assert (w >> 3) & 1 == (((b0 >> 3) & 1) as bv32);
    assert (w >> 4) & 1 == (((b0 >> 4) & 1) as bv32);
    assert (w >> 5) & 1 == (((b0 >> 5) & 1) as bv32);
  }

  lemma TripleAt6(b0: bv8, b1: bv8, b2: bv8, w: bv32)
    requires w == Word24(b0, b1, b2)
    ensures (TripleCounts(w) >> 6) & 7 <= 3
    ensures ((TripleCounts(w) >> 6) & 7) as int == Bit8(b0, 6) + Bit8(b0, 7) + Bit8(b1, 0)
  {
    assert (TripleCounts(w) >> 6) & 7 == ((w >> 6) & 1) + ((w >> 7) & 1) + ((w >> 8) & 1);
    SmallSum32((w >> 6) & 1, (w >> 7) & 1, (w >> 8) & 1);
    assert (w >> 6) & 1 == (((b0 >> 6) & 1) as bv32);
    assert (w >> 7) & 1 == (((b0 >> 7) & 1) as bv32);
    assert (w >> 8) & 1 == ((b1 & 1) as bv32);
  }

  lemma TripleAt9(b0: bv8, b1: bv8, b2: bv8, w: bv32)
    requires w == Word24(b0, b1, b2)
    ensures (TripleCounts(w) >> 9) & 7 <= 3
    ensures ((TripleCounts(w) >> 9) & 7) as int == Bit8(b1, 1) + Bit8(b1, 2) + Bit8(b1, 3)
  {
    assert (TripleCounts(w) >> 9) & 7 == ((w >> 9) & 1) + ((w >> 10) & 1) + ((w >> 11) & 1);
    SmallSum32((w >> 9) & 1, (w >> 10) & 1, (w >> 11) & 1);
    assert (w >> 9) & 1 == (((b1 >> 1) & 1) as bv32);
    assert (w >> 10) & 1 == (((b1 >> 2) & 1) as bv32);
    assert (w >> 11) & 1 == (((b1 >> 3) & 1) as bv32);
  }

  lemma TripleAt12(b0: bv8, b1: bv8, b2: bv8, w: bv32)
    requires w == Word24(b0, b1, b2)
    ensures (TripleCounts(w) >> 12) & 7 <= 3
    ensures ((TripleCounts(w) >> 12) & 7) as int == Bit8(b1, 4) + Bit8(b1, 5) + Bit8(b1, 6)
  {
    assert (TripleCounts(w) >> 12) & 7 == ((w >> 12) & 1) + ((w >> 13) & 1) + ((w >> 14) & 1);
    SmallSum32((w >> 12) & 1, (w >> 13) & 1, (w >> 14) & 1);
    assert (w >> 12) & 1 == (((b1 >> 4) & 1) as bv32);
    assert (w >> 13) & 1 == (((b1 >> 5) & 1) as bv32);
    assert (w >> 14) & 1 == (((b1 >> 6) & 1) as bv32);
  }

  lemma TripleAt15(b0: bv8, b1: bv8, b2: bv8, w: bv32)
    requires w == Word24(b0, b1, b2)
    ensures (TripleCounts(w) >> 15) & 7 <= 3
    ensures ((TripleCounts(w) >> 15) & 7) as int == Bit8(b1, 7) + Bit8(b2, 0) + Bit8(b2, 1)
  {
    assert (TripleCounts(w) >> 15) & 7 == ((w >> 15) & 1) + ((w >> 16) & 1) + ((w >> 17) & 1);
    SmallSum32((w >> 15) & 1, (w >> 16) & 1, (w >> 17) & 1);
    assert (w >> 15) & 1 == (((b1 >> 7) & 1) as bv32);
    assert (w >> 16) & 1 == ((b2 & 1) as bv32);
    assert (w >> 17) & 1 == (((b2 >> 1) & 1) as bv32);
  }

  lemma TripleAt18(b0: bv8, b1: bv8, b2: bv8, w: bv32)
    requires w == Word24(b0, b1, b2)
    ensures (TripleCounts(w) >> 18) & 7 <= 3
    ensures ((TripleCounts(w) >> 18) & 7) as int == Bit8(b2, 2) + Bit8(b2, 3) + Bit8(b2, 4)
  {
    assert (TripleCounts(w) >> 18) & 7 == ((w >> 18) & 1) + ((w >> 19) & 1) + ((w >> 20) & 1);
    SmallSum32((w >> 18) & 1, (w >> 19) & 1, (w >> 20) & 1);
    assert (w >> 18) & 1 == (((b2 >> 2) & 1) as bv32);
    assert (w >> 19) & 1 == (((b2 >> 3) & 1) as bv32);
    assert (w >> 20) & 1 == (((b2 >> 4) & 1) as bv32);
  }

  lemma TripleAt21(b0: bv8, b1: bv8, b2: bv8, w: bv32)
    requires w == Word24(b0, b1, b2)
    ensures (TripleCounts(w) >> 21) & 7 <= 3
    ensures ((TripleCounts(w) >> 21) & 7) as int == Bit8(b2, 5) + Bit8(b2, 6) + Bit8(b2, 7)
  {
    assert (TripleCounts(w) >> 21) & 7 == ((w >> 21) & 1) + ((w >> 22) & 1) + ((w >> 23) & 1);
    SmallSum32((w >> 21) & 1, (w >> 22) & 1, (w >> 23) & 1);
    assert (w >> 21) & 1 == (((b2 >> 5) & 1) as bv32);
    assert (w >> 22) & 1 == (((b2 >> 6) & 1) as bv32);
    assert (w >> 23) & 1 == (((b2 >> 7) & 1) as bv32);
  }

  lemma TripleOnes(prf: seq<bv8>, i: nat, k: nat)
    requires 3 * i + 3 <= |prf| && k < 22
    ensures Ones(prf, 24 * i + k, 3) == BitOf(prf, 24 * i + k) + BitOf(prf, 24 * i + k + 1) + BitOf(prf, 24 * i + k + 2)
  {
    hide BitOf;
    var b := 24 * i + k;
    assert Ones(prf, b, 1) == Ones(prf, b, 0) + BitOf(prf, b);
    assert Ones(prf, b, 2) == Ones(prf, b, 1) + BitOf(prf, b + 1);
  }

  lemma BitIn24(prf: seq<bv8>, i: nat, j: nat)
    requires 3 * i + 3 <= |prf| && j < 24
    ensures BitOf(prf, 24 * i + j) == Bit8(prf[3 * i + j / 8], j % 8)
  {
    hide Bit8;
    assert (24 * i + j) / 8 == 3 * i + j / 8 && (24 * i + j) % 8 == j % 8;
  }

  lemma CountsAt(t: bv32)
    ensures CountAt(t, 0) == t & 7
    ensures CountAt(t, 3) == (t >> 3) & 7
    ensures CountAt(t, 6) == (t >> 6) & 7
    ensures CountAt(t, 9) == (t >> 9) & 7
    ensures CountAt(t, 12) == (t >> 12) & 7
    ensures CountAt(t, 15) == (t >> 15) & 7
    ensures CountAt(t, 18) == (t >> 18) & 7
    ensures CountAt(t, 21) == (t >> 21) & 7
  {
  }

  lemma TripleAtLow(b0: bv8, b1: bv8, b2: bv8, w: bv32, k: nat)
    requires w == Word24(b0, b1, b2) && k < 12 && k % 3 == 0
    ensures CountAt(TripleCounts(w), k) <= 3
    ensures CountAt(TripleCounts(w), k) as int == Bit24(b0, b1, b2, k) + Bit24(b0, b1, b2, k + 1) + Bit24(b0, b1, b2, k + 2)
  {
    hide Bit8, TripleCounts, Word24, CountAt;
    CountsAt(TripleCounts(w));
    if k == 0 {
      TripleAt0(b0, b1, b2, w);
    } else if k == 3 {
      TripleAt3(b0, b1, b2, w);
    } else if k == 6 {
      TripleAt6(b0, b1, b2, w);
    } else {
      TripleAt9(b0, b1, b2, w);
    }
  }

  lemma TripleAtHigh(b0: bv8, b1: bv8, b2: bv8, w: bv32, k: nat)
    requires w == Word24(b0, b1, b2) && 12 <= k < 24 && k % 3 == 0
    ensures CountAt(TripleCounts(w), k) <= 3
    ensures CountAt(TripleCounts(w), k) as int == Bit24(b0, b1, b2, k) + Bit24(b0, b1, b2, k + 1) + Bit24(b0, b1, b2, k + 2)
  {
    hide Bit8, TripleCounts, Word24, CountAt;
    CountsAt(TripleCounts(w));
    if k == 12 {
      TripleAt12(b0, b1, b2, w);
    } else if k == 15 {
      TripleAt15(b0, b1, b2, w);
    } else if k == 18 {
      TripleAt18(b0, b1, b2, w);
    } else {
      TripleAt21(b0, b1, b2, w);
    }
  }

  /** Each count is that of three neighbouring bits. */
  lemma TripleAt(b0: bv8, b1: bv8, b2: bv8, w: bv32, k: nat)
    requires w == Word24(b0, b1, b2) && k < 24 && k % 3 == 0
    ensures CountAt(TripleCounts(w), k) <= 3
    ensures CountAt(TripleCounts(w), k) as int == Bit24(b0, b1, b2, k) + Bit24(b0, b1, b2, k + 1) + Bit24(b0, b1, b2, k + 2)
  {
    hide Bit24, TripleCounts, Word24, CountAt;
    if k < 12 {
      TripleAtLow(b0, b1, b2, w, k);
    } else {
      TripleAtHigh(b0, b1, b2, w, k);
    }
  }

  lemma TripleValue(prf: seq<bv8>, i: nat, word: bv32, k: nat)
    requires 3 * i + 3 <= |prf| && word == Word24(prf[3 * i], prf[3 * i + 1], prf[3 * i + 2])
    requires k < 24 && k % 3 == 0
    ensures CountAt(TripleCounts(word), k) <= 3
    ensures CountAt(TripleCounts(word), k) as int == Ones(prf, 24 * i + k, 3)
  {
    hide Bit8, BitOf, Ones, TripleCounts, Word24, CountAt;
    TripleAt(prf[3 * i], prf[3 * i + 1], prf[3 * i + 2], word, k);
    TripleOnes(prf, i, k);
    BitIn24(prf, i, k);
    BitIn24(prf, i, k + 1);
    BitIn24(prf, i, k + 2);
  }

  lemma CoefficientOfTriples(prf: seq<bv8>, i: nat, c: nat)
    requires |prf| == 192 && i < 64 && c < 4
    ensures CoefficientOf(3, prf, 4 * i + c) == Sub(Ones(prf, 24 * i + 6 * c, 3), Ones(prf, 24 * i + 6 * c + 3, 3))
  {
    hide Sub, Ones;
    assert First(3, 4 * i + c) == 24 * i + 6 * c;
  }

  method Coefficients3Low(t: bv32, ghost word: bv32, ghost prf: seq<bv8>, ghost i: nat) returns (c0: zq, c1: zq)
    requires |prf| == 192 && i < 64 && word == Word24(prf[3 * i], prf[3 * i + 1], prf[3 * i + 2])
    requires t == TripleCounts(word)
    ensures c0 == CoefficientOf(3, prf, 4 * i + 0) && c1 == CoefficientOf(3, prf, 4 * i + 1)
  {
    hide Sub, CoefficientOf, Ones, TripleCounts, Word24, CountAt;
    TripleValue(prf, i, word, 0);
    TripleValue(prf, i, word, 3);
    CoefficientOfTriples(prf, i, 0);
    c0 := Sub(CountAt(t, 0) as int, CountAt(t, 3) as int);
    TripleValue(prf, i, word, 6);
    TripleValue(prf, i, word, 9);
    CoefficientOfTriples(prf, i, 1);
    c1 := Sub(CountAt(t, 6) as int, CountAt(t, 9) as int);
  }

  method Coefficients3High(t: bv32, ghost word: bv32, ghost prf: seq<bv8>, ghost i: nat) returns (c2: zq, c3: zq)
    requires |prf| == 192 && i < 64 && word == Word24(prf[3 * i], prf[3 * i + 1], prf[3 * i + 2])
    requires t == TripleCounts(word)
    ensures c2 == CoefficientOf(3, prf, 4 * i + 2) && c3 == CoefficientOf(3, prf, 4 * i + 3)
  {
    hide Sub, CoefficientOf, Ones, TripleCounts, Word24, CountAt;
    TripleValue(prf, i, word, 12);
    TripleValue(prf, i, word, 15);
    CoefficientOfTriples(prf, i, 2);
    c2 := Sub(CountAt(t, 12) as int, CountAt(t, 15) as int);
    TripleValue(prf, i, word, 18);
    TripleValue(prf, i, word, 21);
    CoefficientOfTriples(prf, i, 3);
    c3 := Sub(CountAt(t, 18) as int, CountAt(t, 21) as int);
  }

  method Coefficients3(word: bv32, ghost prf: seq<bv8>, ghost i: nat) returns (c0: zq, c1: zq, c2: zq, c3: zq)
    requires |prf| == 192 && i < 64 && word == Word24(prf[3 * i], prf[3 * i + 1], prf[3 * i + 2])
    ensures c0 == CoefficientOf(3, prf, 4 * i) && c1 == CoefficientOf(3, prf, 4 * i + 1)
    ensures c2 == CoefficientOf(3, prf, 4 * i + 2) && c3 == CoefficientOf(3, prf, 4 * i + 3)
  {
    hide CoefficientOf, TripleCounts, Word24;
    var t := TripleCounts(word);
    c0, c1 := Coefficients3Low(t, word, prf, i);
    c2, c3 := Coefficients3High(t, word, prf, i);
  }

  // ----- the sampler ----------------------------------------------------------------------------------------

  method SamplePolyCbd(eta: nat, prf: array<bv8>, poly: array<zq>)
    requires (eta == 2 || eta == 3) && prf.Length == 64 * eta && poly.Length == 256
    modifies poly
    ensures poly[..] == CbdOf(eta, prf[..])
  {
    hide CoefficientOf, Word24;
    if eta == 2 {
      for i: nat := 0 to 128
        invariant forall j {:trigger poly[j]} :: 0 <= j < 2 * i ==> poly[j] == CoefficientOf(2, prf[..], j)
      {
        poly[2 * i], poly[2 * i + 1] := Coefficients2(prf[i], prf[..], i);
      }
    } else {
      for i: nat := 0 to 64
        invariant forall j {:trigger poly[j]} :: 0 <= j < 4 * i ==> poly[j] == CoefficientOf(3, prf[..], j)
      {
        var word := Word24(prf[3 * i], prf[3 * i + 1], prf[3 * i + 2]);
        poly[4 * i], poly[4 * i + 1], poly[4 * i + 2], poly[4 * i + 3] := Coefficients3(word, prf[..], i);
      }
    }
  }
}
