/** Bytes by their bits. */
module Octets {

  /** A byte as its bits, least significant first. */
  type Byte = b: seq<bool> | |b| == 8 witness seq(8, _ => false)

  type BitString = seq<bool>

  function ZeroByte(): Byte {
    seq(8, _ => false)
  }

  function ByteValue(b: Byte): nat {
    (if b[0] then 1 else 0) + (if b[1] then 2 else 0) + (if b[2] then 4 else 0) + (if b[3] then 8 else 0)
    + (if b[4] then 16 else 0) + (if b[5] then 32 else 0) + (if b[6] then 64 else 0) + (if b[7] then 128 else 0)
  }

  /** Bit i of the codewords, most significant bit of each codeword first. */
  function CodewordBits(data: seq<Byte>): (bits: BitString)
    ensures |bits| == 8 * |data|
  {
    seq(8 * |data|, i requires 0 <= i < 8 * |data| => data[i / 8][7 - i % 8])
  }

  lemma CodewordsFromBits(a: seq<Byte>, b: seq<Byte>)
    requires CodewordBits(a) == CodewordBits(b)
    ensures a == b
  {
    assert |CodewordBits(a)| == |CodewordBits(b)|;
    forall k | 0 <= k < |a|
      ensures a[k] == b[k]
    {
      forall j | 0 <= j < 8
        ensures a[k][j] == b[k][j]
      {
        var i := 8 * k + (7 - j);
        assert i / 8 == k && i % 8 == 7 - j;
        assert CodewordBits(a)[i] == CodewordBits(b)[i];
      }
    }
  }

  lemma BitOfCodeword(data: seq<Byte>, i: nat)
    requires i < 8 * |data|
    ensures i / 8 < |data| && CodewordBits(data)[i] == data[i / 8][7 - i % 8]
  {
  }
}
