/** Appending numbers to a byte buffer, most significant bit first. */
module BitBuffer {
  import opened Bits
  import opened Octets

  /** The n low-order bits of a number, most significant first. */
  function NumberBits(val: nat, n: nat): (bits: BitString)
    ensures |bits| == n
  {
    if n == 0 then [] else NumberBits(val / 2, n - 1) + [val % 2 == 1]
  }

  function ValueOf(bits: BitString): nat {
    if bits == [] then 0 else 2 * ValueOf(bits[..|bits| - 1]) + if bits[|bits| - 1] then 1 else 0
  }

  lemma {:induction false} NumberRoundTrip(val: nat, n: nat)
    requires val < Pow2(n)
    ensures ValueOf(NumberBits(val, n)) == val
  {
    if n > 0 {
      NumberRoundTrip(val / 2, n - 1);
      assert NumberBits(val, n)[..n - 1] == NumberBits(val / 2, n - 1);
    }
  }

  function Zeros(n: nat): (bits: BitString)
    ensures |bits| == n
  {
    seq(n, _ => false)
  }

  lemma {:induction false} ZeroBits(n: nat)
    ensures NumberBits(0, n) == Zeros(n)
  {
    if n > 0 {
      ZeroBits(n - 1);
    }
  }

  /** Bit k of a number, counting from the least significant. */
  predicate NumberBit(val: nat, k: nat) {
    val / Pow2(k) % 2 == 1
  }

  /** The bits of a byte value. */
  function OctetOf(v: nat): Byte {
    hide Pow2;
    QuotientsNat(v);
    seq(8, k requires 0 <= k < 8 => NumberBit(v, k))
  }

  lemma QuotientsNat(v: nat)
    ensures forall k: nat :: v / Pow2(k) >= 0
  {
    hide Pow2;
    forall k: nat
      ensures v / Pow2(k) >= 0
    {
      QuotientNat(v, Pow2(k));
    }
  }

  lemma {:induction false} NumberBitAt(val: nat, n: nat, k: nat)
    requires k < n
    ensures val / Pow2(k) >= 0 && NumberBits(val, n)[n - 1 - k] == NumberBit(val, k)
  {
    hide Pow2;
    if k == 0 {
      assert Pow2(0) == 1 by { PowZero(); }
    } else {
      NumberBitAt(val / 2, n - 1, k - 1);
      HalvedQuotient(val, k);
    }
  }

  lemma PowZero()
    ensures Pow2(0) == 1
  {
  }

  lemma HalvedQuotient(val: nat, k: nat)
    requires k > 0
    ensures val / 2 / Pow2(k - 1) == val / Pow2(k)
  {
    var p := Pow2(k - 1);
    var q, r := val / 2 / p, val / 2 % p;
    assert val / 2 == q * p + r;
    assert val == q * (2 * p) + (2 * r + val % 2);
    DivModUnique(val, 2 * p, q, 2 * r + val % 2);
  }

  // ----- the buffer -----------------------------------------------------------------------------------------

  /** The first len bits of a buffer are the given string and all later bits are zero. */
  ghost predicate Holds(buffer: seq<Byte>, len: nat, bits: BitString) {
    && len == |bits| <= 8 * |buffer|
    && CodewordBits(buffer) == bits + Zeros(8 * |buffer| - len)
  }

  lemma ZeroBuffer(buffer: seq<Byte>)
    requires forall k :: 0 <= k < |buffer| ==> buffer[k] == ZeroByte()
    ensures Holds(buffer, 0, [])
  {
    forall i | 0 <= i < 8 * |buffer|
      ensures CodewordBits(buffer)[i] == ([] + Zeros(8 * |buffer|))[i]
    {
    }
  }

  lemma SetOneBit(buffer: seq<Byte>, buffer': seq<Byte>, len: nat, bits: BitString, b: bool)
    requires Holds(buffer, len, bits) && len < 8 * |buffer| == 8 * |buffer'|
    requires buffer' == buffer[len / 8 := buffer[len / 8][7 - len % 8 := buffer[len / 8][7 - len % 8] || b]]
    ensures Holds(buffer', len + 1, bits + [b])
  {
    var u, v := CodewordBits(buffer'), (bits + [b]) + Zeros(8 * |buffer'| - (len + 1));
    forall i | 0 <= i < 8 * |buffer|
      ensures u[i] == v[i]
    {
      assert CodewordBits(buffer)[i] == (bits + Zeros(8 * |buffer| - len))[i];
      if i / 8 == len / 8 && i != len {
        assert i % 8 != len % 8;
      }
    }
  }

  /** Appends to a string held in the first m bytes of the buffer. */
  method AppendBits(val: nat, numBits: nat, buffer: array<Byte>, bitLen: nat, ghost m: nat, ghost bits: BitString)
    returns (bitLen': nat)
    requires numBits <= 16 && val < Pow2(numBits) && m <= buffer.Length && bitLen + numBits <= 8 * m
    requires Holds(buffer[..m], bitLen, bits)
    modifies buffer
    ensures bitLen' == bitLen + numBits && Holds(buffer[..m], bitLen', bits + NumberBits(val, numBits))
    ensures buffer[m..] == old(buffer[m..])
  {
    hide Holds, NumberBits, NumberBit, Pow2;
    bitLen' := bitLen;
    var i: nat := numBits;
    assert bits + NumberBits(val, numBits)[..0] == bits;
    while i > 0
      invariant i <= numBits && bitLen' == bitLen + (numBits - i)
      invariant Holds(buffer[..m], bitLen', bits + NumberBits(val, numBits)[..numBits - i])
      invariant buffer[m..] == old(buffer[m..])
    {
      i := i - 1;
      NumberBitAt(val, numBits, i);
      ghost var was, sofar := buffer[..m], bits + NumberBits(val, numBits)[..numBits - i - 1];
      var bit := NumberBit(val, i);
      var byte := buffer[bitLen' / 8];
      buffer[bitLen' / 8] := byte[7 - bitLen' % 8 := byte[7 - bitLen' % 8] || bit];
      SetOneBit(was, buffer[..m], bitLen', sofar, bit);
      assert sofar + [bit] == bits + NumberBits(val, numBits)[..numBits - i];
      bitLen' := bitLen' + 1;
    }
    assert NumberBits(val, numBits)[..numBits] == NumberBits(val, numBits);
  }

  /** memset of the first m bytes. */
  method ClearBuffer(buffer: array<Byte>, m: nat)
    requires m <= buffer.Length
    modifies buffer
    ensures Holds(buffer[..m], 0, []) && buffer[m..] == old(buffer[m..])
  {
    for i := 0 to m
      invariant forall k {:trigger buffer[k]} :: 0 <= k < i ==> buffer[k] == ZeroByte()
      invariant forall k {:trigger buffer[k]} :: m <= k < buffer.Length ==> buffer[k] == old(buffer[k])
    {
      buffer[i] := ZeroByte();
    }
    ZeroBuffer(buffer[..m]);
  }
}
