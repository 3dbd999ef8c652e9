/** The incremental sponge: word-wise code over a staging block, tied to the bit-wise sponge. */
module SpongeCode {
  import opened Keccak
  import opened Octets
  import Bits
  import opened KeccakCode
  import opened Sponge

  /** The permutation as a function of the state. */
  function Permutation(table: seq<Lane>, rounds: nat): State -> State
    requires |table| == 24 && rounds <= 24
  {
    s => KeccakP(s, table, rounds)
  }

  /** x & -8 on byte counts. */
  function Aligned(x: nat): (y: nat)
    ensures y % 8 == 0 && y <= x < y + 8
  {
    x / 8 * 8
  }

  /** The word whose bytes, least significant first, are the eight at the given index. */
  function LeWord(block: seq<Byte>, i: nat): Lane
    requires i + 8 <= |block|
  {
    seq(64, z requires 0 <= z < 64 => block[i + z / 8][z % 8])
  }

  /** Byte k of a word. */
  function LeByte(word: Lane, k: nat): Byte
    requires k < 8
  {
    word[8 * k..8 * k + 8]
  }

  // ----- one stretch of message into the rate part ---------------------------------------------------

  /** What the staging block holds around a chunk that starts at the given offset. */
  ghost predicate Staged(block: seq<Byte>, chunk: seq<Byte>, offset: nat, begin: nat, end: nat) {
    && begin <= offset && offset + |chunk| <= end <= |block|
    && forall p :: begin <= p < end ==> block[p] == StagedByte(chunk, offset, p)
  }

  function StagedByte(chunk: seq<Byte>, offset: nat, p: nat): Byte {
    if offset <= p < offset + |chunk| then chunk[p - offset] else ZeroByte()
  }

  lemma StagedBit(chunk: seq<Byte>, offset: nat, w: nat, z: nat)
    requires z < 64
    ensures Covered(BitsOf(chunk), 8 * offset, 64 * w + z) == StagedByte(chunk, offset, 8 * w + z / 8)[z % 8]
  {
    var p, i := 8 * w + z / 8, 64 * w + z;
    assert i == 8 * p + z % 8;
    if offset <= p < offset + |chunk| {
      var j := i - 8 * offset;
      assert j == 8 * (p - offset) + z % 8;
      assert j / 8 == p - offset && j % 8 == z % 8;
    }
  }

  /** Words begin / 8 up to w taken from XorAt, the others still as they were. */
  ghost predicate WordsDone(now: seq<Lane>, was: State, xored: State, begin: nat, end: nat) {
    && |now| == 25
    && forall w :: 0 <= w < 25 ==> now[w] == if begin <= 8 * w < end then xored[w] else was[w]
  }

  lemma XoredWord(s: State, block: seq<Byte>, chunk: seq<Byte>, offset: nat, begin: nat, end: nat, w: nat)
    requires Staged(block, chunk, offset, begin, end) && begin <= 8 * w && 8 * w + 8 <= end && w < 25
    requires offset + |chunk| <= 200
    ensures Xor(s[w], LeWord(block, 8 * w)) == XorAt(s, 8 * offset, BitsOf(chunk))[w]
  {
    var u, v := Xor(s[w], LeWord(block, 8 * w)), XorAt(s, 8 * offset, BitsOf(chunk))[w];
    forall z | 0 <= z < 64
      ensures u[z] == v[z]
    {
      StagedBit(chunk, offset, w, z);
      assert block[8 * w + z / 8] == StagedByte(chunk, offset, 8 * w + z / 8);
    }
  }

  lemma UntouchedWord(s: State, chunk: seq<Byte>, offset: nat, begin: nat, end: nat, w: nat)
    requires begin <= offset && offset + |chunk| <= end && begin % 8 == 0 && end % 8 == 0 && w < 25
    requires 8 * w < begin || end <= 8 * w
    requires offset + |chunk| <= 200
    ensures XorAt(s, 8 * offset, BitsOf(chunk))[w] == s[w]
  {
    var v := XorAt(s, 8 * offset, BitsOf(chunk))[w];
    forall z | 0 <= z < 64
      ensures v[z] == s[w][z]
    {
      StagedBit(chunk, offset, w, z);
    }
  }

  method XorChunk(state: array<Lane>, block: array<Byte>, offset: nat, chunk: seq<Byte>)
    requires state.Length == 25 && block.Length % 8 == 0 && block.Length <= 200
    requires offset + |chunk| <= block.Length
    modifies state, block
    ensures state[..] == XorAt(old(state[..]), 8 * offset, BitsOf(chunk))
  {
    hide XorAt, BitsOf, Xor, LeWord;
    var effective := offset + |chunk|;
    var end := Aligned(effective + 7);
    var begin := Aligned(offset);
    FillBlock(block, begin, end, offset, chunk);
    ghost var was: State := state[..];
    ghost var xored := XorAt(was, 8 * offset, BitsOf(chunk));
    var word := begin / 8;
    var i := begin;
    while i < end
      invariant begin <= i <= end && i % 8 == 0 && word == i / 8
      invariant Staged(block[..], chunk, offset, begin, end)
      invariant WordsDone(state[..], was, xored, begin, i)
    {
      XoredWord(was, block[..], chunk, offset, begin, end, word);
      state[word] := Xor(state[word], LeWord(block[..], i));
      word := word + 1;
      i := i + 8;
    }
    forall w: nat | w < 25
      ensures state[w] == xored[w]
    {
      if 8 * w < begin || end <= 8 * w {
        UntouchedWord(was, chunk, offset, begin, end, w);
      }
    }
  }

  method FillBlock(block: array<Byte>, begin: nat, end: nat, offset: nat, chunk: seq<Byte>)
    requires begin <= offset && offset + |chunk| <= end <= block.Length
    modifies block
    ensures Staged(block[..], chunk, offset, begin, end)
  {
    for p := begin to end
      invariant forall q :: begin <= q < p ==> block[q] == ZeroByte()
    {
      block[p] := ZeroByte();
    }
    for k := 0 to |chunk|
      invariant forall q :: begin <= q < offset ==> block[q] == ZeroByte()
      invariant forall q :: offset <= q < offset + k ==> block[q] == chunk[q - offset]
      invariant forall q :: offset + k <= q < end ==> block[q] == ZeroByte()
    {
      block[offset + k] := chunk[k];
    }
  }

  // ----- absorb ----------------------------------------------------------------------------------------

  method AbsorbBytes(state: array<Lane>, offset: nat, msg: seq<Byte>, rate: nat, table: seq<Lane>, rounds: nat)
    returns (offset': nat)
    requires state.Length == 25 && rate % 8 == 0 && rate <= 200 && offset < rate
    requires |table| == 24 && (rounds == 12 || rounds == 24)
    modifies state
    ensures offset' < rate
    ensures Cursor(state[..], 8 * offset') ==
            Absorb(Permutation(table, rounds), 8 * rate, Cursor(old(state[..]), 8 * offset), BitsOf(msg))
  {
    hide XorAt, BitsOf, Absorb, KeccakP;
    var block := new Byte[rate](_ => ZeroByte());
    var f, r := Permutation(table, rounds), 8 * rate;
    ghost var start := Cursor(state[..], 8 * offset);
    offset' := offset;
    var consumed := 0;
    AbsorbNothing(f, r, start, BitsOf(msg[..0]));
    while consumed < |msg|
      invariant 0 <= consumed <= |msg| && offset' < rate
      invariant Cursor(state[..], 8 * offset') == Absorb(f, r, start, BitsOf(msg[..consumed]))
    {
      var n := if |msg| - consumed <= rate - offset' then |msg| - consumed else rate - offset';
      ghost var here := Cursor(state[..], 8 * offset');
      var chunk := msg[consumed..consumed + n];
      AbsorbChunk(f, r, start, here, msg, consumed, n);
      XorChunk(state, block, offset', chunk);
      offset' := offset' + n;
      consumed := consumed + n;
      if offset' == rate {
        Permute(state, table, rounds);
        offset' := 0;
      }
    }
    assert msg[..consumed] == msg;
  }

  lemma AbsorbNothing(f: State -> State, r: nat, c: Cursor, bits: BitString)
    requires c.pos < r <= 1600 && bits == []
    ensures Absorb(f, r, c, bits) == c
  {
  }

  lemma AbsorbChunk(f: State -> State, r: nat, start: Cursor, here: Cursor, msg: seq<Byte>, done: nat, n: nat)
    requires start.pos < r <= 1600 && done + n <= |msg|
    requires here == Absorb(f, r, start, BitsOf(msg[..done])) && here.pos + 8 * n <= r
    ensures
      var chunk := BitsOf(msg[done..done + n]);
      Absorb(f, r, start, BitsOf(msg[..done + n])) ==
      Advance(f, r, XorAt(here.lanes, here.pos, chunk), here.pos + 8 * n)
  {
    hide XorAt, BitsOf, Absorb;
    var a, b := msg[..done], msg[done..done + n];
    assert a + b == msg[..done + n];
    BitsOfAppend(a, b);
    AbsorbAppend(f, r, start, BitsOf(a), BitsOf(b));
    AbsorbWithin(f, r, here, BitsOf(b));
  }

  // ----- finalize -----------------------------------------------------------------------------------------

  /** (1 << |ds|) | ds as a byte. */
  function PadByte(ds: BitString): Byte
    requires |ds| <= 6
  {
    ds + [true] + seq(7 - |ds|, _ => false)
  }

  /** A byte shifted to place k of a word. */
  function ByteInWord(b: Byte, k: nat): Lane
    requires k < 8
  {
    seq(64, z requires 0 <= z < 64 => 8 * k <= z < 8 * k + 8 && b[z - 8 * k])
  }

  /** 0x80. */
  function TopBit(): Byte {
    [false, false, false, false, false, false, false, true]
  }

  /** The state with one byte xored in at byte index p. */
  function XorByte(s: State, b: Byte, p: nat): State
    requires p < 200
  {
    s[p / 8 := Xor(s[p / 8], ByteInWord(b, p % 8))]
  }

  lemma XorByteAt(s: State, b: Byte, p: nat, w: nat, z: nat)
    requires p < 200 && w < 25 && z < 64
    ensures XorByte(s, b, p)[w][z] == (s[w][z] != (8 * p <= 64 * w + z < 8 * p + 8 && b[64 * w + z - 8 * p]))
  {
    assert p == 8 * (p / 8) + p % 8;
  }

  lemma PaddedBit(ds: BitString, offset: nat, rate: nat, p: nat)
    requires |ds| <= 6 && rate % 8 == 0 && offset < rate
    ensures
      var pad := ds + Pad101(8 * rate, 8 * offset + |ds|);
      && |pad| == 8 * (rate - offset)
      && Covered(pad, 8 * offset, p) ==
         ((8 * offset <= p < 8 * offset + 8 && PadByte(ds)[p - 8 * offset]) != (p == 8 * rate - 1))
  {
    var j := Fill(8 * rate, 8 * offset + |ds|);
    var total := 8 * offset + |ds| + 2 + j;
    assert total % (8 * rate) == 0 && 0 < total < 2 * (8 * rate);
    OnlyMultiple(total, 8 * rate);
  }

  lemma OnlyMultiple(t: nat, x: nat)
    requires 0 < x && t % x == 0 && 0 < t < 2 * x
    ensures t == x
  {
    var q := t / x;
    assert t == q * x;
    Bits.CancelLt(q, 2, x);
    Bits.CancelLt(0, q, x);
  }

  /** The two bytes that finalize xors in are the domain bits followed by pad10*1. */
  lemma PaddingBytes(s: State, ds: BitString, offset: nat, rate: nat)
    requires |ds| <= 6 && rate % 8 == 0 && offset < rate <= 200
    ensures
      var pad := ds + Pad101(8 * rate, 8 * offset + |ds|);
      && |pad| == 8 * (rate - offset)
      && XorByte(XorByte(s, PadByte(ds), offset), TopBit(), rate - 1) == XorAt(s, 8 * offset, pad)
  {
    hide XorByte, PadByte, Pad101, Covered;
    PaddedBit(ds, offset, rate, 0);
    var pad := ds + Pad101(8 * rate, 8 * offset + |ds|);
    var t := XorByte(s, PadByte(ds), offset);
    var u, v := XorByte(t, TopBit(), rate - 1), XorAt(s, 8 * offset, pad);
    forall w: nat, z: nat | w < 25 && z < 64
      ensures u[w][z] == v[w][z]
    {
      PaddedBit(ds, offset, rate, 64 * w + z);
      XorByteAt(s, PadByte(ds), offset, w, z);
      XorByteAt(t, TopBit(), rate - 1, w, z);
    }
    SameState(u, v);
  }

  method Finalize(state: array<Lane>, offset: nat, ds: BitString, rate: nat, table: seq<Lane>, rounds: nat)
    returns (offset': nat)
    requires state.Length == 25 && rate % 8 == 0 && rate <= 200 && offset < rate && |ds| <= 6
    requires |table| == 24 && (rounds == 12 || rounds == 24)
    modifies state
    ensures offset' == 0
    ensures Cursor(state[..], 0) ==
            Absorb(Permutation(table, rounds), 8 * rate, Cursor(old(state[..]), 8 * offset),
                   ds + Pad101(8 * rate, 8 * offset + |ds|))
  {
    hide XorAt, Absorb, KeccakP, Xor, ByteInWord, TopBit, PadByte, Pad101;
    ghost var s: State := state[..];
    var word, byteIndex := offset / 8, offset % 8;
    state[word] := Xor(state[word], ByteInWord(PadByte(ds), byteIndex));
    assert state[..] == XorByte(s, PadByte(ds), offset);
    ghost var t: State := state[..];
    var last := rate / 8 - 1;
    state[last] := Xor(state[last], ByteInWord(TopBit(), 7));
    assert (rate - 1) / 8 == last && (rate - 1) % 8 == 7;
    assert state[..] == XorByte(t, TopBit(), rate - 1);
    PaddingBytes(s, ds, offset, rate);
    AbsorbWithin(Permutation(table, rounds), 8 * rate, Cursor(s, 8 * offset), ds + Pad101(8 * rate, 8 * offset + |ds|));
    Permute(state, table, rounds);
    offset' := 0;
  }

  // ----- squeeze ------------------------------------------------------------------------------------------

  /** The n bytes of the state from byte index p on. */
  function StateBytes(s: State, p: nat, n: nat): (b: seq<Byte>)
    requires p + n <= 200
    ensures |b| == n
  {
    seq<Byte>(n, k requires 0 <= k < n => LeByte(s[(p + k) / 8], (p + k) % 8))
  }

  lemma BitOfLeByte(s: State, q: nat, z: nat)
    requires q < 200 && z < 8
    ensures LeByte(s[q / 8], q % 8)[z] == BitAt(s, 8 * q + z)
  {
    assert q == 8 * (q / 8) + q % 8;
    assert (8 * q + z) / 64 == q / 8 && (8 * q + z) % 64 == 8 * (q % 8) + z;
  }

  lemma StateBytesBits(s: State, p: nat, n: nat)
    requires p + n <= 200
    ensures BitsOf(StateBytes(s, p, n)) == Segment(s, 8 * p, 8 * n)
  {
    hide LeByte, BitAt;
    var b := StateBytes(s, p, n);
    forall i | 0 <= i < 8 * n
      ensures BitsOf(b)[i] == Segment(s, 8 * p, 8 * n)[i]
    {
      var k := i / 8;
      var q := p + k;
      assert b[k] == LeByte(s[q / 8], q % 8);
      BitOfLeByte(s, q, i % 8);
      assert 8 * p + i == 8 * q + i % 8;
    }
  }

  /** Reads n bytes of the state, whole words at a time, through a staging block. */
  method ReadChunk(state: array<Lane>, block: array<Byte>, p: nat, n: nat) returns (out: seq<Byte>)
    requires state.Length == 25 && block.Length % 8 == 0 && p + n <= block.Length <= 200
    modifies block
    ensures out == StateBytes(state[..], p, n)
  {
    hide LeByte;
    var end := Aligned(p + n + 7);
    var begin := Aligned(p);
    var word := begin / 8;
    var i := begin;
    while i < end
      invariant begin <= i <= end && i % 8 == 0 && word == i / 8
      invariant forall q :: begin <= q < i ==> block[q] == LeByte(state[q / 8], q % 8)
    {
      WriteWord(block, i, state[word]);
      word := word + 1;
      i := i + 8;
    }
    out := block[p..p + n];
  }

  method WriteWord(block: array<Byte>, i: nat, word: Lane)
    requires i % 8 == 0 && i + 8 <= block.Length
    modifies block
    ensures forall q :: i <= q < i + 8 ==> block[q] == LeByte(word, q % 8)
    ensures forall q :: 0 <= q < block.Length && !(i <= q < i + 8) ==> block[q] == old(block[q])
  {
    hide LeByte;
    block[i], block[i + 1], block[i + 2], block[i + 3] := LeByte(word, 0), LeByte(word, 1), LeByte(word, 2), LeByte(word, 3);
    block[i + 4], block[i + 5], block[i + 6], block[i + 7] := LeByte(word, 4), LeByte(word, 5), LeByte(word, 6), LeByte(word, 7);
  }

  method SqueezeBytes(state: array<Lane>, squeezable: nat, count: nat, rate: nat, table: seq<Lane>, rounds: nat)
    returns (squeezable': nat, out: seq<Byte>)
    requires state.Length == 25 && rate % 8 == 0 && rate <= 200 && 0 < squeezable <= rate
    requires |table| == 24 && (rounds == 12 || rounds == 24)
    modifies state
    ensures 0 < squeezable' <= rate && |out| == count
    ensures
      var start := Cursor(old(state[..]), 8 * (rate - squeezable));
      && BitsOf(out) == Draw(Permutation(table, rounds), 8 * rate, start, 8 * count)
      && Cursor(state[..], 8 * (rate - squeezable')) == Drawn(Permutation(table, rounds), 8 * rate, start, 8 * count)
  {
    hide BitsOf, Draw, Drawn, KeccakP, Segment, StateBytes;
    var block := new Byte[rate](_ => ZeroByte());
    ghost var f, r := Permutation(table, rounds), 8 * rate;
    ghost var start := Cursor(state[..], 8 * (rate - squeezable));
    squeezable' := squeezable;
    out := [];
    DrawNothing(f, r, start);
    while |out| < count
      invariant |out| <= count && 0 < squeezable' <= rate
      invariant BitsOf(out) == Draw(f, r, start, 8 * |out|)
      invariant Cursor(state[..], 8 * (rate - squeezable')) == Drawn(f, r, start, 8 * |out|)
      decreases count - |out|
    {
      var n := if count - |out| <= squeezable' then count - |out| else squeezable';
      var chunk := ReadChunk(state, block, rate - squeezable', n);
      StateBytesBits(state[..], rate - squeezable', n);
      DrawChunk(f, r, start, Cursor(state[..], 8 * (rate - squeezable')), out, chunk);
      out := out + chunk;
      squeezable' := squeezable' - n;
      if squeezable' == 0 {
        Permute(state, table, rounds);
        squeezable' := rate;
      }
    }
  }

  lemma DrawNothing(f: State -> State, r: nat, c: Cursor)
    requires c.pos < r <= 1600
    ensures BitsOf([]) == Draw(f, r, c, 0) && Drawn(f, r, c, 0) == c
  {
  }

  lemma DrawChunk(f: State -> State, r: nat, start: Cursor, here: Cursor, out: seq<Byte>, chunk: seq<Byte>)
    requires start.pos < r <= 1600
    requires BitsOf(out) == Draw(f, r, start, 8 * |out|) && here == Drawn(f, r, start, 8 * |out|)
    requires here.pos + 8 * |chunk| <= r && BitsOf(chunk) == Segment(here.lanes, here.pos, 8 * |chunk|)
    ensures BitsOf(out + chunk) == Draw(f, r, start, 8 * |out + chunk|)
    ensures Drawn(f, r, start, 8 * |out + chunk|) == Advance(f, r, here.lanes, here.pos + 8 * |chunk|)
  {
    hide BitsOf, Draw, Drawn, Segment;
    BitsOfAppend(out, chunk);
    DrawAppend(f, r, start, 8 * |out|, 8 * |chunk|);
    DrawWithin(f, r, here, 8 * |chunk|);
    assert 8 * |out + chunk| == 8 * |out| + 8 * |chunk|;
  }
}
