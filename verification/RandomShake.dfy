/** The byte generator over a ratcheted sponge: one stream, however it is drawn. */
module RandomShake {
  import opened Octets
  import opened Sponge
  import opened Xof
  import Bits

  // ----- the stream --------------------------------------------------------------------------------------

  /** Ratchet period: eight times the rate, in bytes. */
  function Period(kind: Kind): (n: nat)
    requires kind.rate > 0
    ensures n > 0
  {
    8 * kind.rate
  }

  /** The position in the stream of byte j of block k. */
  function Position(kind: Kind, k: nat, j: nat): nat
    requires kind.rate > 0
  {
    k * Period(kind) + j
  }

  const RATCHET_BYTES := 32

  /** The sponge once the seed has been taken in. */
  ghost function Seeded(kind: Kind, seed: seq<Byte>): (x: Status)
    requires kind.Sound()
    ensures Ready(kind, x) && x.finalized
  {
    AfterFinalize(kind, AfterAbsorb(kind, Start(), seed))
  }

  /** The sponge just before block k is squeezed out of it. */
  ghost function Before(kind: Kind, seed: seq<Byte>, k: nat): (x: Status)
    requires kind.Sound()
    ensures Ready(kind, x) && x.finalized
    decreases k, 0
  {
    if k == 0 then Seeded(kind, seed) else AfterRatchet(kind, After(kind, seed, k - 1), RATCHET_BYTES)
  }

  /** The sponge just after block k was squeezed out of it. */
  ghost function After(kind: Kind, seed: seq<Byte>, k: nat): (x: Status)
    requires kind.Sound()
    ensures Ready(kind, x) && x.finalized
    decreases k, 1
  {
    AfterSqueeze(kind, Before(kind, seed, k), Period(kind))
  }

  /** Between two blocks the first 32 bytes of the state are cleared and the state is permuted; a block is 8 rates long. */
  lemma RatchetBetweenBlocks(kind: Kind, seed: seq<Byte>, k: nat)
    requires kind.Sound()
    ensures
      var after, next := After(kind, seed, k).cursor, Before(kind, seed, k + 1).cursor;
      next == Cursor(kind.F()(ZeroPrefix(after.lanes, 32)), after.pos)
    ensures |Block(kind, seed, k)| == 8 * kind.rate
  {
    hide ZeroPrefix, AfterSqueeze;
  }

  ghost function Block(kind: Kind, seed: seq<Byte>, k: nat): (b: seq<Byte>)
    requires kind.Sound()
    ensures |b| == Period(kind)
  {
    FilledWith(kind, Before(kind, seed, k))
  }

  ghost function FilledWith(kind: Kind, x: Status): (b: seq<Byte>)
    requires Ready(kind, x) && x.finalized
    ensures |b| == Period(kind)
  {
    BytesOf(SqueezeOutput(kind, x, Period(kind)))
  }

  /** Byte p of the stream that a seed determines. */
  ghost function Stream(kind: Kind, seed: seq<Byte>, p: nat): Byte
    requires kind.Sound()
  {
    Block(kind, seed, p / Period(kind))[p % Period(kind)]
  }

  /** The n bytes of the stream from byte p on. */
  ghost function Stretch(kind: Kind, seed: seq<Byte>, p: nat, n: nat): (b: seq<Byte>)
    requires kind.Sound()
    ensures |b| == n
  {
    seq<Byte>(n, i requires 0 <= i < n => Stream(kind, seed, p + i))
  }

  lemma StreamInBlock(kind: Kind, seed: seq<Byte>, k: nat, j: nat)
    requires kind.Sound() && j < Period(kind)
    ensures Stream(kind, seed, Position(kind, k, j)) == Block(kind, seed, k)[j]
  {
    hide Block, Period;
    Bits.DivModUnique(k * Period(kind) + j, Period(kind), k, j);
  }

  // ----- results wider than a byte -----------------------------------------------------------------------------

  /** The sizes of the result types. */
  predicate IsWidth(width: nat) {
    width == 1 || width == 2 || width == 4 || width == 8
  }

  /** A draw reads inside the buffer: it is exhausted, and refilled first, or holds a whole result. */
  predicate InBounds(period: nat, offset: nat, width: nat) {
    offset == period || offset + width <= period
  }

  lemma WidthFits(kind: Kind, width: nat)
    requires kind.Sound() && IsWidth(width)
    ensures Period(kind) % width == 0 && width <= Period(kind)
  {
  }

  lemma MultiplesApart(a: nat, b: nat, width: nat)
    requires width > 0 && a % width == 0 && b % width == 0 && a < b
    ensures a + width <= b
  {
    Bits.QuotientNat(a, width);
    Bits.QuotientNat(b, width);
    if b / width <= a / width {
      Bits.MulLe(b / width, a / width, width);
    }
    Bits.MulLe(a / width + 1, b / width, width);
  }

  /** The offset of draw n of a width. */
  function DrawOffset(offset: nat, width: nat, n: nat): nat {
    offset + n * width
  }

  lemma SameResidue(offset: nat, width: nat, n: nat)
    requires width > 0
    ensures DrawOffset(offset, width, n) % width == offset % width
  {
    Bits.QuotientNat(offset, width);
    var q, r := offset / width, offset % width;
    assert (q + n) * width == q * width + n * width;
    Bits.DivModUnique(DrawOffset(offset, width, n), width, q + n, r);
  }

  /** Repeated draws of one width from an offset all stay inside the buffer exactly when the offset is a multiple of it. */
  lemma InBoundsExactly(kind: Kind, offset: nat, width: nat)
    requires kind.Sound() && IsWidth(width) && offset <= Period(kind)
    ensures (forall n: nat :: DrawOffset(offset, width, n) <= Period(kind) ==>
                              InBounds(Period(kind), DrawOffset(offset, width, n), width)) <==>
            offset % width == 0
  {
    hide Period, DrawOffset;
    WidthFits(kind, width);
    if offset % width == 0 {
      forall n: nat | DrawOffset(offset, width, n) <= Period(kind)
        ensures InBounds(Period(kind), DrawOffset(offset, width, n), width)
      {
        SameResidue(offset, width, n);
        if DrawOffset(offset, width, n) < Period(kind) {
          MultiplesApart(DrawOffset(offset, width, n), Period(kind), width);
        }
      }
    } else {
      var n := LastDraw(offset, Period(kind), width);
      SameResidue(offset, width, n);
      assert !InBounds(Period(kind), DrawOffset(offset, width, n), width);
    }
  }

  lemma LastDraw(offset: nat, period: nat, width: nat) returns (n: nat)
    requires width > 0 && offset <= period
    ensures DrawOffset(offset, width, n) <= period < DrawOffset(offset, width, n) + width
  {
    Bits.QuotientNat(period - offset, width);
    n := (period - offset) / width;
  }

  // ----- the generator ---------------------------------------------------------------------------------------

  class Generator {
    const hasher: Hasher
    const buffer: array<Byte>
    var offset: nat
    /** The seed, the number of the block in the buffer, and how many bytes have been drawn. */
    ghost const seed: seq<Byte>
    ghost var block: nat
    ghost var drawn: nat

    ghost predicate Valid()
      reads this, hasher, hasher.state, buffer
    {
      && hasher.Valid() && offset <= buffer.Length == Period(hasher.kind)
      && hasher.View() == After(hasher.kind, seed, block)
      && buffer[..] == Block(hasher.kind, seed, block)
      && drawn == Position(hasher.kind, block, offset)
    }

    constructor (kind: Kind, seed: seq<Byte>)
      requires kind.Sound()
      ensures Valid() && fresh(hasher) && fresh(hasher.state) && fresh(buffer)
      ensures hasher.kind == kind && this.seed == seed && drawn == 0
    {
      hasher := new Hasher(kind);
      buffer := new Byte[Period(kind)](_ => ZeroByte());
      offset := 0;
      this.seed := seed;
      block := 0;
      drawn := 0;
      new;
      hide AfterAbsorb, AfterFinalize, AfterSqueeze, BitsOf, Draw;
      hasher.Reset();
      hasher.Absorb(seed);
      hasher.Finalize();
      hasher.Squeeze(buffer);
      BlockIs(kind, seed, 0, buffer[..]);
    }

    /** Ratchets, then refills the buffer with the next block. */
    method Refill()
      requires Valid() && offset == buffer.Length
      modifies this`offset, this`block, hasher, hasher.state, buffer
      ensures Valid() && offset == 0 && drawn == old(drawn) && block == old(block) + 1
    {
      hide AfterRatchet, AfterSqueeze, BitsOf, Draw, Block;
      hasher.Ratchet(RATCHET_BYTES);
      hasher.Squeeze(buffer);
      BlockIs(hasher.kind, seed, block + 1, buffer[..]);
      offset := 0;
      assert (block + 1) * Period(hasher.kind) == block * Period(hasher.kind) + Period(hasher.kind);
      block := block + 1;
    }

    /** Draws the bytes of one result of the given width; an exhausted buffer is refilled first. */
    method Next(width: nat) returns (result: seq<Byte>)
      requires Valid() && IsWidth(width) && InBounds(Period(hasher.kind), offset, width)
      modifies this, hasher, hasher.state, buffer
      ensures Valid() && drawn == old(drawn) + width
      ensures result == Stretch(hasher.kind, seed, old(drawn), width)
      ensures old(offset) < buffer.Length ==> block == old(block) && offset == old(offset) + width
    {
      hide After, Block, Stream, Period;
      ghost var position := drawn;
      WidthFits(hasher.kind, width);
      if buffer.Length - offset == 0 {
        Refill();
      }
      result := buffer[offset..offset + width];
      assert result == buffer[..][offset..offset + width];
      StretchInBlock(hasher.kind, seed, block, buffer[..], offset, width);
      assert drawn == position;
      offset := offset + width;
      drawn := drawn + width;
    }

    /** Draws as many bytes as the output holds; an exhausted buffer is refilled at once. */
    method Generate(output: array<Byte>)
      requires Valid() && output != buffer && output as object != hasher.state
      modifies this, hasher, hasher.state, buffer, output
      ensures Valid() && drawn == old(drawn) + output.Length
      ensures output[..] == Stretch(hasher.kind, seed, old(drawn), output.Length)
    {
      hide After, Block, Stream, Period;
      var done: nat := 0;
      while done < output.Length
        invariant done <= output.Length && Valid() && drawn == old(drawn) + done
        invariant output[..done] == Stretch(hasher.kind, seed, old(drawn), done)
        decreases output.Length - done, if offset == buffer.Length then 1 else 0
      {
        var n := if output.Length - done <= buffer.Length - offset then output.Length - done else buffer.Length - offset;
        CopyOut(output, done, n);
        StretchGrows(hasher.kind, seed, old(drawn), done, n, output[..done + n]);
        offset := offset + n;
        drawn := drawn + n;
        done := done + n;
        if offset == buffer.Length {
          Refill();
        }
      }
      assert output[..done] == output[..];
    }

    /** Copies the next n bytes of the buffer to the output. */
    method CopyOut(output: array<Byte>, done: nat, n: nat)
      requires Valid() && output != buffer && output as object != hasher.state
      requires done + n <= output.Length && offset + n <= buffer.Length
      modifies output
      ensures Valid()
      ensures output[..done] == old(output[..done])
      ensures output[done..done + n] == Stretch(hasher.kind, seed, drawn, n)
    {
      hide After, Block, Stream, Period;
      for i: nat := 0 to n
        invariant Valid()
        invariant output[..done] == old(output[..done])
        invariant output[done..done + i] == buffer[offset..offset + i]
      {
        output[done + i] := buffer[offset + i];
        assert output[done..done + i + 1] == output[done..done + i] + [buffer[offset + i]];
      }
      StretchInBlock(hasher.kind, seed, block, buffer[..], offset, n);
      assert buffer[offset..offset + n] == buffer[..][offset..offset + n];
    }
  }

  /**
   * From an offset that is no multiple of the width, repeated draws of that width follow the stream until the bytes left
   * in the buffer are too few for one more.
   */
  method DrawUntilTooFew(g: Generator, width: nat) returns (results: seq<Byte>)
    requires g.Valid() && IsWidth(width) && g.offset % width != 0
    modifies g, g.hasher, g.hasher.state, g.buffer
    ensures g.Valid() && g.block == old(g.block)
    ensures results == Stretch(g.hasher.kind, g.seed, old(g.drawn), |results|) && g.drawn == old(g.drawn) + |results|
    ensures 0 < Period(g.hasher.kind) - g.offset < width && !InBounds(Period(g.hasher.kind), g.offset, width)
  {
    hide After, Block, Stream, Period, Stretch;
    WidthFits(g.hasher.kind, width);
    results := [];
    ghost var position, block := g.drawn, g.block;
    assert results == Stretch(g.hasher.kind, g.seed, position, 0) by { EmptyStretch(g.hasher.kind, g.seed, position); }
    while InBounds(g.buffer.Length, g.offset, width)
      invariant g.Valid() && g.offset % width != 0 && g.block == block
      invariant results == Stretch(g.hasher.kind, g.seed, position, |results|) && g.drawn == position + |results|
      decreases g.buffer.Length - g.offset
    {
      ghost var offset := g.offset;
      NotFull(g.buffer.Length, offset, width);
      var result := g.Next(width);
      StretchGrows(g.hasher.kind, g.seed, position, |results|, width, results + result);
      SameResidue(offset, width, 1);
      results := results + result;
    }
  }

  lemma EmptyStretch(kind: Kind, seed: seq<Byte>, p: nat)
    requires kind.Sound()
    ensures Stretch(kind, seed, p, 0) == []
  {
  }

  lemma NotFull(period: nat, offset: nat, width: nat)
    requires width > 0 && period % width == 0 && offset % width != 0
    ensures offset != period
  {
  }

  /** One byte drawn eagerly from a new generator, then eight-byte results, as long as the buffer allows. */
  method UnalignedLeaves(g: Generator, output: array<Byte>) returns (results: seq<Byte>)
    requires g.Valid() && g.drawn == 0 && output.Length == 1 && output != g.buffer && output as object != g.hasher.state
    modifies g, g.hasher, g.hasher.state, g.buffer, output
    ensures g.Valid() && [output[0]] + results == Stretch(g.hasher.kind, g.seed, 0, 1 + |results|)
    ensures g.drawn == 1 + |results| && 0 < Period(g.hasher.kind) - g.offset < 8
    ensures !InBounds(Period(g.hasher.kind), g.offset, 8)
  {
    hide After, Block, Stream, Stretch;
    AtStart(g.hasher.kind, g.block, g.offset);
    g.Generate(output);
    AfterOne(g.hasher.kind, g.block, g.offset);
    results := DrawUntilTooFew(g, 8);
    assert [output[0]] == output[..];
    StretchGrows(g.hasher.kind, g.seed, 0, 1, |results|, [output[0]] + results);
  }

  lemma AtStart(kind: Kind, block: nat, offset: nat)
    requires kind.Sound() && Position(kind, block, offset) == 0
    ensures block == 0 && offset == 0
  {
    if block > 0 {
      Bits.MulLe(1, block, Period(kind));
    }
  }

  lemma AfterOne(kind: Kind, block: nat, offset: nat)
    requires kind.Sound() && offset <= Period(kind) && Position(kind, block, offset) == 1
    ensures offset % 8 == 1
  {
    if block > 0 {
      Bits.MulLe(1, block, Period(kind));
    }
  }

  lemma StretchGrows(kind: Kind, seed: seq<Byte>, p: nat, m: nat, n: nat, out: seq<Byte>)
    requires kind.Sound() && |out| == m + n
    requires out[..m] == Stretch(kind, seed, p, m) && out[m..] == Stretch(kind, seed, p + m, n)
    ensures out == Stretch(kind, seed, p, m + n)
  {
    hide Stream;
    forall i | 0 <= i < m + n
      ensures out[i] == Stream(kind, seed, p + i)
    {
      if i < m {
        assert out[i] == out[..m][i];
      } else {
        assert out[i] == out[m..][i - m];
      }
    }
  }

  lemma StretchInBlock(kind: Kind, seed: seq<Byte>, k: nat, b: seq<Byte>, j: nat, n: nat)
    requires kind.Sound() && b == Block(kind, seed, k) && j + n <= |b|
    ensures b[j..j + n] == Stretch(kind, seed, Position(kind, k, j), n)
  {
    hide Block, Stream, Period;
    var s := Stretch(kind, seed, Position(kind, k, j), n);
    forall i | 0 <= i < n
      ensures s[i] == b[j..j + n][i]
    {
      StreamInBlock(kind, seed, k, j + i);
    }
  }

  lemma BlockIs(kind: Kind, seed: seq<Byte>, k: nat, b: seq<Byte>)
    requires kind.Sound() && BitsOf(b) == SqueezeOutput(kind, Before(kind, seed, k), Period(kind))
    ensures b == Block(kind, seed, k)
  {
    hide BitsOf;
    BitsOfInjective(b, Block(kind, seed, k));
  }
}
