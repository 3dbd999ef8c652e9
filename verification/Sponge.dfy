/** The sponge construction of FIPS 202 (section 4) on bit strings, bit by bit and block by block. */
module Sponge {
  import opened Keccak
  import opened Octets
  import Bits

  /** The bits of a byte string, least significant bit of each byte first. */
  function BitsOf(m: seq<Byte>): (bits: BitString)
    ensures |bits| == 8 * |m|
  {
    seq(8 * |m|, i requires 0 <= i < 8 * |m| => m[i / 8][i % 8])
  }

  /** The byte string with the given bits. */
  function BytesOf(bits: BitString): (m: seq<Byte>)
    requires |bits| % 8 == 0
    ensures BitsOf(m) == bits
  {
    var m := seq<Byte>(|bits| / 8, k requires 0 <= k < |bits| / 8 => bits[8 * k..8 * k + 8]);
    BitsOfBytes(bits, m);
    m
  }

  lemma BitsOfBytes(bits: BitString, m: seq<Byte>)
    requires |bits| == 8 * |m| && forall k :: 0 <= k < |m| ==> m[k] == bits[8 * k..8 * k + 8]
    ensures BitsOf(m) == bits
  {
    forall i | 0 <= i < |bits|
      ensures BitsOf(m)[i] == bits[i]
    {
      assert i == 8 * (i / 8) + i % 8;
    }
  }

  lemma BitsOfAppend(a: seq<Byte>, b: seq<Byte>)
    ensures BitsOf(a + b) == BitsOf(a) + BitsOf(b)
  {
    forall i | 0 <= i < 8 * |a + b|
      ensures BitsOf(a + b)[i] == (BitsOf(a) + BitsOf(b))[i]
    {
      if i >= 8 * |a| {
        assert (i - 8 * |a|) / 8 == i / 8 - |a| && (i - 8 * |a|) % 8 == i % 8;
      }
    }
  }

  lemma BitsOfInjective(a: seq<Byte>, b: seq<Byte>)
    requires BitsOf(a) == BitsOf(b)
    ensures a == b
  {
    assert |BitsOf(a)| == |BitsOf(b)|;
    forall k | 0 <= k < |a|
      ensures a[k] == b[k]
    {
      forall j | 0 <= j < 8
        ensures a[k][j] == b[k][j]
      {
        var i := 8 * k + j;
        assert i / 8 == k && i % 8 == j;
        assert BitsOf(a)[i] == BitsOf(b)[i];
      }
    }
  }

  // ----- bits of the state -------------------------------------------------------------------------

  function BitAt(s: State, p: nat): bool
    requires p < 1600
  {
    s[p / 64][p % 64]
  }

  function Covered(bits: BitString, pos: nat, p: nat): bool {
    pos <= p < pos + |bits| && bits[p - pos]
  }

  /** The state with a bit string xored in from bit pos on. */
  function XorAt(s: State, pos: nat, bits: BitString): State
    requires pos + |bits| <= 1600
  {
    seq(25, w requires 0 <= w < 25 => seq(64, z requires 0 <= z < 64 => s[w][z] != Covered(bits, pos, 64 * w + z)))
  }

  function Segment(s: State, pos: nat, n: nat): BitString
    requires pos + n <= 1600
  {
    seq(n, i requires 0 <= i < n => BitAt(s, pos + i))
  }

  lemma SameState(s: State, t: State)
    requires forall w, z :: 0 <= w < 25 && 0 <= z < 64 ==> s[w][z] == t[w][z]
    ensures s == t
  {
    forall w | 0 <= w < 25
      ensures s[w] == t[w]
    {
      assert |s[w]| == 64 && |t[w]| == 64;
    }
  }

  lemma XorAtTwice(s: State, pos: nat, a: BitString, b: BitString)
    requires pos + |a| + |b| <= 1600
    ensures XorAt(XorAt(s, pos, a), pos + |a|, b) == XorAt(s, pos, a + b)
  {
    var u, v := XorAt(XorAt(s, pos, a), pos + |a|, b), XorAt(s, pos, a + b);
    forall w, z | 0 <= w < 25 && 0 <= z < 64
      ensures u[w][z] == v[w][z]
    {
      var p := 64 * w + z;
      assert u[w][z] == ((s[w][z] != Covered(a, pos, p)) != Covered(b, pos + |a|, p));
      assert v[w][z] == (s[w][z] != Covered(a + b, pos, p));
    }
    SameState(u, v);
  }

  lemma XorAtNothing(s: State, pos: nat)
    requires pos <= 1600
    ensures XorAt(s, pos, []) == s
  {
    var u := XorAt(s, pos, []);
    forall w, z | 0 <= w < 25 && 0 <= z < 64
      ensures u[w][z] == s[w][z]
    {
      assert !Covered([], pos, 64 * w + z);
    }
    SameState(u, s);
  }

  // ----- the sponge taken one bit at a time ------------------------------------------------------------

  /** A sponge state and the next bit of its rate part to be used. */
  datatype Cursor = Cursor(lanes: State, pos: nat)

  function Advance(f: State -> State, r: nat, s: State, pos: nat): (c: Cursor)
    requires 0 < r && pos <= r
    ensures c.pos < r
  {
    if pos == r then Cursor(f(s), 0) else Cursor(s, pos)
  }

  function Absorb(f: State -> State, r: nat, c: Cursor, bits: BitString): (d: Cursor)
    requires c.pos < r <= 1600
    ensures d.pos < r
    decreases |bits|
  {
    if bits == [] then c
    else Absorb(f, r, Advance(f, r, XorAt(c.lanes, c.pos, [bits[0]]), c.pos + 1), bits[1..])
  }

  lemma {:induction false} AbsorbAppend(f: State -> State, r: nat, c: Cursor, a: BitString, b: BitString)
    requires c.pos < r <= 1600
    ensures Absorb(f, r, c, a + b) == Absorb(f, r, Absorb(f, r, c, a), b)
    decreases |a|
  {
    hide XorAt;
    if a == [] {
      assert a + b == b;
    } else {
      assert (a + b)[1..] == a[1..] + b;
      AbsorbAppend(f, r, Advance(f, r, XorAt(c.lanes, c.pos, [a[0]]), c.pos + 1), a[1..], b);
    }
  }

  /** As long as the rate part is not left, absorbing is one xor. */
  lemma {:induction false} AbsorbWithin(f: State -> State, r: nat, c: Cursor, bits: BitString)
    requires c.pos < r <= 1600 && c.pos + |bits| <= r
    ensures Absorb(f, r, c, bits) == Advance(f, r, XorAt(c.lanes, c.pos, bits), c.pos + |bits|)
    decreases |bits|
  {
    hide XorAt;
    if bits == [] {
      XorAtNothing(c.lanes, c.pos);
    } else {
      var s := XorAt(c.lanes, c.pos, [bits[0]]);
      assert [bits[0]] + bits[1..] == bits;
      XorAtTwice(c.lanes, c.pos, [bits[0]], bits[1..]);
      if c.pos + 1 < r {
        AbsorbWithin(f, r, Cursor(s, c.pos + 1), bits[1..]);
      } else {
        assert bits[1..] == [];
        XorAtNothing(s, c.pos + 1);
      }
    }
  }

  lemma {:induction false} AbsorbPosition(f: State -> State, r: nat, c: Cursor, bits: BitString)
    requires c.pos < r <= 1600
    ensures Absorb(f, r, c, bits).pos == (c.pos + |bits|) % r
    decreases |bits|
  {
    hide XorAt;
    if bits != [] {
      AbsorbPosition(f, r, Advance(f, r, XorAt(c.lanes, c.pos, [bits[0]]), c.pos + 1), bits[1..]);
      if c.pos + 1 == r {
        assert (c.pos + |bits|) % r == (|bits| - 1) % r by { ModShift(|bits| - 1, r); }
      }
    } else {
      assert c.pos % r == c.pos;
    }
  }

  lemma ModShift(a: nat, r: nat)
    requires 0 < r
    ensures (a + r) % r == a % r
  {
    var q := a / r;
    assert a == q * r + a % r;
    assert a + r == (q + 1) * r + a % r;
    ModUnique(a + r, r, q + 1, a % r);
  }

  lemma ModUnique(a: nat, r: nat, q: nat, m: nat)
    requires 0 < r && m < r && a == q * r + m
    ensures a % r == m
  {
    Bits.DivModUnique(a, r, q, m);
  }

  function Draw(f: State -> State, r: nat, c: Cursor, n: nat): (out: BitString)
    requires c.pos < r <= 1600
    ensures |out| == n
    decreases n
  {
    if n == 0 then [] else [BitAt(c.lanes, c.pos)] + Draw(f, r, Advance(f, r, c.lanes, c.pos + 1), n - 1)
  }

  function Drawn(f: State -> State, r: nat, c: Cursor, n: nat): (d: Cursor)
    requires c.pos < r <= 1600
    ensures d.pos < r
    decreases n
  {
    if n == 0 then c else Drawn(f, r, Advance(f, r, c.lanes, c.pos + 1), n - 1)
  }

  lemma {:induction false} DrawAppend(f: State -> State, r: nat, c: Cursor, m: nat, n: nat)
    requires c.pos < r <= 1600
    ensures Drawn(f, r, c, m + n) == Drawn(f, r, Drawn(f, r, c, m), n)
    ensures Draw(f, r, c, m + n) == Draw(f, r, c, m) + Draw(f, r, Drawn(f, r, c, m), n)
    decreases m
  {
    hide BitAt, Advance;
    if m > 0 {
      var e := Advance(f, r, c.lanes, c.pos + 1);
      DrawAppend(f, r, e, m - 1, n);
      assert m + n > 0;
      assert Draw(f, r, c, m + n) == [BitAt(c.lanes, c.pos)] + Draw(f, r, e, m + n - 1);
      assert Draw(f, r, c, m) == [BitAt(c.lanes, c.pos)] + Draw(f, r, e, m - 1);
    } else {
      assert [] + Draw(f, r, c, n) == Draw(f, r, c, n);
    }
  }

  /** As long as the rate part is not left, squeezing reads one segment of it. */
  lemma {:induction false} DrawWithin(f: State -> State, r: nat, c: Cursor, n: nat)
    requires c.pos < r <= 1600 && c.pos + n <= r
    ensures Draw(f, r, c, n) == Segment(c.lanes, c.pos, n)
    ensures Drawn(f, r, c, n) == Advance(f, r, c.lanes, c.pos + n)
    decreases n
  {
    hide BitAt;
    if n > 0 {
      if c.pos + 1 < r {
        DrawWithin(f, r, Cursor(c.lanes, c.pos + 1), n - 1);
      }
      assert Segment(c.lanes, c.pos, n) == [BitAt(c.lanes, c.pos)] + Segment(c.lanes, c.pos + 1, n - 1);
    }
  }

  // ----- the sponge taken one block at a time (Algorithm 8 of FIPS 202) ----------------------------------

  /** How many zeros pad10*1 puts between its two ones. */
  function Fill(x: nat, m: nat): (j: nat)
    requires 0 < x
    ensures (m + 2 + j) % x == 0 && j < x
  {
    FillExact(x, m);
    if (m + 2) % x == 0 then 0 else x - (m + 2) % x
  }

  lemma FillExact(x: nat, m: nat)
    requires 0 < x
    ensures (m + 2) % x != 0 ==> (m + 2 + (x - (m + 2) % x)) % x == 0
  {
    var q := (m + 2) / x;
    assert m + 2 == q * x + (m + 2) % x;
    if (m + 2) % x != 0 {
      assert m + 2 + (x - (m + 2) % x) == (q + 1) * x + 0;
      ModUnique(m + 2 + (x - (m + 2) % x), x, q + 1, 0);
    }
  }

  /** Algorithm 9 of FIPS 202. */
  function Pad101(x: nat, m: nat): (p: BitString)
    requires 0 < x
    ensures |p| >= 2 && p[0] && p[|p| - 1] && forall i :: 0 < i < |p| - 1 ==> !p[i]
    ensures |p| == Fill(x, m) + 2
  {
    [true] + seq(Fill(x, m), _ => false) + [true]
  }

  function Zeros(): State {
    seq(25, _ => seq(64, _ => false))
  }

  function Blocks(f: State -> State, r: nat, s: State, p: BitString): State
    requires 0 < r <= 1600 && |p| % r == 0
    decreases |p|
  {
    if p == [] then s
    else
      BlockFits(|p|, r);
      Blocks(f, r, f(XorAt(s, 0, p[..r])), p[r..])
  }

  lemma BlockFits(n: nat, r: nat)
    requires 0 < r && n > 0 && n % r == 0
    ensures r <= n && (n - r) % r == 0
  {
    if n >= r {
      ModShift(n - r, r);
    }
  }

  function Squeeze(f: State -> State, r: nat, s: State, d: nat): BitString
    requires 0 < r <= 1600
    decreases d
  {
    if d <= r then Segment(s, 0, d) else Segment(s, 0, r) + Squeeze(f, r, f(s), d - r)
  }

  /** SPONGE[f, pad10*1, r](n, d). */
  function OneShot(f: State -> State, r: nat, n: BitString, d: nat): BitString
    requires 0 < r <= 1600
  {
    Squeeze(f, r, Blocks(f, r, Zeros(), n + Pad101(r, |n|)), d)
  }

  /** Absorbing whole blocks bit by bit is the block loop. */
  lemma {:induction false} AbsorbIsBlocks(f: State -> State, r: nat, s: State, p: BitString)
    requires 0 < r <= 1600 && |p| % r == 0
    ensures Absorb(f, r, Cursor(s, 0), p) == Cursor(Blocks(f, r, s, p), 0)
    decreases |p|
  {
    hide XorAt;
    if p != [] {
      BlockFits(|p|, r);
      AbsorbWithin(f, r, Cursor(s, 0), p[..r]);
      AbsorbAppend(f, r, Cursor(s, 0), p[..r], p[r..]);
      assert p[..r] + p[r..] == p;
      AbsorbIsBlocks(f, r, f(XorAt(s, 0, p[..r])), p[r..]);
    }
  }

  /** Squeezing bit by bit is the block loop. */
  lemma {:induction false} DrawIsSqueeze(f: State -> State, r: nat, s: State, d: nat)
    requires 0 < r <= 1600
    ensures Draw(f, r, Cursor(s, 0), d) == Squeeze(f, r, s, d)
    decreases d
  {
    hide Segment;
    if d <= r {
      DrawWithin(f, r, Cursor(s, 0), d);
    } else {
      DrawWithin(f, r, Cursor(s, 0), r);
      DrawAppend(f, r, Cursor(s, 0), r, d - r);
      DrawIsSqueeze(f, r, f(s), d - r);
    }
  }
}
