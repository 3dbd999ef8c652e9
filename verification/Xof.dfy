/** SHAKE objects: absorb, finalize and squeeze in any order of calls, and the one-shot function they compute. */
module Xof {
  import opened Keccak
  import opened Octets
  import opened KeccakCode
  import opened Sponge
  import opened SpongeCode

  /** What distinguishes one extendable-output function from another. */
  datatype Kind = Kind(rate: nat, ds: BitString, rounds: nat, table: seq<Lane>) {
    ghost predicate Sound() {
      && 0 < rate <= 200 && rate % 8 == 0 && |ds| <= 6 && |table| == 24 && (rounds == 12 || rounds == 24)
    }

    ghost function F(): State -> State
      requires Sound()
    {
      Permutation(table, rounds)
    }

    ghost function R(): (r: nat)
      requires Sound()
      ensures 0 < r <= 1600
    {
      8 * rate
    }
  }

  // ----- one call ----------------------------------------------------------------------------------------

  datatype Status = Status(cursor: Cursor, finalized: bool)

  ghost function Start(): Status {
    Status(Cursor(Zeros(), 0), false)
  }

  ghost predicate Ready(kind: Kind, x: Status) {
    kind.Sound() && x.cursor.pos < kind.R()
  }

  ghost function AfterAbsorb(kind: Kind, x: Status, msg: seq<Byte>): (y: Status)
    requires Ready(kind, x)
    ensures Ready(kind, y)
  {
    if x.finalized then x else Status(Sponge.Absorb(kind.F(), kind.R(), x.cursor, BitsOf(msg)), false)
  }

  ghost function AfterFinalize(kind: Kind, x: Status): (y: Status)
    requires Ready(kind, x)
    ensures Ready(kind, y) && y.finalized
  {
    if x.finalized then x
    else
      var tail := kind.ds + Pad101(kind.R(), x.cursor.pos + |kind.ds|);
      Status(Sponge.Absorb(kind.F(), kind.R(), x.cursor, tail), true)
  }

  ghost function AfterSqueeze(kind: Kind, x: Status, count: nat): (y: Status)
    requires Ready(kind, x)
    ensures Ready(kind, y)
  {
    if x.finalized then Status(Drawn(kind.F(), kind.R(), x.cursor, 8 * count), true) else x
  }

  /** The bits a squeeze of count bytes writes; before finalize it writes none. */
  ghost function SqueezeOutput(kind: Kind, x: Status, count: nat): (out: BitString)
    requires Ready(kind, x)
    ensures |out| == if x.finalized then 8 * count else 0
  {
    if x.finalized then Draw(kind.F(), kind.R(), x.cursor, 8 * count) else []
  }

  // ----- all sequences of calls ------------------------------------------------------------------------------

  datatype Call = CallAbsorb(msg: seq<Byte>) | CallFinalize | CallSqueeze(count: nat)

  ghost function Output(kind: Kind, x: Status, calls: seq<Call>): BitString
    requires Ready(kind, x)
    decreases |calls|
  {
    if calls == [] then []
    else match calls[0] {
      case CallAbsorb(msg) => Output(kind, AfterAbsorb(kind, x, msg), calls[1..])
      case CallFinalize => Output(kind, AfterFinalize(kind, x), calls[1..])
      case CallSqueeze(n) => SqueezeOutput(kind, x, n) + Output(kind, AfterSqueeze(kind, x, n), calls[1..])
    }
  }

  /** Everything absorbed before the first finalize. */
  function Message(calls: seq<Call>): seq<Byte> {
    if calls == [] || calls[0].CallFinalize? then []
    else if calls[0].CallAbsorb? then calls[0].msg + Message(calls[1..])
    else Message(calls[1..])
  }

  /** Bytes squeezed, counting every squeeze. */
  function Total(calls: seq<Call>): nat {
    if calls == [] then 0 else (if calls[0].CallSqueeze? then calls[0].count else 0) + Total(calls[1..])
  }

  /** Bytes squeezed after the first finalize. */
  function Demand(calls: seq<Call>): nat {
    if calls == [] then 0 else if calls[0].CallFinalize? then Total(calls[1..]) else Demand(calls[1..])
  }

  lemma {:induction false} OutputWhenFinal(kind: Kind, x: Status, calls: seq<Call>)
    requires Ready(kind, x) && x.finalized
    ensures Output(kind, x, calls) == Draw(kind.F(), kind.R(), x.cursor, 8 * Total(calls))
    decreases |calls|
  {
    hide Draw, Drawn;
    if calls == [] {
      assert Draw(kind.F(), kind.R(), x.cursor, 0) == [];
    } else {
      var rest := calls[1..];
      match calls[0]
      case CallAbsorb(msg) => OutputWhenFinal(kind, x, rest);
      case CallFinalize => OutputWhenFinal(kind, x, rest);
      case CallSqueeze(n) =>
        OutputWhenFinal(kind, AfterSqueeze(kind, x, n), rest);
        DrawAppend(kind.F(), kind.R(), x.cursor, 8 * n, 8 * Total(rest));
        assert 8 * Total(calls) == 8 * n + 8 * Total(rest);
    }
  }

  lemma {:induction false} OutputWhenOpen(kind: Kind, m: seq<Byte>, x: Status, calls: seq<Call>)
    requires kind.Sound() && Ready(kind, x) && !x.finalized
    requires x.cursor == Sponge.Absorb(kind.F(), kind.R(), Cursor(Zeros(), 0), BitsOf(m))
    ensures Output(kind, x, calls) ==
            if CallFinalize in calls then OneShot(kind.F(), kind.R(), BitsOf(m + Message(calls)) + kind.ds, 8 * Demand(calls))
            else []
    decreases |calls|
  {
    hide Draw, Drawn, Sponge.Absorb, OneShot, BitsOf;
    if calls != [] {
      var rest := calls[1..];
      match calls[0]
      case CallAbsorb(msg) =>
        BitsOfAppend(m, msg);
        AbsorbAppend(kind.F(), kind.R(), Cursor(Zeros(), 0), BitsOf(m), BitsOf(msg));
        OutputWhenOpen(kind, m + msg, AfterAbsorb(kind, x, msg), rest);
        assert m + (msg + Message(rest)) == m + msg + Message(rest);
      case CallFinalize =>
        assert m + [] == m;
        FinalIsOneShot(kind, m, x, Total(rest));
        OutputWhenFinal(kind, AfterFinalize(kind, x), rest);
      case CallSqueeze(n) =>
        OutputWhenOpen(kind, m, x, rest);
        assert [] + Output(kind, x, rest) == Output(kind, x, rest);
    }
  }

  lemma FinalIsOneShot(kind: Kind, m: seq<Byte>, x: Status, n: nat)
    requires kind.Sound() && Ready(kind, x) && !x.finalized
    requires x.cursor == Sponge.Absorb(kind.F(), kind.R(), Cursor(Zeros(), 0), BitsOf(m))
    ensures Draw(kind.F(), kind.R(), AfterFinalize(kind, x).cursor, 8 * n) ==
            OneShot(kind.F(), kind.R(), BitsOf(m) + kind.ds, 8 * n)
  {
    hide Draw, Sponge.Absorb, BitsOf, Squeeze, Blocks, Pad101;
    var f, r := kind.F(), kind.R();
    var start := Cursor(Zeros(), 0);
    AbsorbPosition(f, r, start, BitsOf(m));
    PadPeriodic(r, x.cursor.pos, 8 * |m|, |kind.ds|);
    var whole := BitsOf(m) + kind.ds;
    var pad := Pad101(r, |whole|);
    AbsorbAppend(f, r, start, BitsOf(m), kind.ds + pad);
    assert BitsOf(m) + (kind.ds + pad) == whole + pad;
    AbsorbIsBlocks(f, r, Zeros(), whole + pad);
    DrawIsSqueeze(f, r, Blocks(f, r, Zeros(), whole + pad), 8 * n);
  }

  /** The padding depends only on the position within the block. */
  lemma PadPeriodic(r: nat, pos: nat, m: nat, d: nat)
    requires 0 < r && pos == m % r
    ensures Pad101(r, pos + d) == Pad101(r, m + d)
  {
    var q, p, t := m / r, (pos + d + 2) / r, (pos + d + 2) % r;
    assert m == q * r + pos;
    assert pos + d + 2 == p * r + t;
    assert m + d + 2 == (p + q) * r + t;
    ModUnique(m + d + 2, r, p + q, t);
  }

  /** Whatever the calls, a fresh object's output is the one-shot function of what it was given. */
  lemma AnyCallsAreOneShot(kind: Kind, calls: seq<Call>)
    requires kind.Sound()
    ensures Output(kind, Start(), calls) ==
            if CallFinalize in calls then OneShot(kind.F(), kind.R(), BitsOf(Message(calls)) + kind.ds, 8 * Demand(calls))
            else []
  {
    hide OneShot;
    assert [] + Message(calls) == Message(calls);
    OutputWhenOpen(kind, [], Start(), calls);
  }

  // ----- the object --------------------------------------------------------------------------------------------

  class Hasher {
    const kind: Kind
    const state: array<Lane>
    var offset: nat
    var finalized: bool
    var squeezable: nat

    ghost predicate Valid()
      reads this, state
    {
      && kind.Sound() && state.Length == 25 && offset < kind.rate
      && if finalized then 0 < squeezable <= kind.rate else squeezable == 0
    }

    ghost function View(): (x: Status)
      requires Valid()
      reads this, state
      ensures Ready(kind, x)
    {
      Status(Cursor(state[..], if finalized then 8 * (kind.rate - squeezable) else 8 * offset), finalized)
    }

    constructor (kind: Kind)
      requires kind.Sound()
      ensures Valid() && fresh(state) && this.kind == kind
      ensures View() == Start()
    {
      this.kind := kind;
      this.state := new Lane[25](_ => Zero());
      offset := 0;
      finalized := false;
      squeezable := 0;
    }

    method Reset()
      requires Valid()
      modifies this, state
      ensures Valid()
      ensures View() == Start()
    {
      for i := 0 to 25
        invariant Valid()
        invariant forall w :: 0 <= w < i ==> state[w] == Zero()
      {
        state[i] := Zero();
      }
      offset := 0;
      finalized := false;
      squeezable := 0;
      assert state[..] == Zeros();
    }

    method Absorb(msg: seq<Byte>)
      requires Valid()
      modifies this, state
      ensures Valid()
      ensures View() == AfterAbsorb(kind, old(View()), msg)
    {
      if !finalized {
        offset := AbsorbBytes(state, offset, msg, kind.rate, kind.table, kind.rounds);
      }
    }

    method Finalize()
      requires Valid()
      modifies this, state
      ensures Valid()
      ensures View() == AfterFinalize(kind, old(View()))
    {
      if !finalized {
        offset := SpongeCode.Finalize(state, offset, kind.ds, kind.rate, kind.table, kind.rounds);
        finalized := true;
        squeezable := kind.rate;
      }
    }

    /** Fills a buffer; before finalize the buffer is left as it is. */
    method Squeeze(buffer: array<Byte>)
      requires Valid()
      modifies this, state, buffer
      ensures Valid()
      ensures View() == AfterSqueeze(kind, old(View()), buffer.Length)
      ensures if old(finalized) then BitsOf(buffer[..]) == SqueezeOutput(kind, old(View()), buffer.Length)
              else buffer[..] == old(buffer[..])
    {
      if finalized {
        var out;
        squeezable, out := SqueezeBytes(state, squeezable, buffer.Length, kind.rate, kind.table, kind.rounds);
        label Squeezed:
        for i := 0 to buffer.Length
          invariant buffer[..i] == out[..i]
          invariant unchanged@Squeezed(this, state)
        {
          buffer[i] := out[i];
        }
        assert buffer[..] == out;
      }
    }

    /** Zeroes the first bytes of the state and permutes it. */
    method Ratchet(count: nat)
      requires Valid()
      modifies state
      ensures Valid()
      ensures View() == AfterRatchet(kind, old(View()), count)
    {
      hide ZeroPrefix, KeccakP;
      if finalized {
        ClearPrefix(state, if count <= 200 then count else 200);
        Permute(state, kind.table, kind.rounds);
      }
    }
  }

  ghost function AfterRatchet(kind: Kind, x: Status, count: nat): (y: Status)
    requires Ready(kind, x)
    ensures Ready(kind, y)
  {
    if x.finalized
    then x.(cursor := Cursor(kind.F()(ZeroPrefix(x.cursor.lanes, if count <= 200 then count else 200)), x.cursor.pos))
    else x
  }

  /** The state with its first n bytes zero. */
  function ZeroPrefix(s: State, n: nat): State {
    seq(25, w requires 0 <= w < 25 => seq(64, z requires 0 <= z < 64 => 64 * w + z >= 8 * n && s[w][z]))
  }

  function ClearByte(word: Lane, k: nat): Lane
    requires k < 8
  {
    seq(64, z requires 0 <= z < 64 => !(8 * k <= z < 8 * k + 8) && word[z])
  }

  /** memset of the first n bytes. */
  method ClearPrefix(state: array<Lane>, n: nat)
    requires state.Length == 25 && n <= 200
    modifies state
    ensures state[..] == ZeroPrefix(old(state[..]), n)
  {
    hide ZeroPrefix, ClearByte;
    ghost var was: State := state[..];
    ZeroNothing(was);
    for p: nat := 0 to n
      invariant state[..] == ZeroPrefix(was, p)
    {
      ghost var s: State := state[..];
      state[p / 8] := ClearByte(state[p / 8], p % 8);
      ZeroOneMore(was, p);
      assert state[..] == s[p / 8 := ClearByte(s[p / 8], p % 8)];
    }
  }

  lemma ZeroNothing(s: State)
    ensures ZeroPrefix(s, 0) == s
  {
    SameState(ZeroPrefix(s, 0), s);
  }

  lemma ZeroOneMore(s: State, p: nat)
    requires p < 200
    ensures
      var t := ZeroPrefix(s, p);
      t[p / 8 := ClearByte(t[p / 8], p % 8)] == ZeroPrefix(s, p + 1)
  {
    var t := ZeroPrefix(s, p);
    var u, v := t[p / 8 := ClearByte(t[p / 8], p % 8)], ZeroPrefix(s, p + 1);
    assert p == 8 * (p / 8) + p % 8;
    forall w, z | 0 <= w < 25 && 0 <= z < 64
      ensures u[w][z] == v[w][z]
    {
    }
    SameState(u, v);
  }
}
