/** The field GF(2^8) modulo 0x11D of ISO/IEC 18004: bytes multiplied as polynomials. */
module GaloisField {
  import opened Octets

  function Add(a: Byte, b: Byte): Byte {
    seq(8, i requires 0 <= i < 8 => a[i] != b[i])
  }

  /** `(z << 1) ^ ((z >> 7) * 0x11D)` cut to a byte: multiplication by x. */
  function XTime(z: Byte): Byte {
    [z[7], z[0], z[1] != z[7], z[2] != z[7], z[3] != z[7], z[4], z[5], z[6]]
  }

  function One(): Byte {
    [true, false, false, false, false, false, false, false]
  }

  /** Multiplication by a single bit. */
  function When(bit: bool, a: Byte): Byte {
    if bit then a else ZeroByte()
  }

  /** a times the polynomial whose coefficients are the bits of y from bit i on. */
  function MulFrom(a: Byte, y: Byte, i: nat): Byte
    requires i <= 8
    decreases 8 - i
  {
    if i == 8 then ZeroByte() else Add(When(y[i], a), XTime(MulFrom(a, y, i + 1)))
  }

  function Mul(a: Byte, y: Byte): Byte {
    MulFrom(a, y, 0)
  }

  // ----- addition -----------------------------------------------------------------------------------------

  lemma AddLaws(a: Byte, b: Byte, c: Byte)
    ensures Add(a, b) == Add(b, a)
    ensures Add(Add(a, b), c) == Add(a, Add(b, c))
    ensures Add(a, ZeroByte()) == a && Add(ZeroByte(), a) == a && Add(a, a) == ZeroByte()
  {
  }

  lemma AddSwap(a: Byte, b: Byte, c: Byte, d: Byte)
    ensures Add(Add(a, b), Add(c, d)) == Add(Add(a, c), Add(b, d))
  {
  }

  lemma XTimeAdds(a: Byte, b: Byte)
    ensures XTime(Add(a, b)) == Add(XTime(a), XTime(b))
    ensures XTime(ZeroByte()) == ZeroByte()
  {
  }

  // ----- multiplication is bilinear ---------------------------------------------------------------------------

  lemma WhenAdds(x: bool, y: bool, a: Byte, b: Byte)
    ensures When(x, Add(a, b)) == Add(When(x, a), When(x, b))
    ensures When(x != y, a) == Add(When(x, a), When(y, a))
    ensures When(x, XTime(a)) == XTime(When(x, a))
  {
  }

  lemma {:induction false} AddsLeft(a: Byte, b: Byte, y: Byte, i: nat)
    requires i <= 8
    ensures MulFrom(Add(a, b), y, i) == Add(MulFrom(a, y, i), MulFrom(b, y, i))
    decreases 8 - i
  {
    hide Add, XTime, When, ZeroByte;
    AddLaws(ZeroByte(), ZeroByte(), ZeroByte());
    if i < 8 {
      AddsLeft(a, b, y, i + 1);
      XTimeAdds(MulFrom(a, y, i + 1), MulFrom(b, y, i + 1));
      WhenAdds(y[i], false, a, b);
      AddSwap(When(y[i], a), When(y[i], b), XTime(MulFrom(a, y, i + 1)), XTime(MulFrom(b, y, i + 1)));
    }
  }

  lemma {:induction false} AddsRight(a: Byte, y: Byte, z: Byte, i: nat)
    requires i <= 8
    ensures MulFrom(a, Add(y, z), i) == Add(MulFrom(a, y, i), MulFrom(a, z, i))
    decreases 8 - i
  {
    hide XTime, When, ZeroByte;
    AddLaws(ZeroByte(), ZeroByte(), ZeroByte());
    if i < 8 {
      AddsRight(a, y, z, i + 1);
      assert Add(y, z)[i] == (y[i] != z[i]);
      hide Add;
      XTimeAdds(MulFrom(a, y, i + 1), MulFrom(a, z, i + 1));
      WhenAdds(y[i], z[i], a, a);
      AddSwap(When(y[i], a), When(z[i], a), XTime(MulFrom(a, y, i + 1)), XTime(MulFrom(a, z, i + 1)));
    }
  }

  lemma {:induction false} XTimeLeft(a: Byte, y: Byte, i: nat)
    requires i <= 8
    ensures MulFrom(XTime(a), y, i) == XTime(MulFrom(a, y, i))
    decreases 8 - i
  {
    hide Add, XTime, When, ZeroByte;
    XTimeAdds(ZeroByte(), ZeroByte());
    if i < 8 {
      XTimeLeft(a, y, i + 1);
      WhenAdds(y[i], false, a, a);
      XTimeAdds(When(y[i], a), XTime(MulFrom(a, y, i + 1)));
    }
  }

  lemma {:induction false} ZeroLeft(y: Byte, i: nat)
    requires i <= 8
    ensures MulFrom(ZeroByte(), y, i) == ZeroByte()
    decreases 8 - i
  {
    hide Add, XTime, ZeroByte;
    XTimeAdds(ZeroByte(), ZeroByte());
    AddLaws(ZeroByte(), ZeroByte(), ZeroByte());
    if i < 8 {
      ZeroLeft(y, i + 1);
    }
  }

  lemma {:induction false} ZeroRight(a: Byte, i: nat)
    requires i <= 8
    ensures MulFrom(a, ZeroByte(), i) == ZeroByte()
    decreases 8 - i
  {
    hide Add, XTime;
    XTimeAdds(ZeroByte(), ZeroByte());
    AddLaws(ZeroByte(), ZeroByte(), ZeroByte());
    if i < 8 {
      ZeroRight(a, i + 1);
    }
  }

  // ----- multiplication is commutative ------------------------------------------------------------------------

  /** The bits of y from bit i on, moved down. */
  function Tail(y: Byte, i: nat): Byte
    requires i <= 8
    decreases 8 - i
  {
    if i == 8 then ZeroByte() else Add(When(y[i], One()), XTime(Tail(y, i + 1)))
  }

  lemma ShiftedUp(t: Byte, k: nat)
    requires !t[7] && k < 8
    ensures XTime(t)[k] == (k > 0 && t[k - 1])
  {
  }

  lemma {:induction false} TailBit(y: Byte, i: nat, k: nat)
    requires i <= 8 && k < 8
    ensures Tail(y, i)[k] == (i + k < 8 && y[i + k])
    decreases 8 - i
  {
    hide When, One, Add, XTime;
    if i < 8 {
      var t := Tail(y, i + 1);
      TailBit(y, i + 1, 7);
      if k > 0 {
        TailBit(y, i + 1, k - 1);
      }
      ShiftedUp(t, k);
      SumBit(When(y[i], One()), XTime(t), k);
      OneBit(y[i], k);
    }
  }

  lemma SumBit(a: Byte, b: Byte, k: nat)
    requires k < 8
    ensures Add(a, b)[k] == (a[k] != b[k])
  {
  }

  lemma OneBit(b: bool, k: nat)
    requires k < 8
    ensures When(b, One())[k] == (b && k == 0)
  {
  }

  lemma TailIs(y: Byte)
    ensures Tail(y, 0) == y
  {
    hide Tail;
    forall k | 0 <= k < 8
      ensures Tail(y, 0)[k] == y[k]
    {
      TailBit(y, 0, k);
    }
  }

  lemma {:induction false} OneTimes(y: Byte, i: nat)
    requires i <= 8
    ensures MulFrom(One(), y, i) == Tail(y, i)
    decreases 8 - i
  {
    hide Add, XTime, When, One;
    if i < 8 {
      OneTimes(y, i + 1);
    }
  }

  lemma OneLeft(y: Byte)
    ensures Mul(One(), y) == y
  {
    hide Tail, MulFrom, One;
    OneTimes(y, 0);
    TailIs(y);
  }

  lemma {:induction false} Turned(a: Byte, y: Byte, i: nat)
    requires i <= 8
    ensures MulFrom(a, y, i) == Mul(Tail(y, i), a)
    decreases 8 - i
  {
    hide Add, XTime, One, ZeroByte;
    if i == 8 {
      ZeroLeft(a, 0);
    } else {
      Turned(a, y, i + 1);
      AddsLeft(When(y[i], One()), XTime(Tail(y, i + 1)), a, 0);
      XTimeLeft(Tail(y, i + 1), a, 0);
      OneLeft(a);
      ZeroLeft(a, 0);
    }
  }

  lemma Commutes(a: Byte, y: Byte)
    ensures Mul(a, y) == Mul(y, a)
  {
    hide Tail, MulFrom;
    Turned(a, y, 0);
    TailIs(y);
  }

  // ----- multiplication is associative and distributes ----------------------------------------------------------

  lemma XTimeRight(a: Byte, y: Byte)
    ensures Mul(a, XTime(y)) == XTime(Mul(a, y))
  {
    hide XTime, MulFrom;
    Commutes(a, XTime(y));
    Commutes(a, y);
    XTimeLeft(y, a, 0);
  }

  lemma {:induction false} AssociatesFrom(a: Byte, b: Byte, c: Byte, i: nat)
    requires i <= 8
    ensures MulFrom(Mul(a, b), c, i) == Mul(a, MulFrom(b, c, i))
    decreases 8 - i
  {
    hide Add, XTime, ZeroByte, Mul;
    ZeroRight(a, 0);
    assert Mul(a, ZeroByte()) == ZeroByte() by { MulIs(a, ZeroByte()); }
    if i < 8 {
      AssociatesFrom(a, b, c, i + 1);
      XTimeRight(a, MulFrom(b, c, i + 1));
      var u, v := When(c[i], b), XTime(MulFrom(b, c, i + 1));
      AddsRight(a, u, v, 0);
      MulIs(a, u);
      MulIs(a, v);
      MulIs(a, Add(u, v));
    }
  }

  lemma MulIs(a: Byte, b: Byte)
    ensures Mul(a, b) == MulFrom(a, b, 0)
  {
  }

  lemma Associates(a: Byte, b: Byte, c: Byte)
    ensures Mul(Mul(a, b), c) == Mul(a, Mul(b, c))
  {
    hide MulFrom;
    AssociatesFrom(a, b, c, 0);
  }

  lemma Distributes(a: Byte, b: Byte, c: Byte)
    ensures Mul(a, Add(b, c)) == Add(Mul(a, b), Mul(a, c))
    ensures Mul(Add(b, c), a) == Add(Mul(b, a), Mul(c, a))
    ensures Mul(a, ZeroByte()) == ZeroByte() && Mul(ZeroByte(), a) == ZeroByte()
    ensures Mul(a, One()) == a && Mul(One(), a) == a
  {
    hide MulFrom, Add, One, ZeroByte;
    AddsRight(a, b, c, 0);
    AddsLeft(b, c, a, 0);
    ZeroRight(a, 0);
    ZeroLeft(a, 0);
    OneLeft(a);
    Commutes(a, One());
  }

  // ----- the code --------------------------------------------------------------------------------------------

  /** Russian peasant multiplication from the top bit of y down. */
  method Multiply(x: Byte, y: Byte) returns (z: Byte)
    ensures z == Mul(x, y)
  {
    hide Add, XTime;
    z := ZeroByte();
    var i: nat := 8;
    while i > 0
      invariant i <= 8 && z == MulFrom(x, y, i)
    {
      i := i - 1;
      AddLaws(XTime(z), When(y[i], x), z);
      z := XTime(z);
      z := Add(z, When(y[i], x));
    }
  }
}
