/** The masks, shifts and ors that pack l-bit coefficients into bytes, group by group. */
module BitFields {
  import opened Integers
  import opened Bits
  import opened Radix

  /** `(x >> off) & mask` for a mask of w ones; truncation to a byte is the case w = 8. */
  function Field(x: nat, off: nat, w: nat): nat {
    Band(Shr(x, off), Pow2(w) - 1)
  }

  function Shr(x: nat, n: nat): nat {
    QuotientNat(x, Pow2(n));
    x / Pow2(n)
  }

  lemma FieldMeans(x: nat, off: nat, w: nat)
    ensures Field(x, off, w) == x / Pow2(off) % Pow2(w)
  {
    hide Pow2, Band;
    BandMask(Shr(x, off), w);
  }

  /** `(high << n) | low`; the two fields do not overlap when low < 2^n. */
  function Join(high: nat, n: nat, low: nat): (r: nat)
    ensures n == 1 && low < 2 ==> r == 2 * high + low
    ensures n == 2 && low < 4 ==> r == 4 * high + low
    ensures n == 3 && low < 8 ==> r == 8 * high + low
    ensures n == 4 && low < 16 ==> r == 16 * high + low
    ensures n == 5 && low < 32 ==> r == 32 * high + low
    ensures n == 6 && low < 64 ==> r == 64 * high + low
    ensures n == 7 && low < 128 ==> r == 128 * high + low
    ensures n == 8 && low < 256 ==> r == 256 * high + low
    ensures n == 9 && low < 512 ==> r == 512 * high + low
    ensures n == 10 && low < 1024 ==> r == 1024 * high + low
  {
    hide Pow2, Bor;
    Pow2Values();
    assert low < Pow2(n) ==> Bor(high * Pow2(n), low) == high * Pow2(n) + low by {
      if low < Pow2(n) { BorDisjoint(high, n, low); }
    }
    Bor(high * Pow2(n), low)
  }

  // ----- coefficients to bytes -----------------------------------------------------------------

  function Pack1(t: seq<nat>): seq<nat>
    requires |t| == 8
  {
    [Join(Field(t[7], 0, 1), 7, Join(Field(t[6], 0, 1), 6, Join(Field(t[5], 0, 1), 5,
      Join(Field(t[4], 0, 1), 4, Join(Field(t[3], 0, 1), 3, Join(Field(t[2], 0, 1), 2,
        Join(Field(t[1], 0, 1), 1, Field(t[0], 0, 1))))))))]
  }

  function Pack4(t: seq<nat>): seq<nat>
    requires |t| == 2
  {
    [Join(Field(t[1], 0, 4), 4, Field(t[0], 0, 4))]
  }

  function Pack5(t: seq<nat>): seq<nat>
    requires |t| == 8
  {
    [Join(Field(t[1], 0, 3), 5, Field(t[0], 0, 5)),
     Join(Field(t[3], 0, 1), 7, Join(Field(t[2], 0, 5), 2, Field(t[1], 3, 2))),
     Join(Field(t[4], 0, 4), 4, Field(t[3], 1, 4)),
     Join(Field(t[6], 0, 2), 6, Join(Field(t[5], 0, 5), 1, Field(t[4], 4, 1))),
     Join(Field(t[7], 0, 5), 3, Field(t[6], 2, 3))]
  }

  function Pack10(t: seq<nat>): seq<nat>
    requires |t| == 4
  {
    [Field(t[0], 0, 8),
     Join(Field(t[1], 0, 6), 2, Field(t[0], 8, 2)),
     Join(Field(t[2], 0, 4), 4, Field(t[1], 6, 4)),
     Join(Field(t[3], 0, 2), 6, Field(t[2], 4, 6)),
     Field(t[3], 2, 8)]
  }

  function Pack11(t: seq<nat>): seq<nat>
    requires |t| == 8
  {
    [Field(t[0], 0, 8),
     Join(Field(t[1], 0, 5), 3, Field(t[0], 8, 3)),
     Join(Field(t[2], 0, 2), 6, Field(t[1], 5, 6)),
     Field(t[2], 2, 8),
     Join(Field(t[3], 0, 7), 1, Field(t[2], 10, 1)),
     Join(Field(t[4], 0, 4), 4, Field(t[3], 7, 4)),
     Join(Field(t[5], 0, 1), 7, Field(t[4], 4, 7)),
     Field(t[5], 1, 8),
     Join(Field(t[6], 0, 6), 2, Field(t[5], 9, 2)),
     Join(Field(t[7], 0, 3), 5, Field(t[6], 6, 5)),
     Field(t[7], 3, 8)]
  }

  function Pack12(t: seq<nat>): seq<nat>
    requires |t| == 2
  {
    [Field(t[0], 0, 8),
     Join(Field(t[1], 0, 4), 4, Field(t[0], 8, 4)),
     Field(t[1], 4, 8)]
  }

  // ----- bytes to coefficients --------------------------------------------------------------------

  function Unpack1(b: seq<byte>): seq<nat>
    requires |b| == 1
  {
    [Field(b[0], 0, 1), Field(b[0], 1, 1), Field(b[0], 2, 1), Field(b[0], 3, 1),
     Field(b[0], 4, 1), Field(b[0], 5, 1), Field(b[0], 6, 1), Field(b[0], 7, 1)]
  }

  function Unpack4(b: seq<byte>): seq<nat>
    requires |b| == 1
  {
    [Field(b[0], 0, 4), Field(b[0], 4, 4)]
  }

  function Unpack5(b: seq<byte>): seq<nat>
    requires |b| == 5
  {
    [Field(b[0], 0, 5),
     Join(Field(b[1], 0, 2), 3, Field(b[0], 5, 3)),
     Field(b[1], 2, 5),
     Join(Field(b[2], 0, 4), 1, Field(b[1], 7, 1)),
     Join(Field(b[3], 0, 1), 4, Field(b[2], 4, 4)),
     Field(b[3], 1, 5),
     Join(Field(b[4], 0, 3), 2, Field(b[3], 6, 2)),
     Field(b[4], 3, 5)]
  }

  function Unpack10(b: seq<byte>): seq<nat>
    requires |b| == 5
  {
    [Join(Field(b[1], 0, 2), 8, b[0]),
     Join(Field(b[2], 0, 4), 6, Shr(b[1], 2)),
     Join(Field(b[3], 0, 6), 4, Shr(b[2], 4)),
     Join(b[4], 2, Shr(b[3], 6))]
  }

  function Unpack11(b: seq<byte>): seq<nat>
    requires |b| == 11
  {
    [Join(Field(b[1], 0, 3), 8, b[0]),
     Join(Field(b[2], 0, 6), 5, Shr(b[1], 3)),
     Join(Field(b[4], 0, 1), 10, Join(b[3], 2, Shr(b[2], 6))),
     Join(Field(b[5], 0, 4), 7, Shr(b[4], 1)),
     Join(Field(b[6], 0, 7), 4, Shr(b[5], 4)),
     Join(Field(b[8], 0, 2), 9, Join(b[7], 1, Shr(b[6], 7))),
     Join(Field(b[9], 0, 5), 6, Shr(b[8], 2)),
     Join(b[10], 3, Shr(b[9], 5))]
  }

  function Unpack12(b: seq<byte>): seq<nat>
    requires |b| == 3
  {
    [Join(Field(b[1], 0, 4), 8, b[0]),
     Join(b[2], 4, Shr(b[1], 4))]
  }

  // ----- fields of fields ---------------------------------------------------------------------------

  /** The low w bits of every coefficient. */
  function Low(w: nat, t: seq<nat>): (r: seq<nat>)
    ensures |r| == |t|
  {
    seq(|t|, i requires 0 <= i < |t| => Field(t[i], 0, w))
  }

  /** The w bits from off on are the a bits from off on and, p = 2^a times over, the b bits from mid on. */
  lemma SplitField(x: nat, off: nat, w: nat, a: nat, mid: nat, b: nat, p: nat)
    requires mid == off + a && w == a + b && p == Pow2(a)
    ensures Field(x, off, w) == Field(x, off, a) + p * Field(x, mid, b)
  {
    hide Pow2, Field;
    FieldMeans(x, off, w);
    FieldMeans(x, off, a);
    FieldMeans(x, mid, b);
    Pow2Add(a, b);
    Pow2Add(off, a);
    DivDiv(x, Pow2(off), p);
    SplitMod(x / Pow2(off), p, Pow2(b));
  }

  lemma SplitMod(v: nat, p: nat, q: nat)
    requires p > 0 && q > 0
    ensures p * q > 0 && v % (p * q) == v % p + p * (v / p % q)
  {
    var d, r := v / p / q, v / p % q;
    assert v / p == d * q + r;
    assert v == p * (d * q + r) + v % p;
    assert p * (d * q + r) == d * (p * q) + p * r;
    MulLe(r + 1, q, p);
    assert (r + 1) * p == p * r + p && q * p == p * q;
    DivModUnique(v, p * q, d, v % p + p * r);
  }

  lemma FieldBound(x: nat, off: nat, w: nat)
    ensures Field(x, off, w) < Pow2(w)
  {
    hide Pow2, Field;
    FieldMeans(x, off, w);
  }

  lemma FieldBounds()
    ensures forall x, o {:trigger Field(x, o, 1)} :: Field(x, o, 1) < 2
    ensures forall x, o {:trigger Field(x, o, 2)} :: Field(x, o, 2) < 4
    ensures forall x, o {:trigger Field(x, o, 3)} :: Field(x, o, 3) < 8
    ensures forall x, o {:trigger Field(x, o, 4)} :: Field(x, o, 4) < 16
    ensures forall x, o {:trigger Field(x, o, 5)} :: Field(x, o, 5) < 32
    ensures forall x, o {:trigger Field(x, o, 6)} :: Field(x, o, 6) < 64
    ensures forall x, o {:trigger Field(x, o, 7)} :: Field(x, o, 7) < 128
    ensures forall x, o {:trigger Field(x, o, 8)} :: Field(x, o, 8) < 256
    ensures Pow2(1) == 2 && Pow2(2) == 4 && Pow2(3) == 8 && Pow2(4) == 16 && Pow2(5) == 32
    ensures Pow2(6) == 64 && Pow2(7) == 128 && Pow2(8) == 256
  {
    hide Pow2, Field;
    Pow2Values();
    forall x, o, w: nat {
      FieldBound(x, o, w);
    }
  }

  /** A byte is its own low eight bits, and a shift of it is a field reaching bit 8. */
  lemma ByteField(b: byte, n: nat)
    requires n <= 8
    ensures Field(b, 0, 8) == b && Shr(b, n) == Field(b, n, 8 - n)
  {
    hide Pow2, Field;
    Pow2Values();
    FieldMeans(b, 0, 8);
    FieldMeans(b, n, 8 - n);
    assert Pow2(0) == 1 by { Pow2Add(0, 1); }
    Pow2Add(n, 8 - n);
    ShiftedByte(b, Pow2(n), Pow2(8 - n));
  }

  lemma ShiftedByte(b: byte, p: nat, q: nat)
    requires p > 0 && p * q == 256
    ensures b / p % q == b / p
  {
    assert b == p * (b / p) + b % p;
    QuotientNat(b, p);
    CancelLt(b / p, q, p);
    DivModUnique(b / p, q, 0, b / p);
  }

  // ----- Horner forms of short digit strings ------------------------------------------------------

  lemma Unroll(base: nat, s: seq<nat>, i: nat)
    requires i < |s|
    ensures LeValue(base, s[i..]) == s[i] + base * LeValue(base, s[i + 1..])
  {
    assert s[i..][1..] == s[i + 1..];
  }

  lemma Unrolled(base: nat, s: seq<nat>)
    ensures s[0..] == s && LeValue(base, s[|s|..]) == 0
  {
  }

  lemma Horner1(base: nat, s: seq<nat>)
    requires |s| == 1
    ensures LeValue(base, s) == s[0]
  {
    hide LeValue;
    Unroll(base, s, 0);
    Unrolled(base, s);
  }

  lemma Horner2(base: nat, s: seq<nat>)
    requires |s| == 2
    ensures LeValue(base, s) == s[0] + base * s[1]
  {
    hide LeValue;
    Unroll(base, s, 0);
    Unroll(base, s, 1);
    Unrolled(base, s);
  }

  lemma Horner3(base: nat, s: seq<nat>)
    requires |s| == 3
    ensures LeValue(base, s) == s[0] + base * (s[1] + base * s[2])
  {
    hide LeValue;
    Unroll(base, s, 0);
    Unroll(base, s, 1);
    Unroll(base, s, 2);
    Unrolled(base, s);
  }

  lemma Horner4(base: nat, s: seq<nat>)
    requires |s| == 4
    ensures LeValue(base, s) == s[0] + base * (s[1] + base * (s[2] + base * s[3]))
  {
    hide LeValue;
    Unroll(base, s, 0);
    Unroll(base, s, 1);
    Unroll(base, s, 2);
    Unroll(base, s, 3);
    Unrolled(base, s);
  }

  lemma Horner5(base: nat, s: seq<nat>)
    requires |s| == 5
    ensures LeValue(base, s) == s[0] + base * (s[1] + base * (s[2] + base * (s[3] + base * s[4])))
  {
    hide LeValue;
    Unroll(base, s, 0);
    Unroll(base, s, 1);
    Unroll(base, s, 2);
    Unroll(base, s, 3);
    Unroll(base, s, 4);
    Unrolled(base, s);
  }

  lemma Horner8(base: nat, s: seq<nat>)
    requires |s| == 8
    ensures LeValue(base, s) == s[0] + base * (s[1] + base * (s[2] + base * (s[3] + base * (s[4] + base * (s[5] + base * (s[6] + base * s[7]))))))
  {
    hide LeValue;
    Unrolled(base, s);
    Unroll(base, s, 7);
    Unroll(base, s, 6);
    Unroll(base, s, 5);
    Unroll(base, s, 4);
    Unroll(base, s, 3);
    Unroll(base, s, 2);
    Unroll(base, s, 1);
    Unroll(base, s, 0);
  }

  lemma Horner11(base: nat, s: seq<nat>)
    requires |s| == 11
    ensures LeValue(base, s) == s[0] + base * (s[1] + base * (s[2] + base * (s[3] + base * (s[4] + base * (s[5] + base * (s[6] + base * (s[7] + base * (s[8] + base * (s[9] + base * s[10])))))))))
  {
    hide LeValue;
    Unrolled(base, s);
    Unroll(base, s, 10);
    Unroll(base, s, 9);
    Unroll(base, s, 8);
    Unroll(base, s, 7);
    Unroll(base, s, 6);
    Unroll(base, s, 5);
    Unroll(base, s, 4);
    Unroll(base, s, 3);
    Unroll(base, s, 2);
    Unroll(base, s, 1);
    Unroll(base, s, 0);
  }

  lemma SameNumber1(coefficients: seq<nat>, bytes: seq<nat>, f0: nat, f1: nat, f2: nat, f3: nat, f4: nat, f5: nat, f6: nat, f7: nat)
    requires coefficients == [f0, f1, f2, f3, f4, f5, f6, f7]
    requires bytes == [f0 + 2 * f1 + 4 * f2 + 8 * f3 + 16 * f4 + 32 * f5 + 64 * f6 + 128 * f7]
    ensures LeValue(2, coefficients) == LeValue(256, bytes)
  {
    hide LeValue;
    Horner8(2, coefficients);
    Horner1(256, bytes);
  }

  lemma Pack1Value(t: seq<nat>)
    requires |t| == 8
    ensures AreDigits(256, Pack1(t)) && LeValue(2, Low(1, t)) == LeValue(256, Pack1(t))
  {
    hide Field, Join, LeValue, Pow2;
    FieldBounds();
    SameNumber1(Low(1, t), Pack1(t),
                Field(t[0], 0, 1), Field(t[1], 0, 1), Field(t[2], 0, 1), Field(t[3], 0, 1), Field(t[4], 0, 1),
                Field(t[5], 0, 1), Field(t[6], 0, 1), Field(t[7], 0, 1));
  }

  lemma Unpack1Digits(b: seq<byte>)
    requires |b| == 1
    ensures AreDigits(2, Unpack1(b))
  {
    hide Field, Join, Pow2, Shr;
    FieldBounds();
  }

  lemma Unpack1Value(b: seq<byte>)
    requires |b| == 1
    ensures LeValue(2, Unpack1(b)) == LeValue(256, b)
  {
    hide Field, Join, LeValue, Pow2, Shr;
    Pow2Values();
    ByteField(b[0], 7);
    SplitField(b[0], 0, 8, 1, 1, 7, 2);
    SplitField(b[0], 1, 7, 1, 2, 6, 2);
    SplitField(b[0], 2, 6, 1, 3, 5, 2);
    SplitField(b[0], 3, 5, 1, 4, 4, 2);
    SplitField(b[0], 4, 4, 1, 5, 3, 2);
    SplitField(b[0], 5, 3, 1, 6, 2, 2);
    SplitField(b[0], 6, 2, 1, 7, 1, 2);
    assert b[0] == Field(b[0], 0, 1) + 2 * Field(b[0], 1, 1) + 4 * Field(b[0], 2, 1) + 8 * Field(b[0], 3, 1) + 16 * Field(b[0], 4, 1) + 32 * Field(b[0], 5, 1) + 64 * Field(b[0], 6, 1) + 128 * Field(b[0], 7, 1);
    SameNumber1(Unpack1(b), b,
                Field(b[0], 0, 1), Field(b[0], 1, 1), Field(b[0], 2, 1), Field(b[0], 3, 1), Field(b[0], 4, 1),
                Field(b[0], 5, 1), Field(b[0], 6, 1), Field(b[0], 7, 1));
  }

  lemma SameNumber4(coefficients: seq<nat>, bytes: seq<nat>, f0: nat, f1: nat)
    requires coefficients == [f0, f1]
    requires bytes == [f0 + 16 * f1]
    ensures LeValue(16, coefficients) == LeValue(256, bytes)
  {
    hide LeValue;
    Horner2(16, coefficients);
    Horner1(256, bytes);
  }

  lemma Pack4Value(t: seq<nat>)
    requires |t| == 2
    ensures AreDigits(256, Pack4(t)) && LeValue(16, Low(4, t)) == LeValue(256, Pack4(t))
  {
    hide Field, Join, LeValue, Pow2;
    FieldBounds();
    SameNumber4(Low(4, t), Pack4(t),
                Field(t[0], 0, 4), Field(t[1], 0, 4));
  }

  lemma Unpack4Digits(b: seq<byte>)
    requires |b| == 1
    ensures AreDigits(16, Unpack4(b))
  {
    hide Field, Join, Pow2, Shr;
    FieldBounds();
  }

  lemma Unpack4Value(b: seq<byte>)
    requires |b| == 1
    ensures LeValue(16, Unpack4(b)) == LeValue(256, b)
  {
    hide Field, Join, LeValue, Pow2, Shr;
    Pow2Values();
    ByteField(b[0], 4);
    SplitField(b[0], 0, 8, 4, 4, 4, 16);
    assert b[0] == Field(b[0], 0, 4) + 16 * Field(b[0], 4, 4);
    SameNumber4(Unpack4(b), b,
                Field(b[0], 0, 4), Field(b[0], 4, 4));
  }

  lemma SameNumber5(coefficients: seq<nat>, bytes: seq<nat>, f0: nat, f1: nat, f2: nat, f3: nat, f4: nat, f5: nat, f6: nat, f7: nat, f8: nat, f9: nat, f10: nat, f11: nat)
    requires coefficients == [f0, f1 + 8 * f2, f3, f4 + 2 * f5, f6 + 16 * f7, f8, f9 + 4 * f10, f11]
    requires bytes == [f0 + 32 * f1, f2 + 4 * f3 + 128 * f4, f5 + 16 * f6, f7 + 2 * f8 + 64 * f9, f10 + 8 * f11]
    ensures LeValue(32, coefficients) == LeValue(256, bytes)
  {
    hide LeValue;
    Horner8(32, coefficients);
    Horner5(256, bytes);
  }

  lemma Pack5Value(t: seq<nat>)
    requires |t| == 8
    ensures AreDigits(256, Pack5(t)) && LeValue(32, Low(5, t)) == LeValue(256, Pack5(t))
  {
    hide Field, Join, LeValue, Pow2;
    FieldBounds();
    SplitField(t[1], 0, 5, 3, 3, 2, 8);
    SplitField(t[3], 0, 5, 1, 1, 4, 2);
    SplitField(t[4], 0, 5, 4, 4, 1, 16);
    SplitField(t[6], 0, 5, 2, 2, 3, 4);
    SameNumber5(Low(5, t), Pack5(t),
                Field(t[0], 0, 5), Field(t[1], 0, 3), Field(t[1], 3, 2), Field(t[2], 0, 5), Field(t[3], 0, 1),
                Field(t[3], 1, 4), Field(t[4], 0, 4), Field(t[4], 4, 1), Field(t[5], 0, 5), Field(t[6], 0, 2),
                Field(t[6], 2, 3), Field(t[7], 0, 5));
  }

  lemma Unpack5Digits(b: seq<byte>)
    requires |b| == 5
    ensures AreDigits(32, Unpack5(b))
  {
    hide Field, Join, Pow2, Shr;
    FieldBounds();
  }

  lemma Unpack5Value(b: seq<byte>)
    requires |b| == 5
    ensures LeValue(32, Unpack5(b)) == LeValue(256, b)
  {
    hide Field, Join, LeValue, Pow2, Shr;
    Pow2Values();
    FieldBound(b[0], 5, 3);
    FieldBound(b[1], 7, 1);
    FieldBound(b[2], 4, 4);
    FieldBound(b[3], 6, 2);
    ByteField(b[0], 5);
    ByteField(b[1], 7);
    ByteField(b[2], 4);
    ByteField(b[3], 6);
    ByteField(b[4], 3);
    SplitField(b[0], 0, 8, 5, 5, 3, 32);
    SplitField(b[1], 0, 8, 2, 2, 6, 4);
    SplitField(b[1], 2, 6, 5, 7, 1, 32);
    SplitField(b[2], 0, 8, 4, 4, 4, 16);
    SplitField(b[3], 0, 8, 1, 1, 7, 2);
    SplitField(b[3], 1, 7, 5, 6, 2, 32);
    SplitField(b[4], 0, 8, 3, 3, 5, 8);
    assert b[0] == Field(b[0], 0, 5) + 32 * Field(b[0], 5, 3);
    assert b[1] == Field(b[1], 0, 2) + 4 * Field(b[1], 2, 5) + 128 * Field(b[1], 7, 1);
    assert b[2] == Field(b[2], 0, 4) + 16 * Field(b[2], 4, 4);
    assert b[3] == Field(b[3], 0, 1) + 2 * Field(b[3], 1, 5) + 64 * Field(b[3], 6, 2);
    assert b[4] == Field(b[4], 0, 3) + 8 * Field(b[4], 3, 5);
    SameNumber5(Unpack5(b), b,
                Field(b[0], 0, 5), Field(b[0], 5, 3), Field(b[1], 0, 2), Field(b[1], 2, 5), Field(b[1], 7, 1),
                Field(b[2], 0, 4), Field(b[2], 4, 4), Field(b[3], 0, 1), Field(b[3], 1, 5), Field(b[3], 6, 2),
                Field(b[4], 0, 3), Field(b[4], 3, 5));
  }

  lemma SameNumber10(coefficients: seq<nat>, bytes: seq<nat>, f0: nat, f1: nat, f2: nat, f3: nat, f4: nat, f5: nat, f6: nat, f7: nat)
    requires coefficients == [f0 + 256 * f1, f2 + 64 * f3, f4 + 16 * f5, f6 + 4 * f7]
    requires bytes == [f0, f1 + 4 * f2, f3 + 16 * f4, f5 + 64 * f6, f7]
    ensures LeValue(1024, coefficients) == LeValue(256, bytes)
  {
    hide LeValue;
    Horner4(1024, coefficients);
    Horner5(256, bytes);
  }

  lemma Pack10Value(t: seq<nat>)
    requires |t| == 4
    ensures AreDigits(256, Pack10(t)) && LeValue(1024, Low(10, t)) == LeValue(256, Pack10(t))
  {
    hide Field, Join, LeValue, Pow2;
    FieldBounds();
    SplitField(t[0], 0, 10, 8, 8, 2, 256);
    SplitField(t[1], 0, 10, 6, 6, 4, 64);
    SplitField(t[2], 0, 10, 4, 4, 6, 16);
    SplitField(t[3], 0, 10, 2, 2, 8, 4);
    SameNumber10(Low(10, t), Pack10(t),
                Field(t[0], 0, 8), Field(t[0], 8, 2), Field(t[1], 0, 6), Field(t[1], 6, 4), Field(t[2], 0, 4),
                Field(t[2], 4, 6), Field(t[3], 0, 2), Field(t[3], 2, 8));
  }

  lemma Unpack10Digits(b: seq<byte>)
    requires |b| == 5
    ensures AreDigits(1024, Unpack10(b))
  {
    hide Field, Join, Pow2, Shr;
    FieldBounds();
    ByteField(b[0], 0);
    ByteField(b[1], 2);
    ByteField(b[2], 4);
    ByteField(b[3], 6);
    ByteField(b[4], 0);
  }

  lemma Unpack10Value(b: seq<byte>)
    requires |b| == 5
    ensures LeValue(1024, Unpack10(b)) == LeValue(256, b)
  {
    hide Field, Join, LeValue, Pow2, Shr;
    FieldBounds();
    ByteField(b[0], 0);
    ByteField(b[1], 2);
    ByteField(b[2], 4);
    ByteField(b[3], 6);
    ByteField(b[4], 0);
    SplitField(b[1], 0, 8, 2, 2, 6, 4);
    SplitField(b[2], 0, 8, 4, 4, 4, 16);
    SplitField(b[3], 0, 8, 6, 6, 2, 64);
    assert b[1] == Field(b[1], 0, 2) + 4 * Field(b[1], 2, 6);
    assert b[2] == Field(b[2], 0, 4) + 16 * Field(b[2], 4, 4);
    assert b[3] == Field(b[3], 0, 6) + 64 * Field(b[3], 6, 2);
    SameNumber10(Unpack10(b), b,
                Field(b[0], 0, 8), Field(b[1], 0, 2), Field(b[1], 2, 6), Field(b[2], 0, 4), Field(b[2], 4, 4),
                Field(b[3], 0, 6), Field(b[3], 6, 2), Field(b[4], 0, 8));
  }

  lemma SameNumber11(coefficients: seq<nat>, bytes: seq<nat>, f0: nat, f1: nat, f2: nat, f3: nat, f4: nat, f5: nat, f6: nat, f7: nat, f8: nat, f9: nat, f10: nat,
      f11: nat, f12: nat, f13: nat, f14: nat, f15: nat, f16: nat, f17: nat)
    requires coefficients == [f0 + 256 * f1, f2 + 32 * f3, f4 + 4 * f5 + 1024 * f6, f7 + 128 * f8, f9 + 16 * f10, f11 + 2 * f12 + 512 * f13, f14 + 64 * f15, f16 + 8 * f17]
    requires bytes == [f0, f1 + 8 * f2, f3 + 64 * f4, f5, f6 + 2 * f7, f8 + 16 * f9, f10 + 128 * f11, f12, f13 + 4 * f14, f15 + 32 * f16, f17]
    ensures LeValue(2048, coefficients) == LeValue(256, bytes)
  {
    hide LeValue;
    Horner8(2048, coefficients);
    Horner11(256, bytes);
  }

  lemma Pack11Value(t: seq<nat>)
    requires |t| == 8
    ensures AreDigits(256, Pack11(t)) && LeValue(2048, Low(11, t)) == LeValue(256, Pack11(t))
  {
    hide Field, Join, LeValue, Pow2;
    FieldBounds();
    SplitField(t[0], 0, 11, 8, 8, 3, 256);
    SplitField(t[1], 0, 11, 5, 5, 6, 32);
    SplitField(t[2], 0, 11, 2, 2, 9, 4);
    SplitField(t[2], 2, 9, 8, 10, 1, 256);
    SplitField(t[3], 0, 11, 7, 7, 4, 128);
    SplitField(t[4], 0, 11, 4, 4, 7, 16);
    SplitField(t[5], 0, 11, 1, 1, 10, 2);
    SplitField(t[5], 1, 10, 8, 9, 2, 256);
    SplitField(t[6], 0, 11, 6, 6, 5, 64);
    SplitField(t[7], 0, 11, 3, 3, 8, 8);
    SameNumber11(Low(11, t), Pack11(t),
                Field(t[0], 0, 8), Field(t[0], 8, 3), Field(t[1], 0, 5), Field(t[1], 5, 6), Field(t[2], 0, 2),
                Field(t[2], 2, 8), Field(t[2], 10, 1), Field(t[3], 0, 7), Field(t[3], 7, 4), Field(t[4], 0, 4),
                Field(t[4], 4, 7), Field(t[5], 0, 1), Field(t[5], 1, 8), Field(t[5], 9, 2), Field(t[6], 0, 6),
                Field(t[6], 6, 5), Field(t[7], 0, 3), Field(t[7], 3, 8));
  }

  lemma Unpack11Digits(b: seq<byte>)
    requires |b| == 11
    ensures AreDigits(2048, Unpack11(b))
  {
    hide Field, Join, Pow2, Shr;
    FieldBounds();
    ByteField(b[0], 0);
    ByteField(b[1], 3);
    ByteField(b[2], 6);
    ByteField(b[3], 0);
    ByteField(b[4], 1);
    ByteField(b[5], 4);
    ByteField(b[6], 7);
    ByteField(b[7], 0);
    ByteField(b[8], 2);
    ByteField(b[9], 5);
    ByteField(b[10], 0);
  }

  lemma Unpack11Value(b: seq<byte>)
    requires |b| == 11
    ensures LeValue(2048, Unpack11(b)) == LeValue(256, b)
  {
    hide Field, Join, LeValue, Pow2, Shr;
    FieldBounds();
    ByteField(b[0], 0);
    ByteField(b[1], 3);
    ByteField(b[2], 6);
    ByteField(b[3], 0);
    ByteField(b[4], 1);
    ByteField(b[5], 4);
    ByteField(b[6], 7);
    ByteField(b[7], 0);
    ByteField(b[8], 2);
    ByteField(b[9], 5);
    ByteField(b[10], 0);
    SplitField(b[1], 0, 8, 3, 3, 5, 8);
    SplitField(b[2], 0, 8, 6, 6, 2, 64);
    SplitField(b[4], 0, 8, 1, 1, 7, 2);
    SplitField(b[5], 0, 8, 4, 4, 4, 16);
    SplitField(b[6], 0, 8, 7, 7, 1, 128);
    SplitField(b[8], 0, 8, 2, 2, 6, 4);
    SplitField(b[9], 0, 8, 5, 5, 3, 32);
    assert b[1] == Field(b[1], 0, 3) + 8 * Field(b[1], 3, 5);
    assert b[2] == Field(b[2], 0, 6) + 64 * Field(b[2], 6, 2);
    assert b[4] == Field(b[4], 0, 1) + 2 * Field(b[4], 1, 7);
    assert b[5] == Field(b[5], 0, 4) + 16 * Field(b[5], 4, 4);
    assert b[6] == Field(b[6], 0, 7) + 128 * Field(b[6], 7, 1);
    assert b[8] == Field(b[8], 0, 2) + 4 * Field(b[8], 2, 6);
    assert b[9] == Field(b[9], 0, 5) + 32 * Field(b[9], 5, 3);
    SameNumber11(Unpack11(b), b,
                Field(b[0], 0, 8), Field(b[1], 0, 3), Field(b[1], 3, 5), Field(b[2], 0, 6), Field(b[2], 6, 2),
                Field(b[3], 0, 8), Field(b[4], 0, 1), Field(b[4], 1, 7), Field(b[5], 0, 4), Field(b[5], 4, 4),
                Field(b[6], 0, 7), Field(b[6], 7, 1), Field(b[7], 0, 8), Field(b[8], 0, 2), Field(b[8], 2, 6),
                Field(b[9], 0, 5), Field(b[9], 5, 3), Field(b[10], 0, 8));
  }

  lemma SameNumber12(coefficients: seq<nat>, bytes: seq<nat>, f0: nat, f1: nat, f2: nat, f3: nat)
    requires coefficients == [f0 + 256 * f1, f2 + 16 * f3]
    requires bytes == [f0, f1 + 16 * f2, f3]
    ensures LeValue(4096, coefficients) == LeValue(256, bytes)
  {
    hide LeValue;
    Horner2(4096, coefficients);
    Horner3(256, bytes);
  }

  lemma Pack12Value(t: seq<nat>)
    requires |t| == 2
    ensures AreDigits(256, Pack12(t)) && LeValue(4096, Low(12, t)) == LeValue(256, Pack12(t))
  {
    hide Field, Join, LeValue, Pow2;
    FieldBounds();
    SplitField(t[0], 0, 12, 8, 8, 4, 256);
    SplitField(t[1], 0, 12, 4, 4, 8, 16);
    SameNumber12(Low(12, t), Pack12(t),
                Field(t[0], 0, 8), Field(t[0], 8, 4), Field(t[1], 0, 4), Field(t[1], 4, 8));
  }

  lemma Unpack12Digits(b: seq<byte>)
    requires |b| == 3
    ensures AreDigits(4096, Unpack12(b))
  {
    hide Field, Join, Pow2, Shr;
    FieldBounds();
    ByteField(b[0], 0);
    ByteField(b[1], 4);
    ByteField(b[2], 0);
  }

  lemma Unpack12Value(b: seq<byte>)
    requires |b| == 3
    ensures LeValue(4096, Unpack12(b)) == LeValue(256, b)
  {
    hide Field, Join, LeValue, Pow2, Shr;
    FieldBounds();
    ByteField(b[0], 0);
    ByteField(b[1], 4);
    ByteField(b[2], 0);
    SplitField(b[1], 0, 8, 4, 4, 4, 16);
    assert b[1] == Field(b[1], 0, 4) + 16 * Field(b[1], 4, 4);
    SameNumber12(Unpack12(b), b,
                Field(b[0], 0, 8), Field(b[1], 0, 4), Field(b[1], 4, 4), Field(b[2], 0, 8));
  }
}
