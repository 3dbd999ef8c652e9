/** Reed-Solomon error correction: the generator polynomial, polynomial division, and why the result is a codeword. */
module ReedSolomon {
  import opened Octets
  import opened GaloisField

  /** Coefficients from the highest power down. */
  type Polynomial = seq<Byte>

  // ----- polynomials and their values ---------------------------------------------------------------------

  function Eval(p: Polynomial, x: Byte): Byte {
    if p == [] then ZeroByte() else Add(Mul(Eval(p[..|p| - 1], x), x), p[|p| - 1])
  }

  function Power(x: Byte, n: nat): Byte {
    if n == 0 then One() else Mul(Power(x, n - 1), x)
  }

  function Sum(p: Polynomial, q: Polynomial): (r: Polynomial)
    requires |p| == |q|
    ensures |r| == |p|
  {
    seq<Byte>(|p|, i requires 0 <= i < |p| => Add(p[i], q[i]))
  }

  function Scale(p: Polynomial, c: Byte): (r: Polynomial)
    ensures |r| == |p|
  {
    seq<Byte>(|p|, i requires 0 <= i < |p| => Mul(p[i], c))
  }

  lemma {:induction false} EvalSum(p: Polynomial, q: Polynomial, x: Byte)
    requires |p| == |q|
    ensures Eval(Sum(p, q), x) == Add(Eval(p, x), Eval(q, x))
  {
    hide Add, Mul, ZeroByte;
    if p == [] {
      AddLaws(ZeroByte(), ZeroByte(), ZeroByte());
    } else {
      var n := |p| - 1;
      EvalSum(p[..n], q[..n], x);
      assert Sum(p, q)[..n] == Sum(p[..n], q[..n]);
      Distributes(x, Eval(p[..n], x), Eval(q[..n], x));
      AddSwap(Mul(Eval(p[..n], x), x), Mul(Eval(q[..n], x), x), p[n], q[n]);
    }
  }

  lemma {:induction false} EvalScale(p: Polynomial, c: Byte, x: Byte)
    ensures Eval(Scale(p, c), x) == Mul(Eval(p, x), c)
  {
    hide Add, Mul, ZeroByte;
    if p == [] {
      Distributes(c, c, c);
    } else {
      var n := |p| - 1;
      var e := Eval(p[..n], x);
      EvalScale(p[..n], c, x);
      assert Scale(p, c)[..n] == Scale(p[..n], c);
      Distributes(c, Mul(e, x), p[n]);
      Associates(e, c, x);
      Commutes(c, x);
      Associates(e, x, c);
    }
  }

  lemma {:induction false} EvalAppend(p: Polynomial, q: Polynomial, x: Byte)
    ensures Eval(p + q, x) == Add(Mul(Eval(p, x), Power(x, |q|)), Eval(q, x))
  {
    hide Add, Mul, ZeroByte, One;
    var e := Eval(p, x);
    if q == [] {
      assert p + q == p;
      Distributes(e, e, e);
      AddLaws(e, e, e);
    } else {
      var n := |q| - 1;
      EvalAppend(p, q[..n], x);
      assert (p + q)[..|p + q| - 1] == p + q[..n];
      var f, w := Eval(q[..n], x), Power(x, n);
      Distributes(x, Mul(e, w), f);
      Associates(e, w, x);
      AddLaws(Mul(e, Mul(w, x)), Mul(f, x), q[n]);
    }
  }

  lemma EvalShifted(p: Polynomial, x: Byte)
    ensures Eval(p + [ZeroByte()], x) == Mul(Eval(p, x), x)
    ensures Eval([ZeroByte()] + p, x) == Eval(p, x)
  {
    hide Add, Mul, ZeroByte, One;
    var z := ZeroByte();
    assert (p + [z])[..|p|] == p;
    AddLaws(Mul(Eval(p, x), x), z, z);
    EvalAppend([z], p, x);
    assert Eval([z], x) == z by {
      assert [z][..0] == [];
      Distributes(x, z, z);
      AddLaws(z, z, z);
    }
    Distributes(Power(x, |p|), z, z);
    AddLaws(Eval(p, x), z, z);
  }

  // ----- the generator polynomial ---------------------------------------------------------------------------

  /** p * (x - r). */
  function TimesLinear(p: Polynomial, r: Byte): (q: Polynomial)
    ensures |q| == |p| + 1
  {
    Sum(p + [ZeroByte()], [ZeroByte()] + Scale(p, r))
  }

  function Two(): Byte {
    XTime(One())
  }

  /** (x - 2^0)(x - 2^1)...(x - 2^(degree-1)). */
  function Generator(degree: nat): (g: Polynomial)
    ensures |g| == degree + 1
  {
    if degree == 0 then [One()] else TimesLinear(Generator(degree - 1), Power(Two(), degree - 1))
  }

  /** The value of that product. */
  function Factors(degree: nat, x: Byte): Byte {
    if degree == 0 then One() else Mul(Factors(degree - 1, x), Add(x, Power(Two(), degree - 1)))
  }

  lemma EvalTimesLinear(p: Polynomial, r: Byte, x: Byte)
    ensures Eval(TimesLinear(p, r), x) == Mul(Eval(p, x), Add(x, r))
  {
    hide Add, Mul, ZeroByte, Eval, Scale, Sum;
    EvalSum(p + [ZeroByte()], [ZeroByte()] + Scale(p, r), x);
    EvalShifted(p, x);
    EvalShifted(Scale(p, r), x);
    EvalScale(p, r, x);
    Distributes(Eval(p, x), x, r);
  }

  lemma {:induction false} GeneratorIsProduct(degree: nat, x: Byte)
    ensures Eval(Generator(degree), x) == Factors(degree, x)
  {
    hide Add, Mul, ZeroByte, Power, Two, One, TimesLinear;
    if degree == 0 {
      EvalOne(x);
    } else {
      GeneratorIsProduct(degree - 1, x);
      EvalTimesLinear(Generator(degree - 1), Power(Two(), degree - 1), x);
    }
  }

  lemma EvalOne(x: Byte)
    ensures Eval([One()], x) == One()
  {
    hide Add, Mul, ZeroByte, One;
    assert [One()][..0] == [];
    Distributes(x, x, x);
    AddLaws(One(), One(), One());
  }

  lemma {:induction false} FactorsVanish(degree: nat, j: nat)
    requires j < degree
    ensures Factors(degree, Power(Two(), j)) == ZeroByte()
  {
    hide Add, Mul, ZeroByte, Power, Two, One;
    var r := Power(Two(), j);
    if j == degree - 1 {
      AddLaws(r, r, r);
      Distributes(Factors(degree - 1, r), r, r);
    } else {
      FactorsVanish(degree - 1, j);
      Distributes(Add(r, Power(Two(), degree - 1)), r, r);
    }
  }

  // ----- division ---------------------------------------------------------------------------------------------

  /** One step of the division by the generator with the given low coefficients. */
  function DivisionStep(g: Polynomial, rem: Polynomial, b: Byte): (r: Polynomial)
    requires |rem| == |g| > 0
    ensures |r| == |g|
  {
    Sum(rem[1..] + [ZeroByte()], Scale(g, Add(b, rem[0])))
  }

  function Remainder(data: Polynomial, g: Polynomial): (r: Polynomial)
    requires |g| > 0
    ensures |r| == |g|
    decreases |data|
  {
    if data == [] then seq<Byte>(|g|, _ => ZeroByte())
    else DivisionStep(g, Remainder(data[..|data| - 1], g), data[|data| - 1])
  }

  lemma {:induction false} EvalZeros(n: nat, x: Byte)
    ensures Eval(seq<Byte>(n, _ => ZeroByte()), x) == ZeroByte()
  {
    hide Add, Mul, ZeroByte;
    if n > 0 {
      var z := seq<Byte>(n, _ => ZeroByte());
      assert z[..n - 1] == seq<Byte>(n - 1, _ => ZeroByte());
      EvalZeros(n - 1, x);
      Distributes(x, x, x);
      AddLaws(ZeroByte(), ZeroByte(), ZeroByte());
    }
  }

  /** At a root x of the generator, appending the remainder makes the value zero. */
  lemma {:induction false} CodewordVanishes(data: Polynomial, g: Polynomial, x: Byte)
    requires |g| > 0 && Eval([One()] + g, x) == ZeroByte()
    ensures Eval(data + Remainder(data, g), x) == ZeroByte()
    decreases |data|
  {
    hide Add, Mul, ZeroByte, Eval, DivisionStep, Power, One;
    if data == [] {
      assert data + Remainder(data, g) == Remainder(data, g);
      EvalZeros(|g|, x);
    } else {
      var rest, b := data[..|data| - 1], data[|data| - 1];
      CodewordVanishes(rest, g, x);
      StepVanishes(rest, b, Remainder(rest, g), g, x);
      assert rest + [b] == data;
    }
  }

  /** The value of a string and its remainder in terms of the two parts. */
  lemma StepVanishes(rest: Polynomial, b: Byte, rem: Polynomial, g: Polynomial, x: Byte)
    requires |rem| == |g| > 0 && Eval([One()] + g, x) == ZeroByte() && Eval(rest + rem, x) == ZeroByte()
    ensures Eval((rest + [b]) + DivisionStep(g, rem, b), x) == ZeroByte()
  {
    hide Add, Mul, ZeroByte, Eval, Power, One, Sum, Scale;
    var d, f, w := |g|, Add(b, rem[0]), Power(x, |g|);
    var e := Eval(rest, x);
    // the generator's own value
    EvalAppend([One()], g, x);
    EvalOne(x);
    Distributes(w, w, w);
    RootOf(w, Eval(g, x));
    // the old remainder
    EvalAppend(rest, rem, x);
    RootOf(Mul(e, w), Eval(rem, x));
    TailValue(rem, x);
    // the new one
    EvalSum(rem[1..] + [ZeroByte()], Scale(g, f), x);
    EvalScale(g, f, x);
    EvalAppend(rest + [b], DivisionStep(g, rem, b), x);
    EvalLast(rest, b, x);
    Cancel(e, x, w, b, rem[0], Eval(rem, x));
  }

  lemma RootOf(a: Byte, b: Byte)
    requires Add(a, b) == ZeroByte()
    ensures a == b
  {
    hide Add, ZeroByte;
    AddLaws(a, b, b);
    AddLaws(b, b, b);
  }

  lemma EvalLast(p: Polynomial, b: Byte, x: Byte)
    ensures Eval(p + [b], x) == Add(Mul(Eval(p, x), x), b)
  {
    hide Add, Mul;
    assert (p + [b])[..|p|] == p;
  }

  /** Dropping the leading coefficient and multiplying by x. */
  lemma TailValue(rem: Polynomial, x: Byte)
    requires |rem| > 0
    ensures Eval(rem[1..] + [ZeroByte()], x) == Add(Mul(Eval(rem, x), x), Mul(rem[0], Power(x, |rem|)))
  {
    hide Add, Mul, ZeroByte, Eval, One;
    var t, w := rem[1..], Power(x, |rem| - 1);
    assert [rem[0]] + t == rem;
    EvalAppend([rem[0]], t, x);
    EvalConstant(rem[0], x);
    EvalShifted(t, x);
    var v, u := Mul(rem[0], w), Eval(t, x);
    Distributes(x, v, u);
    Associates(rem[0], w, x);
    var p, q := Mul(v, x), Mul(u, x);
    AddLaws(p, q, p);
    AddLaws(q, p, p);
    AddLaws(q, q, q);
  }

  lemma EvalConstant(c: Byte, x: Byte)
    ensures Eval([c], x) == c
  {
    hide Add, Mul, ZeroByte;
    assert [c][..0] == [];
    Distributes(x, x, x);
    AddLaws(c, c, c);
  }

  /** (e x + b) w + (e w x + r w) + w (b + r) = 0. */
  lemma Cancel(e: Byte, x: Byte, w: Byte, b: Byte, r: Byte, v: Byte)
    requires v == Mul(e, w)
    ensures Add(Mul(Add(Mul(e, x), b), w), Add(Add(Mul(v, x), Mul(r, w)), Mul(w, Add(b, r)))) == ZeroByte()
  {
    hide Add, Mul, ZeroByte;
    Distributes(w, Mul(e, x), b);
    Associates(e, x, w);
    Associates(e, w, x);
    Commutes(x, w);
    Distributes(w, b, r);
    Commutes(w, b);
    Commutes(w, r);
    CancelSix(Mul(v, x), Mul(b, w), Mul(r, w));
  }

  lemma CancelSix(p: Byte, q: Byte, r: Byte)
    ensures Add(Add(p, q), Add(Add(p, r), Add(q, r))) == ZeroByte()
  {
  }

  /** Data followed by its remainder vanishes at 2^0, ..., 2^(degree-1). */
  lemma IsCodeword(data: Polynomial, degree: nat, j: nat)
    requires j < degree
    ensures
      var g := Generator(degree)[1..];
      Generator(degree)[0] == One() && Eval(data + Remainder(data, g), Power(Two(), j)) == ZeroByte()
  {
    hide Add, Mul, ZeroByte, Eval, Power, Two, One, Remainder;
    var g := Generator(degree)[1..];
    GeneratorIsMonic(degree);
    assert [One()] + g == Generator(degree);
    GeneratorIsProduct(degree, Power(Two(), j));
    FactorsVanish(degree, j);
    CodewordVanishes(data, g, Power(Two(), j));
  }

  lemma {:induction false} GeneratorIsMonic(degree: nat)
    ensures Generator(degree)[0] == One()
  {
    hide Mul, One, ZeroByte, Add;
    if degree > 0 {
      GeneratorIsMonic(degree - 1);
      AddLaws(One(), One(), One());
    }
  }
}
