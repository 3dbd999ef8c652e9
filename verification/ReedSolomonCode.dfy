/** The in-place Reed-Solomon loops over byte buffers. */
module ReedSolomonCode {
  import opened Octets
  import opened GaloisField
  import opened ReedSolomon

  // ----- the generator ------------------------------------------------------------------------------------

  /** The last d coefficients of a polynomial, with zeros in front when it is shorter. */
  function Window(p: Polynomial, d: nat): (w: Polynomial)
    ensures |w| == d
  {
    seq<Byte>(d, k requires 0 <= k < d => Padded(p, |p| + k - d))
  }

  /** Coefficient k, or zero before the first one. */
  function Padded(p: Polynomial, k: int): Byte
    requires k < |p|
  {
    if k < 0 then ZeroByte() else p[k]
  }

  /** Coefficient j after one pass of the inner loop. */
  function Passed(w: Polynomial, r: Byte, j: nat): Byte
    requires j < |w|
  {
    if j + 1 < |w| then Add(Mul(w[j], r), w[j + 1]) else Mul(w[j], r)
  }

  /** One pass multiplies by (x - r), keeping the low coefficients. */
  lemma PassMultiplies(p: Polynomial, r: Byte, d: nat, j: nat)
    requires j < d
    ensures Window(TimesLinear(p, r), d)[j] == Passed(Window(p, d), r, j)
  {
    hide Add, Mul, ZeroByte;
    var w, q, k := Window(p, d), TimesLinear(p, r), |p| + 1 + j - d;
    Distributes(r, r, r);
    AddLaws(ZeroByte(), ZeroByte(), ZeroByte());
    assert w[j] == Padded(p, k - 1);
    assert j + 1 < d ==> w[j + 1] == Padded(p, k);
    assert Window(q, d)[j] == Padded(q, k);
    if k >= 0 {
      var u, v := (p + [ZeroByte()])[k], ([ZeroByte()] + Scale(p, r))[k];
      assert q[k] == Add(u, v);
      assert v == Mul(Padded(p, k - 1), r);
      AddLaws(u, v, v);
      AddLaws(v, u, u);
    }
  }

  method ComputeDivisor(degree: nat, result: array<Byte>)
    requires 1 <= degree <= 30 && degree <= result.Length
    modifies result
    ensures [One()] + result[..degree] == Generator(degree)
    ensures result[degree..] == old(result[degree..])
  {
    hide Add, Mul, TimesLinear, Power, Generator, Two, One, Passed, ZeroByte;
    Clear(result, 0, degree);
    result[degree - 1] := One();
    var root := One();
    GeneratorStarts(degree, result[..degree]);
    for i: nat := 0 to degree
      invariant result[..degree] == Window(Generator(i), degree) && root == Power(Two(), i)
      invariant result[degree..] == old(result[degree..])
    {
      ghost var w := result[..degree];
      for j: nat := 0 to degree
        invariant forall k {:trigger result[k]} :: 0 <= k < j ==> result[k] == Passed(w, root, k)
        invariant forall k {:trigger result[k]} :: j <= k < degree ==> result[k] == w[k]
        invariant result[degree..] == old(result[degree..])
      {
        PassAt(w, root, j);
        var product := Multiply(result[j], root);
        result[j] := product;
        if j + 1 < degree {
          result[j] := Add(result[j], result[j + 1]);
        }
      }
      GeneratorStep(degree, i, w, root, result[..degree]);
      root := Multiply(root, Two());
    }
    GeneratorIsMonic(degree);
    WholeGenerator(degree);
  }

  lemma PassAt(w: Polynomial, r: Byte, j: nat)
    requires j < |w|
    ensures Passed(w, r, j) == if j + 1 < |w| then Add(Mul(w[j], r), w[j + 1]) else Mul(w[j], r)
  {
  }

  lemma GeneratorStarts(degree: nat, w: Polynomial)
    requires degree > 0 && |w| == degree && w[degree - 1] == One() && forall k :: 0 <= k < degree - 1 ==> w[k] == ZeroByte()
    ensures w == Window(Generator(0), degree) && Power(Two(), 0) == One()
  {
    hide One, ZeroByte;
    var v := Window(Generator(0), degree);
    forall k | 0 <= k < degree
      ensures v[k] == w[k]
    {
      assert v[k] == Padded([One()], 1 + k - degree);
    }
  }

  lemma GeneratorStep(degree: nat, i: nat, w: Polynomial, root: Byte, v: Polynomial)
    requires |w| == |v| == degree && w == Window(Generator(i), degree) && root == Power(Two(), i)
    requires forall k :: 0 <= k < degree ==> v[k] == Passed(w, root, k)
    ensures v == Window(Generator(i + 1), degree) && Mul(root, Two()) == Power(Two(), i + 1)
  {
    hide Add, Mul, TimesLinear, Passed, Two, One, Window;
    forall k | 0 <= k < degree
      ensures v[k] == Window(Generator(i + 1), degree)[k]
    {
      PassMultiplies(Generator(i), root, degree, k);
    }
  }

  lemma WholeGenerator(degree: nat)
    requires Generator(degree)[0] == One()
    ensures [One()] + Window(Generator(degree), degree) == Generator(degree)
  {
    hide Generator, One;
    var g, v := Generator(degree), Window(Generator(degree), degree);
    forall k | 0 <= k < degree
      ensures v[k] == g[k + 1]
    {
      assert v[k] == Padded(g, k + 1);
    }
  }

  /** memset of a stretch of a buffer. */
  method Clear(a: array<Byte>, from: nat, n: nat)
    requires from + n <= a.Length
    modifies a
    ensures forall k {:trigger a[k]} :: from <= k < from + n ==> a[k] == ZeroByte()
    ensures forall k {:trigger a[k]} :: 0 <= k < a.Length && !(from <= k < from + n) ==> a[k] == old(a[k])
  {
    for i := 0 to n
      invariant forall k {:trigger a[k]} :: from <= k < from + i ==> a[k] == ZeroByte()
      invariant forall k {:trigger a[k]} :: 0 <= k < a.Length && !(from <= k < from + i) ==> a[k] == old(a[k])
    {
      a[from + i] := ZeroByte();
    }
  }

  // ----- the remainder ----------------------------------------------------------------------------------------

  /** The stretches of data and result do not overlap, though they may lie in one buffer. */
  ghost predicate Apart(data: array<Byte>, from: nat, n: nat, result: array<Byte>, at: nat, degree: nat) {
    && from + n <= data.Length && at + degree <= result.Length
    && (data == result ==> from + n <= at || at + degree <= from)
  }

  method ComputeRemainder(data: array<Byte>, from: nat, n: nat, generator: array<Byte>, degree: nat,
                          result: array<Byte>, at: nat)
    requires 1 <= degree <= 30 && degree <= generator.Length && generator != result
    requires Apart(data, from, n, result, at, degree)
    modifies result
    ensures result[at..at + degree] == Remainder(data[from..from + n], generator[..degree])
    ensures forall k {:trigger result[k]} :: 0 <= k < result.Length && !(at <= k < at + degree) ==> result[k] == old(result[k])
  {
    hide Add, Mul, DivisionStep, ZeroByte;
    ghost var g := generator[..degree];
    ghost var was := data[from..from + n];
    Clear(result, at, degree);
    assert result[at..at + degree] == Remainder([], g);
    assert was[..0] == [];
    for i: nat := 0 to n
      invariant result[at..at + degree] == Remainder(was[..i], g)
      invariant forall k {:trigger result[k]} :: 0 <= k < result.Length && !(at <= k < at + degree) ==> result[k] == old(result[k])
    {
      assert data[from + i] == was[i];
      assert was[..i + 1][..i] == was[..i];
      DivideStep(generator, degree, result, at, data[from + i]);
    }
    assert was[..n] == was;
    assert data[from..from + n] == was;
  }

  /** One codeword enters the shift register. */
  method DivideStep(generator: array<Byte>, degree: nat, result: array<Byte>, at: nat, b: Byte)
    requires 1 <= degree <= generator.Length && at + degree <= result.Length && generator != result
    modifies result
    ensures result[at..at + degree] == DivisionStep(generator[..degree], old(result[at..at + degree]), b)
    ensures forall k {:trigger result[k]} :: 0 <= k < result.Length && !(at <= k < at + degree) ==> result[k] == old(result[k])
  {
    hide Add, Mul, ZeroByte;
    ghost var rem := result[at..at + degree];
    var factor := Add(b, result[at]);
    assert factor == Add(b, rem[0]);
    for j := 0 to degree - 1
      invariant forall k {:trigger result[k]} :: at <= k < at + j ==> result[k] == rem[k + 1 - at]
      invariant forall k {:trigger result[k]} :: at + j <= k < at + degree ==> result[k] == rem[k - at]
      invariant forall k {:trigger result[k]} :: 0 <= k < result.Length && !(at <= k < at + degree) ==> result[k] == old(result[k])
    {
      result[at + j] := result[at + j + 1];
    }
    result[at + degree - 1] := ZeroByte();
    ghost var low := rem[1..] + [ZeroByte()];
    assert result[at..at + degree] == low;
    AddFactors(generator, degree, result, at, factor);
  }

  method AddFactors(generator: array<Byte>, degree: nat, result: array<Byte>, at: nat, factor: Byte)
    requires degree <= generator.Length && at + degree <= result.Length && generator != result
    modifies result
    ensures result[at..at + degree] == Sum(old(result[at..at + degree]), Scale(generator[..degree], factor))
    ensures forall k {:trigger result[k]} :: 0 <= k < result.Length && !(at <= k < at + degree) ==> result[k] == old(result[k])
  {
    hide Add, Mul, ZeroByte;
    for j := 0 to degree
      invariant forall k {:trigger result[k]} :: at <= k < at + j ==> result[k] == Add(old(result[k]), Mul(generator[k - at], factor))
      invariant forall k {:trigger result[k]} :: 0 <= k < result.Length && !(at <= k < at + j) ==> result[k] == old(result[k])
    {
      var product := Multiply(generator[j], factor);
      result[at + j] := Add(result[at + j], product);
    }
  }
}
