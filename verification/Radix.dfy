/** Little-endian digit strings and the numbers they denote. */
module Radix {
  import opened Bits

  /** The number whose little-endian digits in the given base are s. */
  function LeValue(base: nat, s: seq<nat>): nat {
    if |s| == 0 then 0 else s[0] + base * LeValue(base, s[1..])
  }

  /** The n lowest digits of v. */
  function Digits(base: nat, n: nat, v: nat): (s: seq<nat>)
    requires base > 0
    ensures |s| == n && forall i :: 0 <= i < n ==> s[i] < base
  {
    if n == 0 then [] else [v % base] + Digits(base, n - 1, v / base)
  }

  function Weight(base: nat, n: nat): nat {
    if n == 0 then 1 else base * Weight(base, n - 1)
  }

  predicate AreDigits(base: nat, s: seq<nat>) {
    forall i :: 0 <= i < |s| ==> s[i] < base
  }

  lemma WeightPow2(w: nat, n: nat)
    ensures Weight(Pow2(w), n) == Pow2(w * n)
  {
    if n > 0 {
      WeightPow2(w, n - 1);
      var rest := w * (n - 1);
      assert w * n == w + rest;
      Pow2Add(w, rest);
    }
  }

  lemma {:induction false} LeValueAppend(base: nat, s: seq<nat>, t: seq<nat>)
    ensures LeValue(base, s + t) == LeValue(base, s) + Weight(base, |s|) * LeValue(base, t)
  {
    if |s| == 0 {
      assert s + t == t;
    } else {
      LeValueAppend(base, s[1..], t);
      assert (s + t)[1..] == s[1..] + t;
      var p, v := Weight(base, |s| - 1), LeValue(base, t);
      assert base * (LeValue(base, s[1..]) + p * v) == base * LeValue(base, s[1..]) + (base * p) * v;
    }
  }

  /** Digits are determined by the number. */
  lemma {:induction false} DigitsOfValue(base: nat, s: seq<nat>)
    requires base > 0 && AreDigits(base, s)
    ensures Digits(base, |s|, LeValue(base, s)) == s
  {
    if |s| > 0 {
      var v := LeValue(base, s[1..]);
      DivModUnique(s[0] + base * v, base, v, s[0]);
      DigitsOfValue(base, s[1..]);
    }
  }

  lemma {:induction false} ValueOfDigits(base: nat, n: nat, v: nat)
    requires base > 0 && v < Weight(base, n)
    ensures LeValue(base, Digits(base, n, v)) == v
  {
    if n > 0 {
      var p := Weight(base, n - 1);
      assert v == base * (v / base) + v % base;
      if v / base >= p {
        MulLe(p, v / base, base);
      }
      ValueOfDigits(base, n - 1, v / base);
      assert Digits(base, n, v)[1..] == Digits(base, n - 1, v / base);
    }
  }

  lemma {:induction false} LeValueBound(base: nat, s: seq<nat>)
    requires base > 0 && AreDigits(base, s)
    ensures LeValue(base, s) < Weight(base, |s|)
  {
    if |s| > 0 {
      LeValueBound(base, s[1..]);
      var v, p := LeValue(base, s[1..]), Weight(base, |s| - 1);
      MulLe(v + 1, p, base);
      assert (v + 1) * base == base * v + base && p * base == base * p;
    }
  }

  // ----- bits of digits ---------------------------------------------------------------------

  /** Bit n of v, counting from the lowest. */
  function Bit(v: nat, n: nat): nat {
    v / Pow2(n) % 2
  }

  lemma DivDiv(v: nat, a: nat, b: nat)
    requires a > 0 && b > 0
    ensures a * b > 0 && v / a / b == v / (a * b)
  {
    var q, r := v / a / b, v / a % b;
    assert v / a == q * b + r;
    assert v == (q * b + r) * a + v % a;
    MulLe(r + 1, b, a);
    assert (q * b + r) * a == q * (a * b) + r * a;
    DivModUnique(v, a * b, q, r * a + v % a);
  }

  /** A multiple of 2p above does not reach the bit of weight p. */
  lemma BitBelow(p: nat, low: nat, h: nat)
    requires p > 0
    ensures (low + (2 * h) * p) / p % 2 == low / p % 2
  {
    DivModUnique(low + (2 * h) * p, p, low / p + 2 * h, low % p);
  }

  lemma Regroup(p: nat, e: nat, high: nat)
    ensures (p * (2 * e)) * high == (2 * (e * high)) * p
  {
  }

  lemma BitOfSum(w: nat, low: nat, high: nat, n: nat)
    requires low < Pow2(w)
    ensures Bit(low + Pow2(w) * high, n) == if n < w then Bit(low, n) else Bit(high, n - w)
  {
    hide Pow2;
    if n < w {
      Pow2Add(n, w - n);
      Pow2Next(w - n - 1);
      assert Pow2(w) * high == (Pow2(n) * (2 * Pow2(w - n - 1))) * high;
      BitBelow(Pow2(n), low, Pow2(w - n - 1) * high);
      Regroup(Pow2(n), Pow2(w - n - 1), high);
    } else {
      Pow2Add(w, n - w);
      DivDiv(low + Pow2(w) * high, Pow2(w), Pow2(n - w));
      DivModUnique(low + Pow2(w) * high, Pow2(w), high, low);
    }
  }

  /** Bit n of a number is bit n % w of its digit n / w in base 2^w. */
  lemma {:induction false} BitOfDigit(w: nat, s: seq<nat>, n: nat)
    requires w > 0 && AreDigits(Pow2(w), s) && n < w * |s|
    ensures n / w < |s| && Bit(LeValue(Pow2(w), s), n) == Bit(s[n / w], n % w)
  {
    hide Pow2, Bit;
    BitOfSum(w, s[0], LeValue(Pow2(w), s[1..]), n);
    if n < w {
      DivModUnique(n, w, 0, n);
    } else {
      assert w * |s| == w + w * |s[1..]|;
      BitOfDigit(w, s[1..], n - w);
      DivModUnique(n, w, (n - w) / w + 1, (n - w) % w);
    }
  }
}
