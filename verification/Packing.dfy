/** Serialising polynomials to bytes: both strings are the same number, in base 2^l and in base 256. */
module Packing {
  import opened Integers
  import opened Bits
  import opened Radix
  import opened BitFields
  import opened Zq
  import opened Transform

  /** The coefficient widths the source instantiates. */
  predicate IsWidth(l: nat) {
    l == 1 || l == 4 || l == 5 || l == 10 || l == 11 || l == 12
  }

  /** Coefficients per group; a group fills whole bytes. */
  function GroupLen(l: nat): (g: nat)
    requires IsWidth(l)
    ensures g > 0 && 256 % g == 0
  {
    if l == 10 then 4 else if l == 4 || l == 12 then 2 else 8
  }

  function GroupBytes(l: nat): (h: nat)
    requires IsWidth(l)
    ensures 8 * h == l * GroupLen(l) && 256 / GroupLen(l) * h == 32 * l
  {
    if l == 1 || l == 4 then 1 else if l == 12 then 3 else if l == 11 then 11 else 5
  }

  function PackGroup(l: nat, t: seq<nat>): (b: seq<nat>)
    requires IsWidth(l) && |t| == GroupLen(l)
    ensures |b| == GroupBytes(l)
  {
    if l == 1 then Pack1(t) else if l == 4 then Pack4(t) else if l == 5 then Pack5(t)
    else if l == 10 then Pack10(t) else if l == 11 then Pack11(t) else Pack12(t)
  }

  function UnpackGroup(l: nat, b: seq<byte>): (t: seq<nat>)
    requires IsWidth(l) && |b| == GroupBytes(l)
    ensures |t| == GroupLen(l)
  {
    if l == 1 then Unpack1(b) else if l == 4 then Unpack4(b) else if l == 5 then Unpack5(b)
    else if l == 10 then Unpack10(b) else if l == 11 then Unpack11(b) else Unpack12(b)
  }

  lemma PackGroupValue(l: nat, t: seq<nat>)
    requires IsWidth(l) && |t| == GroupLen(l)
    ensures AreDigits(256, PackGroup(l, t)) && LeValue(256, PackGroup(l, t)) == LeValue(Pow2(l), Low(l, t))
  {
    hide LeValue, AreDigits, Pack1, Pack4, Pack5, Pack10, Pack11, Pack12, Low, Pow2;
    Pow2Values();
    match l
    case 1 => Pack1Value(t);
    case 4 => Pack4Value(t);
    case 5 => Pack5Value(t);
    case 10 => Pack10Value(t);
    case 11 => Pack11Value(t);
    case 12 => Pack12Value(t);
  }

  lemma UnpackGroupValue(l: nat, b: seq<byte>)
    requires IsWidth(l) && |b| == GroupBytes(l)
    ensures AreDigits(Pow2(l), UnpackGroup(l, b)) && LeValue(Pow2(l), UnpackGroup(l, b)) == LeValue(256, b)
  {
    hide LeValue, AreDigits, Unpack1, Unpack4, Unpack5, Unpack10, Unpack11, Unpack12, Pow2;
    Pow2Values();
    match l
    case 1 => Unpack1Value(b); Unpack1Digits(b);
    case 4 => Unpack4Value(b); Unpack4Digits(b);
    case 5 => Unpack5Value(b); Unpack5Digits(b);
    case 10 => Unpack10Value(b); Unpack10Digits(b);
    case 11 => Unpack11Value(b); Unpack11Digits(b);
    case 12 => Unpack12Value(b); Unpack12Digits(b);
  }

  // ----- what the whole loops compute -----------------------------------------------------------

  /** The byte string of the number whose base-2^l digits are the low l bits of the coefficients. */
  function EncodeOf(l: nat, f: seq<nat>): (b: seq<byte>)
    ensures |b| == 32 * l
  {
    Digits(256, 32 * l, LeValue(Pow2(l), Low(l, f)))
  }

  /** The base-2^l digits of the number a byte string denotes. */
  function Words(l: nat, b: seq<byte>): (t: seq<nat>)
    ensures |t| == 256 && AreDigits(Pow2(l), t)
  {
    Digits(Pow2(l), 256, LeValue(256, b))
  }

  /** Decoding reduces 12-bit words modulo the prime; shorter words are canonical already. */
  function DecodeOf(l: nat, b: seq<byte>): Poly {
    seq(256, i requires 0 <= i < 256 => Mod(Words(l, b)[i]))
  }

  lemma SameScale(l: nat, i: nat)
    requires IsWidth(l)
    ensures Weight(256, GroupBytes(l) * i) == Weight(Pow2(l), GroupLen(l) * i)
  {
    hide Weight, Pow2;
    assert Pow2(8) == 256 by { Pow2Values(); }
    WeightPow2(8, GroupBytes(l) * i);
    WeightPow2(l, GroupLen(l) * i);
    assert 8 * (GroupBytes(l) * i) == (8 * GroupBytes(l)) * i;
    assert l * (GroupLen(l) * i) == (l * GroupLen(l)) * i;
  }

  /** Appending a byte group to one string and its coefficients to the other keeps the number the same. */
  lemma AppendGroup(l: nat, i: nat, b: seq<nat>, t: seq<nat>, b': seq<nat>, t': seq<nat>)
    requires IsWidth(l) && |b| == GroupBytes(l) * i && |t| == GroupLen(l) * i
    requires LeValue(256, b) == LeValue(Pow2(l), t) && LeValue(256, b') == LeValue(Pow2(l), t')
    ensures LeValue(256, b + b') == LeValue(Pow2(l), t + t')
  {
    hide LeValue, Weight, Pow2, GroupLen, GroupBytes;
    SameScale(l, i);
    LeValueAppend(256, b, b');
    LeValueAppend(Pow2(l), t, t');
  }

  // ----- the code ----------------------------------------------------------------------------

  /** Stores one group of bytes or coefficients. */
  method Store<T>(arr: array<T>, at: nat, group: seq<T>)
    requires at + |group| <= arr.Length
    modifies arr
    ensures arr[..] == old(arr[..at]) + group + old(arr[at + |group|..])
  {
    for k := 0 to |group|
      invariant arr[..] == old(arr[..at]) + group[..k] + old(arr[at + k..])
    {
      arr[at + k] := group[k];
    }
  }

  /** A group stored behind what was stored before. */
  lemma Splice<T>(s: seq<T>, head: seq<T>, done: seq<T>, group: seq<T>, tail: seq<T>, at: nat)
    requires at == |head| + |done| && |group| <= |tail| && s == head + done + tail
    ensures s[..at] + group + s[at + |group|..] == head + (done + group) + tail[|group|..]
  {
  }

  lemma SubSlice<T>(s: seq<T>, a: nat, n: nat, x: nat, m: nat)
    requires a + n <= |s| && x + m <= n
    ensures s[a..a + n][x..x + m] == s[a + x..a + x + m]
  {
    var u, v := s[a..a + n][x..x + m], s[a + x..a + x + m];
    forall i | 0 <= i < m
      ensures u[i] == v[i]
    {
      assert s[a..a + n][x + i] == s[a + (x + i)];
    }
  }

  lemma GroupFits(l: nat, i: nat)
    requires IsWidth(l) && i < 256 / GroupLen(l)
    ensures GroupLen(l) * (i + 1) == GroupLen(l) * i + GroupLen(l) <= 256
    ensures GroupBytes(l) * (i + 1) == GroupBytes(l) * i + GroupBytes(l) <= 32 * l
  {
    hide IsWidth;
    var cnt := 256 / GroupLen(l);
    MulLe(i + 1, cnt, GroupLen(l));
    MulLe(i + 1, cnt, GroupBytes(l));
  }

  lemma GroupsDone(l: nat)
    requires IsWidth(l)
    ensures GroupLen(l) * (256 / GroupLen(l)) == 256 && GroupBytes(l) * (256 / GroupLen(l)) == 32 * l
  {
  }

  lemma LowAppend(l: nat, f: seq<nat>, a: nat, n: nat)
    requires a + n <= |f|
    ensures Low(l, f[..a + n]) == Low(l, f[..a]) + Low(l, f[a..a + n])
  {
    hide Field;
  }

  /** The bytes written so far denote the first i groups of coefficients. */
  ghost predicate Encoded(l: nat, f: Poly, i: nat, done: seq<nat>)
    requires IsWidth(l)
  {
    && GroupLen(l) * i <= 256
    && |done| == GroupBytes(l) * i
    && LeValue(256, done) == LeValue(Pow2(l), Low(l, f[..GroupLen(l) * i]))
  }

  lemma EncodeStarts(l: nat, f: Poly)
    requires IsWidth(l)
    ensures Encoded(l, f, 0, [])
  {
  }

  lemma EncodeStep(l: nat, f: Poly, i: nat, done: seq<nat>, b: seq<nat>)
    requires IsWidth(l) && i < 256 / GroupLen(l) && Encoded(l, f, i, done)
    requires GroupLen(l) * i + GroupLen(l) <= 256
    requires b == PackGroup(l, f[GroupLen(l) * i..GroupLen(l) * i + GroupLen(l)])
    ensures Encoded(l, f, i + 1, done + b)
  {
    hide LeValue, PackGroup, Low, Pow2, GroupLen, GroupBytes, IsWidth;
    var g := GroupLen(l);
    var t := f[g * i..g * i + g];
    GroupFits(l, i);
    PackGroupValue(l, t);
    LowAppend(l, f, g * i, g);
    AppendGroup(l, i, done, Low(l, f[..g * i]), b, Low(l, t));
  }

  lemma EncodeDone(l: nat, f: Poly, done: seq<byte>)
    requires IsWidth(l) && Encoded(l, f, 256 / GroupLen(l), done)
    ensures done == EncodeOf(l, f)
  {
    hide LeValue, Low, Pow2, GroupLen, GroupBytes, IsWidth, Digits;
    GroupsDone(l);
    assert f[..256] == f;
    DigitsOfValue(256, done);
  }

  /** Encodes one group of coefficients behind the bytes stored so far. */
  method EncodeGroup(l: nat, t: seq<zq>, arr: array<byte>, at: nat, ghost head: seq<byte>, ghost done: seq<byte>,
                     ghost tail: seq<byte>) returns (ghost b: seq<byte>)
    requires IsWidth(l) && |t| == GroupLen(l) && GroupBytes(l) <= |tail|
    requires arr[..] == head + done + tail && at == |head| + |done|
    modifies arr
    ensures b == PackGroup(l, t) && |b| == GroupBytes(l)
    ensures arr[..] == head + (done + b) + tail[GroupBytes(l)..]
  {
    hide PackGroup, GroupLen, GroupBytes, IsWidth, LeValue, Pow2, Low;
    PackGroupValue(l, t);
    var packed: seq<byte> := PackGroup(l, t);
    b := packed;
    Splice(arr[..], head, done, b, tail, at);
    Store(arr, at, packed);
  }

  method Encode(l: nat, poly: array<zq>, po: nat, arr: array<byte>, ao: nat)
    requires IsWidth(l) && po + 256 <= poly.Length && ao + 32 * l <= arr.Length
    modifies arr
    ensures arr[..] == old(arr[..ao]) + EncodeOf(l, Span(poly, po)) + old(arr[ao + 32 * l..])
  {
    hide PackGroup, GroupLen, GroupBytes, IsWidth, Encoded, EncodeOf;
    ghost var f, head, rest := Span(poly, po), arr[..ao], arr[ao..];
    var g, h := GroupLen(l), GroupBytes(l);
    var i, at, from: nat := 0, 0, 0;
    ghost var done: seq<byte> := [];
    EncodeStarts(l, f);
    while i < 256 / g
      invariant i <= 256 / g && at == h * i <= 32 * l && from == g * i
      invariant Encoded(l, f, i, done) && |done| == at
      invariant arr[..] == head + done + rest[at..]
    {
      GroupFits(l, i);
      ghost var tail := rest[at..];
      var t := poly[po + from..po + from + g];
      SubSlice(poly[..], po, 256, from, g);
      assert t == f[from..from + g];
      ghost var b := EncodeGroup(l, t, arr, ao + at, head, done, tail);
      EncodeStep(l, f, i, done, b);
      assert tail[h..] == rest[at + h..];
      done := done + b;
      i, at, from := i + 1, at + h, from + g;
    }
    assert at == 32 * l by { GroupsDone(l); }
    EncodeDone(l, f, done);
    assert rest[32 * l..] == old(arr[ao + 32 * l..]);
  }

  /** The field elements of one group of words: only 12-bit words can exceed the prime. */
  function Elements(l: nat, t: seq<nat>): (e: seq<zq>)
    requires IsWidth(l) && AreDigits(Pow2(l), t)
    ensures e == Reduced(t)
  {
    hide FromNonReduced;
    Pow2Values();
    seq(|t|, i requires 0 <= i < |t| => if l == 12 then FromNonReduced(t[i]) else t[i])
  }

  function Reduced(t: seq<nat>): (r: seq<zq>)
    ensures |r| == |t|
  {
    seq(|t|, i requires 0 <= i < |t| => Mod(t[i]))
  }

  /** The words read so far are those of the first i byte groups. */
  ghost predicate Decoded(l: nat, b: seq<byte>, i: nat, words: seq<nat>)
    requires IsWidth(l)
  {
    && GroupBytes(l) * i <= |b|
    && |words| == GroupLen(l) * i
    && AreDigits(Pow2(l), words)
    && LeValue(256, b[..GroupBytes(l) * i]) == LeValue(Pow2(l), words)
  }

  lemma DecodeStarts(l: nat, b: seq<byte>)
    requires IsWidth(l)
    ensures Decoded(l, b, 0, [])
  {
  }

  lemma DecodeStep(l: nat, b: seq<byte>, i: nat, words: seq<nat>, t: seq<nat>)
    requires IsWidth(l) && i < 256 / GroupLen(l) && Decoded(l, b, i, words) && |b| == 32 * l
    requires GroupBytes(l) * i + GroupBytes(l) <= 32 * l
    requires t == UnpackGroup(l, b[GroupBytes(l) * i..GroupBytes(l) * i + GroupBytes(l)])
    ensures Decoded(l, b, i + 1, words + t)
  {
    hide LeValue, UnpackGroup, Pow2, GroupLen, GroupBytes, IsWidth;
    var h := GroupBytes(l);
    var group := b[h * i..h * i + h];
    GroupFits(l, i);
    UnpackGroupValue(l, group);
    assert b[..h * (i + 1)] == b[..h * i] + group;
    AppendGroup(l, i, b[..h * i], words, group, t);
  }

  lemma DecodeDone(l: nat, b: seq<byte>, words: seq<nat>)
    requires IsWidth(l) && |b| == 32 * l && Decoded(l, b, 256 / GroupLen(l), words)
    ensures Reduced(words) == DecodeOf(l, b)
  {
    hide LeValue, Pow2, GroupLen, GroupBytes, IsWidth, Digits;
    GroupsDone(l);
    assert b[..32 * l] == b;
    DigitsOfValue(Pow2(l), words);
  }

  lemma ReducedAppend(s: seq<nat>, t: seq<nat>)
    ensures Reduced(s + t) == Reduced(s) + Reduced(t)
  {
    hide Mod;
  }

  /** Decodes one group of bytes behind the coefficients stored so far. */
  method DecodeGroup(l: nat, group: seq<byte>, poly: array<zq>, at: nat, ghost head: seq<zq>, ghost words: seq<nat>,
                     ghost tail: seq<zq>) returns (ghost t: seq<nat>)
    requires IsWidth(l) && |group| == GroupBytes(l) && GroupLen(l) <= |tail|
    requires poly[..] == head + Reduced(words) + tail && at == |head| + |words|
    modifies poly
    ensures t == UnpackGroup(l, group) && |t| == GroupLen(l)
    ensures poly[..] == head + Reduced(words + t) + tail[GroupLen(l)..]
  {
    hide UnpackGroup, GroupLen, GroupBytes, IsWidth, AreDigits, Elements, Reduced, LeValue, Pow2;
    var words' := UnpackGroup(l, group);
    t := words';
    UnpackGroupValue(l, group);
    ReducedAppend(words, t);
    Splice(poly[..], head, Reduced(words), Elements(l, words'), tail, at);
    Store(poly, at, Elements(l, words'));
  }

  method Decode(l: nat, arr: array<byte>, ao: nat, poly: array<zq>, po: nat)
    requires IsWidth(l) && po + 256 <= poly.Length && ao + 32 * l <= arr.Length
    modifies poly
    ensures poly[..] == old(poly[..po]) + DecodeOf(l, arr[ao..ao + 32 * l]) + old(poly[po + 256..])
  {
    hide UnpackGroup, GroupLen, GroupBytes, IsWidth, Decoded, DecodeOf, AreDigits, Elements, Reduced, LeValue, Pow2;
    ghost var b, head, rest := arr[ao..ao + 32 * l], poly[..po], poly[po..];
    var g, h := GroupLen(l), GroupBytes(l);
    var i, at, from: nat := 0, 0, 0;
    ghost var words: seq<nat> := [];
    DecodeStarts(l, b);
    while i < 256 / g
      invariant i <= 256 / g && at == g * i <= 256 && from == h * i
      invariant Decoded(l, b, i, words) && |words| == at
      invariant poly[..] == head + Reduced(words) + rest[at..]
    {
      GroupFits(l, i);
      ghost var tail := rest[at..];
      var group: seq<byte> := arr[ao + from..ao + from + h];
      SubSlice(arr[..], ao, 32 * l, from, h);
      assert group == b[from..from + h];
      ghost var t := DecodeGroup(l, group, poly, po + at, head, words, tail);
      DecodeStep(l, b, i, words, t);
      assert tail[g..] == rest[at + g..];
      words := words + t;
      i, at, from := i + 1, at + g, from + h;
    }
    assert at == 256 by { GroupsDone(l); }
    assert Reduced(words) == DecodeOf(l, b) by { DecodeDone(l, b, words); }
    assert rest[256..] == old(poly[po + 256..]);
  }

  // ----- round trips ---------------------------------------------------------------------------

  /** Decoding undoes encoding on coefficients of l bits. */
  lemma DecodeOfEncode(l: nat, f: Poly)
    requires IsWidth(l) && AreDigits(Pow2(l), f)
    ensures DecodeOf(l, EncodeOf(l, f)) == f
  {
    hide LeValue, Digits, Pow2, IsWidth, Mod;
    LowOfDigits(l, f);
    LeValueBound(Pow2(l), f);
    ScaleOfPoly(l);
    ValueOfDigits(256, 32 * l, LeValue(Pow2(l), f));
    DigitsOfValue(Pow2(l), f);
    forall i | 0 <= i < 256
      ensures DecodeOf(l, EncodeOf(l, f))[i] == f[i]
    {
      ModCanonical(f[i]);
    }
  }

  lemma LowOfDigits(l: nat, f: seq<nat>)
    requires AreDigits(Pow2(l), f)
    ensures Low(l, f) == f
  {
    hide Pow2, Field;
    forall i | 0 <= i < |f|
      ensures Low(l, f)[i] == f[i]
    {
      FieldMeans(f[i], 0, l);
      FieldOfSmall(f[i], Pow2(l));
    }
  }

  lemma FieldOfSmall(x: nat, p: nat)
    requires x < p
    ensures Pow2(0) == 1 && x / 1 % p == x
  {
  }

  lemma ScaleOfPoly(l: nat)
    requires IsWidth(l)
    ensures Weight(256, 32 * l) == Weight(Pow2(l), 256)
  {
    hide Weight, Pow2;
    GroupsDone(l);
    SameScale(l, 256 / GroupLen(l));
  }

  /** Every 12-bit word of a byte string is below the prime. */
  predicate Canonical(b: seq<byte>) {
    AreDigits(3329, Words(12, b))
  }

  lemma FirstWord(b: seq<byte>)
    requires |b| == 384
    ensures Words(12, b)[0] == (b[0] as int) + 256 * (b[1] % 16) as int
  {
    hide Pow2;
    Pow2Values();
    var t: seq<nat> := b;
    assert LeValue(256, t) == t[0] + 256 * (t[1] + 256 * LeValue(256, t[1..][1..])) by {
      assert t[1..] != [];
    }
    LowTwelve(b[0], b[1], LeValue(256, t[1..][1..]));
  }

  lemma LowTwelve(b0: byte, b1: byte, rest: nat)
    ensures ((b0 as int) + 256 * ((b1 as int) + 256 * rest)) % 4096 == (b0 as int) + 256 * (b1 % 16) as int
  {
    var low, high := (b0 as int) + 256 * (b1 % 16) as int, (b1 / 16) as int + 16 * rest;
    assert (b0 as int) + 256 * ((b1 as int) + 256 * rest) == high * 4096 + low;
    DivModUnique(high * 4096 + low, 4096, high, low);
  }

  lemma EncodeOfWords(l: nat, b: seq<byte>)
    requires IsWidth(l) && |b| == 32 * l
    ensures EncodeOf(l, Words(l, b)) == b
  {
    hide LeValue, Digits, Pow2, IsWidth;
    LeValueBound(256, b);
    ScaleOfPoly(l);
    ValueOfDigits(Pow2(l), 256, LeValue(256, b));
    LowOfDigits(l, Words(l, b));
    DigitsOfValue(256, b);
  }

  /** Encoding undoes decoding for every width below 12. */
  lemma EncodeOfDecode(l: nat, b: seq<byte>)
    requires IsWidth(l) && l < 12 && |b| == 32 * l
    ensures EncodeOf(l, DecodeOf(l, b)) == b
  {
    hide LeValue, Digits, Mod, EncodeOf, Pow2;
    Pow2Values();
    EncodeOfWords(l, b);
    ReducedWords(Words(l, b));
    assert DecodeOf(l, b) == Words(l, b);
  }

  lemma ReducedWords(t: seq<nat>)
    ensures AreDigits(3329, t) <==> Reduced(t) == t
  {
    if Reduced(t) == t {
      forall i | 0 <= i < |t|
        ensures t[i] < 3329
      {
        assert Reduced(t)[i] == Mod(t[i]);
      }
    }
  }

  /** The decode-and-encode test accepts exactly the byte strings whose 12-bit words are all below the prime. */
  lemma ModulusCheck(b: seq<byte>)
    requires |b| == 384
    ensures EncodeOf(12, DecodeOf(12, b)) == b <==> Canonical(b)
  {
    hide LeValue, Digits, Mod, EncodeOf, Pow2, Words;
    var t := Words(12, b);
    ReducedWords(t);
    EncodeOfWords(12, b);
    assert DecodeOf(12, b) == Reduced(t);
    if EncodeOf(12, DecodeOf(12, b)) == b {
      Pow2Values();
      EncodeInjective(Reduced(t), t);
    }
  }

  lemma EncodeInjective(f: seq<nat>, t: seq<nat>)
    requires |f| == 256 == |t| && AreDigits(4096, f) && AreDigits(4096, t)
    requires EncodeOf(12, f) == EncodeOf(12, t)
    ensures f == t
  {
    hide LeValue, Digits;
    Pow2Values();
    EncodedValue(f);
    EncodedValue(t);
    DigitsOfValue(4096, f);
    DigitsOfValue(4096, t);
  }

  lemma EncodedValue(f: seq<nat>)
    requires |f| == 256 && AreDigits(4096, f)
    ensures LeValue(256, EncodeOf(12, f)) == LeValue(4096, f)
  {
    hide LeValue, Digits, Weight;
    Pow2Values();
    LowOfDigits(12, f);
    LeValueBound(4096, f);
    ScaleOfPoly(12);
    ValueOfDigits(256, 384, LeValue(4096, f));
  }

  /** Bit c of byte j is bit (8j + c) % l of coefficient (8j + c) / l: the bit-serial form of encoding. */
  lemma EncodeIsBitSerial(l: nat, f: Poly, n: nat)
    requires IsWidth(l) && n < 256 * l
    ensures n / 8 < 32 * l && n / l < 256
    ensures Bit(EncodeOf(l, f)[n / 8], n % 8) == Bit(f[n / l], n % l)
  {
    hide LeValue, Digits, Pow2, Weight, Bit;
    Pow2Values();
    var t := Low(l, f);
    LowDigits(l, f);
    LeValueBound(Pow2(l), t);
    ScaleOfPoly(l);
    ValueOfDigits(256, 32 * l, LeValue(Pow2(l), t));
    BitOfDigit(8, EncodeOf(l, f), n);
    assert l * 256 == 256 * l;
    BitOfDigit(l, t, n);
    BitOfLow(f[n / l], l, n % l);
  }

  lemma LowDigits(l: nat, f: seq<nat>)
    ensures AreDigits(Pow2(l), Low(l, f))
  {
    hide Pow2, Field;
    forall i | 0 <= i < |f|
      ensures Low(l, f)[i] < Pow2(l)
    {
      FieldBound(f[i], 0, l);
    }
  }

  lemma BitOfLow(x: nat, l: nat, c: nat)
    requires c < l
    ensures Bit(Field(x, 0, l), c) == Bit(x, c)
  {
    hide Pow2, Field;
    FieldMeans(x, 0, l);
    assert Pow2(0) == 1 by { FieldOfSmall(0, 1); }
    var p := Pow2(l);
    assert x == x % p + p * (x / p);
    QuotientNat(x, p);
    BitOfSum(l, x % p, x / p, c);
  }
}
