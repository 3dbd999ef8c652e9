/** Rejection sampling of a transformed polynomial from a byte stream. */
module Sampling {
  import opened Common
  import opened Integers
  import opened Bits
  import opened Radix
  import opened BitFields
  import opened Zq
  import opened Packing

  // ----- what is sampled ---------------------------------------------------------------------------------

  /** The 12-bit words of a byte string: the base-4096 digits of the number it denotes. */
  function WordsOf(s: seq<byte>): (w: seq<nat>)
    ensures |w| == 2 * (|s| / 3)
  {
    Digits(4096, 2 * (|s| / 3), LeValue(256, s))
  }

  /** The words below the prime, in order. */
  function Accepted(w: seq<nat>): (a: seq<zq>)
    ensures |a| <= |w|
  {
    if w == [] then [] else Accepted(w[..|w| - 1]) + (if w[|w| - 1] < 3329 then [w[|w| - 1]] else [])
  }

  /** The first 256 of the accepted words, or all of them when there are fewer. */
  function Sampled(w: seq<nat>): (p: seq<zq>)
    ensures |p| == Least(256, |Accepted(w)|)
  {
    Accepted(w)[..Least(256, |Accepted(w)|)]
  }

  // ----- words of a growing prefix -------------------------------------------------------------------------

  lemma WordsGrow(s: seq<byte>, n: nat)
    requires n % 3 == 0 && n + 3 <= |s|
    ensures WordsOf(s[..n + 3]) == WordsOf(s[..n]) + Unpack12(s[n..n + 3])
    ensures AreDigits(4096, WordsOf(s[..n]))
  {
    hide LeValue, Unpack12, Weight, Pow2;
    var a, b := s[..n], s[n..n + 3];
    assert s[..n + 3] == a + b;
    var i := n / 3;
    Pow2Values();
    PrefixValue(a);
    Unpack12Value(b);
    Unpack12Digits(b);
    UnpackLength(b);
    AppendGroup(12, i, a, WordsOf(a), b, Unpack12(b));
    DigitsOfValue(4096, WordsOf(a) + Unpack12(b));
    assert |WordsOf(a) + Unpack12(b)| == 2 * (|a + b| / 3);
  }

  lemma PrefixValue(a: seq<byte>)
    requires |a| % 3 == 0
    ensures LeValue(4096, WordsOf(a)) == LeValue(256, a)
  {
    hide LeValue, Weight, Pow2;
    assert AreDigits(256, a);
    LeValueBound(256, a);
    SameScale(12, |a| / 3);
    Pow2Values();
    ValueOfDigits(4096, 2 * (|a| / 3), LeValue(256, a));
  }

  lemma AcceptedAppend(w: seq<nat>, x: nat)
    ensures Accepted(w + [x]) == Accepted(w) + if x < 3329 then [x] else []
  {
    assert (w + [x])[..|w|] == w;
  }

  /** What one more word does to the samples. */
  function Take(v: seq<zq>, d: nat): (u: seq<zq>)
    requires |v| <= 256
    ensures |v| <= |u| <= 256
  {
    if d < 3329 && |v| < 256 then v + [d] else v
  }

  lemma SampledAppend(w: seq<nat>, x: nat)
    ensures Sampled(w + [x]) == Take(Sampled(w), x)
  {
    hide Accepted;
    AcceptedAppend(w, x);
  }

  lemma SampledPair(w: seq<nat>, x: nat, y: nat)
    ensures Sampled(w + [x, y]) == Sampled((w + [x]) + [y])
  {
    assert w + [x, y] == (w + [x]) + [y];
  }

  /** Once 256 words are accepted, the rest of the stream does not matter. */
  lemma {:induction false} FullIsFinal(s: seq<byte>, n: nat)
    requires n % 3 == 0 && |s| % 3 == 0 && n <= |s| && |Sampled(WordsOf(s[..n]))| == 256
    ensures Sampled(WordsOf(s)) == Sampled(WordsOf(s[..n]))
    decreases |s| - n
  {
    hide WordsOf, Sampled, Unpack12;
    if n == |s| {
      assert s[..n] == s;
    } else {
      GroupSampled(s, n);
      FullIsFinal(s, n + 3);
    }
  }

  lemma GroupSampled(s: seq<byte>, n: nat)
    requires n % 3 == 0 && n + 3 <= |s|
    ensures
      var d := Unpack12(s[n..n + 3]);
      Sampled(WordsOf(s[..n + 3])) == Take(Take(Sampled(WordsOf(s[..n])), d[0]), d[1])
  {
    hide WordsOf, Sampled, Unpack12, Take;
    var w, d := WordsOf(s[..n]), Unpack12(s[n..n + 3]);
    WordsGrow(s, n);
    assert |d| == 2 by { UnpackLength(s[n..n + 3]); }
    assert d == [d[0], d[1]];
    SampledPair(w, d[0], d[1]);
    SampledAppend(w, d[0]);
    SampledAppend(w + [d[0]], d[1]);
  }

  lemma UnpackLength(b: seq<byte>)
    requires |b| == 3
    ensures |Unpack12(b)| == 2
  {
  }

  // ----- the code --------------------------------------------------------------------------------------------

  /** Samples from the blocks that a stream supplies; the source squeezes one block after another. */
  method SampleNtt(stream: seq<byte>, poly: array<zq>) returns (count: nat)
    requires poly.Length == 256 && |stream| % 168 == 0
    modifies poly
    ensures count <= 256 && poly[..count] == Sampled(WordsOf(stream))
    ensures count < 256 ==> count == |Accepted(WordsOf(stream))|
  {
    hide WordsOf, Sampled, Unpack12, Accepted;
    count := 0;
    var pos: nat := 0;
    NothingSampled(stream);
    while count < 256 && pos < |stream|
      invariant pos <= |stream| && pos % 168 == 0 && count <= 256
      invariant poly[..count] == Sampled(WordsOf(stream[..pos])) || count == 256
      invariant count == 256 ==> poly[..] == Sampled(WordsOf(stream))
      decreases |stream| - pos
    {
      BlockFits(|stream|, pos);
      count := SampleBlock(stream[pos..pos + 168], stream, pos, poly, count);
      pos := pos + 168;
    }
    assert count < 256 ==> stream[..pos] == stream;
    assert poly[..256] == poly[..];
    assert count < 256 ==> |Sampled(WordsOf(stream))| == count;
  }

  lemma BlockFits(n: nat, pos: nat)
    requires n % 168 == 0 && pos % 168 == 0 && pos < n
    ensures pos + 168 <= n && (pos + 168) % 168 == 0 && pos % 3 == 0 && n % 3 == 0
  {
  }

  lemma SliceOfSlice(s: seq<byte>, pos: nat, off: nat)
    requires pos + 168 <= |s| && off + 3 <= 168
    ensures s[pos..pos + 168][off..off + 3] == s[pos + off..pos + off + 3]
  {
    var u := s[pos..pos + 168];
    var v, w := u[off..off + 3], s[pos + off..pos + off + 3];
    forall i | 0 <= i < 3
      ensures v[i] == w[i]
    {
      assert v[i] == u[off + i];
    }
  }

  lemma NothingSampled(stream: seq<byte>)
    ensures Sampled(WordsOf(stream[..0])) == []
  {
    assert |Accepted(WordsOf(stream[..0]))| == 0;
    assert |Sampled(WordsOf(stream[..0]))| == 0;
  }

  /** Takes the two words of one group of three bytes. */
  method SampleGroup(group: seq<byte>, poly: array<zq>, at: nat) returns (count: nat)
    requires poly.Length == 256 && at < 256 && |group| == 3
    modifies poly
    ensures at <= count <= 256
    ensures
      var d := Unpack12(group);
      poly[..count] == Take(Take(old(poly[..at]), d[0]), d[1])
  {
    hide Unpack12;
    UnpackLength(group);
    var d := Unpack12(group);
    var d1, d2 := d[0], d[1];
    count := at;
    if d1 < 3329 {
      poly[count] := d1;
      count := count + 1;
    }
    assert poly[..count] == Take(old(poly[..at]), d1);
    ghost var v := poly[..count];
    if d2 < 3329 && count < 256 {
      poly[count] := d2;
      count := count + 1;
    }
    assert poly[..count] == Take(v, d2);
  }

  method SampleBlock(buf: seq<byte>, ghost stream: seq<byte>, ghost pos: nat, poly: array<zq>, filled: nat)
    returns (count: nat)
    requires poly.Length == 256 && |stream| % 3 == 0 && pos % 3 == 0 && pos + 168 <= |stream|
    requires buf == stream[pos..pos + 168]
    requires filled < 256 && poly[..filled] == Sampled(WordsOf(stream[..pos]))
    modifies poly
    ensures count <= 256
    ensures poly[..count] == Sampled(WordsOf(stream[..pos + 168])) || count == 256
    ensures count == 256 ==> poly[..] == Sampled(WordsOf(stream))
  {
    hide WordsOf, Sampled, Unpack12, Accepted, Take;
    count := filled;
    var off: nat := 0;
    while off < |buf| && count < 256
      invariant off <= 168 && off % 3 == 0 && count <= 256
      invariant poly[..count] == Sampled(WordsOf(stream[..pos + off]))
    {
      assert off + 3 <= |buf|;
      SliceOfSlice(stream, pos, off);
      GroupSampled(stream, pos + off);
      count := SampleGroup(buf[off..off + 3], poly, count);
      off := off + 3;
    }
    if count == 256 {
      assert poly[..256] == poly[..];
      FullIsFinal(stream, pos + off);
    } else {
      assert off == 168;
      assert poly[..count] == Sampled(WordsOf(stream[..pos + 168]));
    }
  }
}
