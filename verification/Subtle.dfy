/** Comparison and selection of bytes without branches. */
module Subtle {
  import opened Integers

  /** All ones when x == y, all zeros otherwise. */
  function CtEq(x: bv8, y: bv8): (e: bv32)
    ensures e == if x == y then 0xffff_ffff else 0
  {
    var a := x ^ y;
    var b := a | (0 - a);
    var c := b >> 7;
    var d := c as bv32;
    d - 1
  }

  /** x when the branch word is all ones, y when it is all zeros. */
  function CtSelect(br: bv32, x: bv8, y: bv8): (selected: bv8)
    ensures br == 0xffff_ffff ==> selected == x
    ensures br == 0 ==> selected == y
  {
    var z := br >> 31;
    var w: bv8 := 0 - (z & 0xff) as bv8;
    (x & w) | (y & !w)
  }

  lemma BitsOfByte(x: byte)
    ensures x as bv8 as int == x
  {
  }

  lemma ByteAsBits(x: byte, y: byte)
    ensures x as bv8 == y as bv8 ==> x == y
    ensures x as bv8 as int == x
  {
    BitsOfByte(x);
    BitsOfByte(y);
    var u, v := x as bv8, y as bv8;
    assert u == v ==> u as int == v as int;
  }

  /** All ones when the two byte ranges agree, all zeros otherwise. */
  method CtMemcmp(a: array<byte>, ao: nat, b: array<byte>, bo: nat, n: nat) returns (flag: bv32)
    requires ao + n <= a.Length && bo + n <= b.Length
    ensures flag == if a[ao..ao + n] == b[bo..bo + n] then 0xffff_ffff else 0
  {
    flag := 0xffff_ffff;
    for i := 0 to n
      invariant flag == if a[ao..ao + i] == b[bo..bo + i] then 0xffff_ffff else 0
    {
      ByteAsBits(a[ao + i], b[bo + i]);
      assert a[ao..ao + (i + 1)] == a[ao..ao + i] + [a[ao + i]];
      assert b[bo..bo + (i + 1)] == b[bo..bo + i] + [b[bo + i]];
      flag := flag & CtEq(a[ao + i] as bv8, b[bo + i] as bv8);
    }
  }

  /** Copies the first source under an all-ones condition and the second under an all-zeros one. */
  method CtCondMemcpy(cond: bv32, sink: array<byte>, x: seq<byte>, y: seq<byte>)
    requires cond == 0xffff_ffff || cond == 0
    requires sink.Length == |x| == |y|
    modifies sink
    ensures sink[..] == if cond == 0 then y else x
  {
    for i := 0 to sink.Length
      invariant sink[..i] == if cond == 0 then y[..i] else x[..i]
    {
      ByteAsBits(x[i], y[i]);
      ByteAsBits(y[i], x[i]);
      var s := CtSelect(cond, x[i] as bv8, y[i] as bv8);
      sink[i] := s as int;
    }
  }
}
