/** The bit-packed module grid: its size in the first byte, one bit per module after it. */
module Grid {
  import opened Bits
  import opened Octets

  /** Modules row by row; true is black. */
  type Modules = seq<bool>

  /** A side that some version has. */
  predicate IsSide(n: nat) {
    21 <= n <= 177 && n % 4 == 1
  }

  function Area(n: nat): (a: nat)
    ensures n > 0 ==> a > 0
  {
    n * n
  }

  ghost predicate IsGrid(q: seq<Byte>, n: nat) {
    IsSide(n) && |q| >= (Area(n) + 7) / 8 + 1 && ByteValue(q[0]) == n
  }

  /** The modules a buffer holds. */
  function ModulesOf(q: seq<Byte>, n: nat): (g: Modules)
    requires |q| >= (Area(n) + 7) / 8 + 1
    ensures |g| == Area(n)
  {
    seq(Area(n), i requires 0 <= i < Area(n) => q[i / 8 + 1][i % 8])
  }

  function At(n: nat, x: nat, y: nat): (i: nat)
    requires x < n && y < n
    ensures i < Area(n)
  {
    MulLe(y + 1, n, n);
    y * n + x
  }

  lemma AtUnique(n: nat, x: nat, y: nat)
    requires x < n && y < n
    ensures At(n, x, y) / n == y && At(n, x, y) % n == x
  {
    DivModUnique(y * n + x, n, y, x);
  }

  lemma AtOfIndex(n: nat, i: nat)
    requires n > 0 && i < Area(n)
    ensures i % n < n && 0 <= i / n < n && At(n, i % n, i / n) == i
  {
    assert i == i / n * n + i % n;
    CancelLt(i / n, n, n);
    if i / n < 0 {
      MulLe(i / n, -1, n);
    }
  }

  method GetSize(qrcode: array<Byte>) returns (n: nat)
    requires qrcode.Length > 0
    ensures n == ByteValue(qrcode[0])
  {
    n := ByteValue(qrcode[0]);
  }

  method GetModule(qrcode: array<Byte>, x: nat, y: nat) returns (black: bool)
    requires qrcode.Length > 0 && IsGrid(qrcode[..], ByteValue(qrcode[0]))
    requires x < ByteValue(qrcode[0]) && y < ByteValue(qrcode[0])
    ensures
      var n := ByteValue(qrcode[0]);
      black == ModulesOf(qrcode[..], n)[At(n, x, y)]
  {
    hide ByteValue, Area;
    var n := GetSize(qrcode);
    var index := At(n, x, y);
    black := qrcode[index / 8 + 1][index % 8];
  }

  /** Bit k of a byte set or cleared. */
  function WithBit(b: Byte, k: nat, value: bool): Byte
    requires k < 8
  {
    b[k := value]
  }

  method SetModule(qrcode: array<Byte>, x: nat, y: nat, black: bool)
    requires qrcode.Length > 0 && IsGrid(qrcode[..], ByteValue(qrcode[0]))
    requires x < ByteValue(qrcode[0]) && y < ByteValue(qrcode[0])
    modifies qrcode
    ensures qrcode[0] == old(qrcode[0]) && IsGrid(qrcode[..], ByteValue(qrcode[0]))
    ensures
      var n := ByteValue(qrcode[0]);
      ModulesOf(qrcode[..], n) == old(ModulesOf(qrcode[..], ByteValue(qrcode[0])))[At(n, x, y) := black]
  {
    hide ByteValue, Area;
    var n := GetSize(qrcode);
    var index := At(n, x, y);
    var bitIndex, byteIndex := index % 8, index / 8 + 1;
    ghost var was := qrcode[..];
    qrcode[byteIndex] := WithBit(qrcode[byteIndex], bitIndex, black);
    forall i | 0 <= i < Area(n)
      ensures ModulesOf(qrcode[..], n)[i] == ModulesOf(was, n)[index := black][i]
    {
      if i / 8 == index / 8 && i != index {
        assert i % 8 != bitIndex;
      }
    }
  }
}
