/** Counting the cells of rectangles and products of intervals. */
module CellSets {

  type Cells = set<(nat, nat)>

  function Span(from: nat, len: nat): (s: set<nat>)
    ensures forall x :: x in s <==> from <= x < from + len
    ensures |s| == len
  {
    if len == 0 then {} else Span(from, len - 1) + {from + len - 1}
  }

  function Product(a: set<nat>, b: set<nat>): Cells {
    set x, y | x in a && y in b :: (x, y)
  }

  lemma {:induction false} RowSize(x: nat, b: set<nat>)
    ensures |Product({x}, b)| == |b|
    decreases b
  {
    if b == {} {
      assert Product({x}, b) == {};
    } else {
      var y: nat :| y in b;
      RowSize(x, b - {y});
      assert Product({x}, b) == Product({x}, b - {y}) + {(x, y)};
    }
  }

  lemma ProductGrows(a: set<nat>, x: nat, b: set<nat>)
    requires x !in a
    ensures Product(a + {x}, b) == Product(a, b) + Product({x}, b) && Product(a, b) !! Product({x}, b)
  {
  }

  lemma EmptyProduct(b: set<nat>)
    ensures Product({}, b) == {}
  {
  }

  lemma OneMore(m: nat, n: nat)
    ensures (m + 1) * n == m * n + n
  {
  }

  lemma {:induction false} ProductSize(a: set<nat>, b: set<nat>)
    ensures |Product(a, b)| == |a| * |b|
    decreases a
  {
    hide Product;
    if a == {} {
      EmptyProduct(b);
    } else {
      var x: nat :| x in a;
      var rest := a - {x};
      ProductSize(rest, b);
      RowSize(x, b);
      ProductGrows(rest, x, b);
      assert a == rest + {x};
      OneMore(|rest|, |b|);
    }
  }

  function Rect(left: nat, top: nat, width: nat, height: nat): (r: Cells)
    ensures forall c: (nat, nat) :: c in r <==> left <= c.0 < left + width && top <= c.1 < top + height
    ensures |r| == width * height
  {
    ProductSize(Span(left, width), Span(top, height));
    Product(Span(left, width), Span(top, height))
  }

  /** Disjoint parts of a set are counted separately. */
  lemma Parts(a: Cells, b: Cells)
    requires a !! b
    ensures |a + b| == |a| + |b|
  {
  }

  /** One-to-one images have as many elements. */
  lemma {:induction false} ImageSize(s: set<nat>, f: nat -> (nat, nat))
    requires forall a, b :: a in s && b in s && f(a) == f(b) ==> a == b
    ensures |set a | a in s :: f(a)| == |s|
    decreases s
  {
    var image := set a | a in s :: f(a);
    if s == {} {
      assert image == {};
    } else {
      var x: nat :| x in s;
      var rest := s - {x};
      ImageSize(rest, f);
      assert image == (set a | a in rest :: f(a)) + {f(x)};
    }
  }
}
