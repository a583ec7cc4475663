/** Arithmetic on the shape of an index space: a sequence of dimension sizes.
    Everything here is about plain sequences of naturals; the `Extents` module
    turns an extents value into such a sequence with `Sizes()`. */
module Shapes {

  /** The number of elements of an index space: the product of its sizes
      (the empty product, for rank 0, is 1). */
  function Product(s: seq<nat>): nat
    decreases |s|
  {
    if |s| == 0 then 1 else s[0] * Product(s[1..])
  }

  /** `i` is a full-rank index tuple and every index lies in `[0, s[r])`. */
  predicate InBounds(s: seq<nat>, i: seq<int>) {
    |i| == |s| && forall r :: 0 <= r < |s| ==> 0 <= i[r] < s[r]
  }

  /** Every prefix product of `s` is at most `max`: the running product of a
      left-to-right multiplication never exceeds `max`. */
  ghost predicate SpanFits(s: seq<nat>, max: nat) {
    forall n :: 0 <= n <= |s| ==> Product(s[..n]) <= max
  }

  lemma {:induction false} ProductAppend(a: seq<nat>, b: seq<nat>)
    ensures Product(a + b) == Product(a) * Product(b)
    decreases |a|
  {
    if |a| == 0 {
      assert a + b == b;
    } else {
      assert (a + b)[1..] == a[1..] + b;
      ProductAppend(a[1..], b);
      assert Product(a + b) == a[0] * (Product(a[1..]) * Product(b));
    }
  }

  /** One step of the left-to-right product. */
  lemma ProductSnoc(s: seq<nat>, n: nat)
    requires n < |s|
    ensures Product(s[..n + 1]) == Product(s[..n]) * s[n]
  {
    assert s[..n + 1] == s[..n] + [s[n]];
    ProductAppend(s[..n], [s[n]]);
    assert Product([s[n]]) == s[n] * Product([]);
  }

  /** One step of the right-to-left product. */
  lemma ProductFrom(s: seq<nat>, n: nat)
    requires n < |s|
    ensures Product(s[n..]) == s[n] * Product(s[n + 1..])
  {
    assert s[n..][1..] == s[n + 1..];
  }

  /** The product is nonzero exactly when no size is zero. */
  lemma {:induction false} ProductPositive(s: seq<nat>)
    ensures Product(s) > 0 <==> forall r :: 0 <= r < |s| ==> s[r] > 0
    decreases |s|
  {
    if |s| > 0 {
      ProductPositive(s[1..]);
      assert forall r :: 1 <= r < |s| ==> s[r] == s[1..][r - 1];
    }
  }

  lemma MulAtLeastOne(x: nat, y: nat)
    requires y >= 1
    ensures x <= x * y
  {
  }

  /** In a nonempty index space, each part of the shape has a product no
      larger than the whole. */
  lemma PartsBound(a: seq<nat>, b: seq<nat>)
    requires Product(a + b) > 0
    ensures Product(a) <= Product(a + b) && Product(b) <= Product(a + b)
  {
    ProductAppend(a, b);
    MulAtLeastOne(Product(a), Product(b));
    MulAtLeastOne(Product(b), Product(a));
  }

  /** A prefix product condition bounds the full product. */
  lemma SpanFitsBoundsProduct(s: seq<nat>, max: nat)
    requires SpanFits(s, max)
    ensures Product(s) <= max
  {
    assert s[..|s|] == s;
  }

  /** In a nonempty index space (no size zero) the prefix products are
      bounded by the full product, so "the product fits" and "every prefix
      product fits" coincide. */
  lemma {:induction false} NonEmptySpanFits(s: seq<nat>, max: nat)
    requires 0 < Product(s) <= max
    ensures SpanFits(s, max)
  {
    forall n | 0 <= n <= |s|
      ensures Product(s[..n]) <= max
    {
      assert s == s[..n] + s[n..];
      PartsBound(s[..n], s[n..]);
    }
  }

  /** A zero size makes every longer prefix product zero. */
  lemma ZeroSizeAbsorbs(s: seq<nat>, z: nat, n: nat)
    requires z < n <= |s| && s[z] == 0
    ensures Product(s[..n]) == 0
  {
    assert s[..n] == s[..z] + s[z..n];
    ProductAppend(s[..z], s[z..n]);
    assert s[z..n][0] == 0;
  }

  /** The overflow test of a checked multiplication: for a positive
      factor `e`, `prod > max / e` exactly when `prod * e > max`. */
  lemma DivCompare(prod: nat, max: nat, e: nat)
    requires e > 0
    ensures prod > max / e <==> prod * e > max
  {
    var q := max / e;
    assert max == q * e + max % e;
    if prod > q {
      assert prod * e >= (q + 1) * e;
    } else {
      assert prod * e <= q * e;
    }
  }
}
