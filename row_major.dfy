/** Row-major linearisation of an index space given by its sizes: the
    offset of a tuple, the stride of a dimension, and the order in which
    nested loops (last index innermost) visit the tuples. */
module RowMajor {
  import opened Shapes

  /** `((i0*E1 + i1)*E2 + ...)*E(N-1) + i(N-1)`, and 0 for rank 0. */
  function Horner(s: seq<nat>, i: seq<int>): int
    requires |i| == |s|
    decreases |s|
  {
    if |s| == 0 then 0
    else Horner(s[..|s| - 1], i[..|i| - 1]) * s[|s| - 1] + i[|i| - 1]
  }

  /** The stride of dimension `r`: the product of the sizes after it. */
  function RevProd(s: seq<nat>, r: nat): nat
    requires r < |s|
  {
    Product(s[r + 1..])
  }

  /** Appending a dimension of size `e` to a space of `p` elements. */
  lemma MulAddBound(h: int, x: int, e: nat, p: nat)
    requires 0 <= h < p && 0 <= x < e
    ensures 0 <= h * e + x < p * e
  {
    assert h * e <= (p - 1) * e;
  }

  lemma DivBound(k: int, e: nat, m: nat)
    requires 0 <= k < m * e
    ensures e > 0 && 0 <= k / e < m && k == (k / e) * e + k % e
  {
    assert e > 0;
    assert (k / e) * e <= k;
    MulCancelLess(k / e, m, e);
  }

  lemma MulCancelLess(a: int, b: int, e: nat)
    requires e > 0 && a * e < b * e
    ensures a < b
  {
  }

  lemma DivOfMulAdd(h: int, x: int, e: nat)
    requires 0 <= h && 0 <= x < e
    ensures (h * e + x) / e == h && (h * e + x) % e == x
  {
    var k := h * e + x;
    var q, m := k / e, k % e;
    assert k == q * e + m;
    assert (q - h) * e == x - m;
    MulBetween(q - h, e);
  }

  lemma MulBetween(d: int, e: int)
    requires e > 0 && -e < d * e < e
    ensures d == 0
  {
  }

  /** The tuple visited at step `k` of the inner loop over a last dimension
      of size `e`, the outer loops having produced `outer`. */
  function Visit(outer: seq<seq<int>>, e: nat, k: int): seq<int>
    requires 0 <= k < |outer| * e
  {
    DivBound(k, e, |outer|);
    outer[k / e] + [k % e]
  }

  /** All tuples of the index space in the order nested loops visit them,
      the first index in the outermost loop and the last in the innermost. */
  ghost function Enumerate(s: seq<nat>): (ts: seq<seq<int>>)
    ensures |ts| == Product(s)
    decreases |s|
  {
    if |s| == 0 then [[]]
    else
      var n := |s| - 1;
      var outer := Enumerate(s[..n]);
      ProductSnoc(s, n);
      assert s[..n + 1] == s;
      seq(|outer| * s[n], k requires 0 <= k < |outer| * s[n] => Visit(outer, s[n], k))
  }

  /** Every in-bounds tuple's offset lies in `[0, Product(s))`. */
  lemma {:induction false} HornerBounds(s: seq<nat>, i: seq<int>)
    requires InBounds(s, i)
    ensures 0 <= Horner(s, i) < Product(s)
    decreases |s|
  {
    if |s| > 0 {
      var n := |s| - 1;
      assert InBounds(s[..n], i[..n]);
      HornerBounds(s[..n], i[..n]);
      ProductSnoc(s, n);
      assert s[..n + 1] == s;
      MulAddBound(Horner(s[..n], i[..n]), i[n], s[n], Product(s[..n]));
    }
  }

  /** The k-th tuple visited is in bounds and maps to offset k. */
  lemma {:induction false} EnumerateIsRowMajor(s: seq<nat>, k: int)
    requires 0 <= k < Product(s)
    ensures InBounds(s, Enumerate(s)[k]) && Horner(s, Enumerate(s)[k]) == k
    decreases |s|
  {
    if |s| > 0 {
      var n := |s| - 1;
      var e := s[n];
      var outer := Enumerate(s[..n]);
      ProductSnoc(s, n);
      assert s[..n + 1] == s;
      DivBound(k, e, |outer|);
      var q, m := k / e, k % e;
      EnumerateIsRowMajor(s[..n], q);
      var t := Enumerate(s)[k];
      assert t == outer[q] + [m];
      assert t[..n] == outer[q];
      assert InBounds(s, t) by {
        forall r | 0 <= r < |s| ensures 0 <= t[r] < s[r] {
          if r < n {
            assert t[r] == outer[q][r] && s[r] == s[..n][r];
          }
        }
      }
    }
  }

  /** Every in-bounds tuple is visited, and it is visited at the position
      given by its offset. */
  lemma {:induction false} EnumerateCovers(s: seq<nat>, i: seq<int>)
    requires InBounds(s, i)
    ensures 0 <= Horner(s, i) < Product(s) && Enumerate(s)[Horner(s, i)] == i
    decreases |s|
  {
    HornerBounds(s, i);
    if |s| == 0 {
      assert i == [];
    } else {
      var n := |s| - 1;
      var e := s[n];
      var p, ip := s[..n], i[..n];
      assert InBounds(p, ip);
      EnumerateCovers(p, ip);
      var h := Horner(p, ip);
      assert Horner(s, i) == h * e + i[n];
      DivOfMulAdd(h, i[n], e);
      ProductSnoc(s, n);
      assert s[..n + 1] == s;
      assert Enumerate(s)[Horner(s, i)] == Visit(Enumerate(p), e, Horner(s, i));
      assert Enumerate(s)[Horner(s, i)] == Enumerate(p)[h] + [i[n]];
      assert i == ip + [i[n]];
    }
  }

  /** Distinct in-bounds tuples have distinct offsets. */
  lemma HornerInjective(s: seq<nat>, i: seq<int>, j: seq<int>)
    requires InBounds(s, i) && InBounds(s, j) && Horner(s, i) == Horner(s, j)
    ensures i == j
  {
    EnumerateCovers(s, i);
    EnumerateCovers(s, j);
  }

  /** Every offset in `[0, Product(s))` is the offset of some tuple. */
  lemma HornerSurjective(s: seq<nat>, k: int)
    requires 0 <= k < Product(s)
    ensures exists i :: InBounds(s, i) && Horner(s, i) == k
  {
    EnumerateIsRowMajor(s, k);
  }

  /** Raising index `r` by one raises the offset by the stride of `r`. */
  lemma {:induction false} HornerStride(s: seq<nat>, i: seq<int>, r: nat)
    requires |i| == |s| && r < |s|
    ensures Horner(s, i[r := i[r] + 1]) == Horner(s, i) + RevProd(s, r)
    decreases |s|
  {
    var n := |s| - 1;
    var j := i[r := i[r] + 1];
    var p, e := s[..n], s[n];
    if r == n {
      assert j[..n] == i[..n];
      assert s[n + 1..] == [];
    } else {
      var ip, jp := i[..n], j[..n];
      assert jp == ip[r := ip[r] + 1];
      HornerStride(p, ip, r);
      RevProdSnoc(s, r);
      assert j[n] == i[n];
      StrideScales(Horner(p, ip), RevProd(p, r), e, i[n]);
    }
  }

  lemma RevProdSnoc(s: seq<nat>, r: nat)
    requires r + 1 < |s|
    ensures RevProd(s, r) == RevProd(s[..|s| - 1], r) * s[|s| - 1]
  {
    var n := |s| - 1;
    assert s[r + 1..] == s[..n][r + 1..] + [s[n]];
    ProductAppend(s[..n][r + 1..], [s[n]]);
    assert Product([s[n]]) == s[n];
  }

  lemma StrideScales(h: int, d: int, e: int, x: int)
    ensures (h + d) * e + x == h * e + x + d * e
  {
  }
}
