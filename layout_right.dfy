/** `std::layout_right::mapping<Extents>`: the row-major mapping from a
    multidimensional index to a linear offset, the last index varying
    fastest. The mapping holds one value, its extents, fixed at
    construction; everything else is derived from it. */
module LayoutRight {
  import opened Shapes
  import opened Extents
  import opened RowMajor

  /** What the overflow check computes for a given extents value: an answer,
      or a division by zero, which C++ leaves undefined (and which is a hard
      error when the check runs in a constant expression). */
  datatype CheckOutcome = Answer(representable: bool) | DividesByZero

  /** What the loop of `required_span_size()` computes as written: a value
      of `index_type`, or a signed overflow, which C++ leaves undefined. */
  datatype SpanOutcome = Size(value: int) | Overflows

  /** `a * b + c` in `index_type`: defined only when the result fits. */
  function IndexMulAdd(t: IndexType, a: int, b: int, c: int): int
    requires IsRepresentableAs(t, a * b + c)
  {
    a * b + c
  }

  /** Reducing a factor modulo `m` before multiplying leaves the product's
      residue unchanged. */
  lemma ModMul(a: nat, b: nat, m: nat)
    requires m > 0
    ensures (a % m) * b % m == a * b % m
  {
    var q, w := a / m, a % m;
    var q2, w2 := w * b / m, w * b % m;
    assert a == q * m + w;
    assert w * b == q2 * m + w2;
    calc {
      a * b;
      (q * m + w) * b;
      { MulAddRight(q * m, w, b); }
      (q * m) * b + w * b;
      { assert (q * m) * b == (q * b) * m; }
      (q * b) * m + (q2 * m + w2);
      { MulAddRight(q * b, q2, m); }
      (q * b + q2) * m + w2;
    }
    DivOfMulAdd(q * b + q2, w2, m);
  }

  lemma MulAddRight(x: int, y: int, b: int)
    ensures (x + y) * b == x * b + y * b
  {
  }

  /** No two in-bounds index tuples share an offset. */
  ghost predicate Unique(m: Mapping)
    requires m.Valid()
  {
    forall i, j ::
      m.extents.IsMultidimensionalIndexIn(i) && m.extents.IsMultidimensionalIndexIn(j) && m.Offset(i) == m.Offset(j)
      ==> i == j
  }

  ghost predicate IsOffsetOf(m: Mapping, k: int)
    requires m.Valid()
  {
    exists i :: m.extents.IsMultidimensionalIndexIn(i) && m.Offset(i) == k
  }

  /** Every offset in `[0, required_span_size())` is produced. */
  ghost predicate Exhaustive(m: Mapping)
    requires m.Valid()
  {
    forall k :: 0 <= k < Product(m.extents.Sizes()) ==> IsOffsetOf(m, k)
  }

  /** Raising index `r` by one, staying in bounds, raises the offset by
      the stride of `r`. */
  ghost predicate Strided(m: Mapping)
    requires m.Valid()
  {
    forall i, r ::
      m.extents.IsMultidimensionalIndexIn(i) && 0 <= r < m.Rank() && i[r] + 1 < m.extents.Extent(r) ==>
        m.extents.IsMultidimensionalIndexIn(i[r := i[r] + 1])
        && m.Offset(i[r := i[r] + 1]) == m.Offset(i) + RevProd(m.extents.Sizes(), r)
  }

  datatype Mapping = Mapping(extents: Extents) {

    /** The mapping invariant: the size of the index space is representable
        as `index_type`. */
    predicate Valid() {
      extents.Valid() && IsRepresentableAs(extents.indexType, Product(extents.Sizes()))
    }

    function Rank(): nat {
      extents.Rank()
    }

    // ---- the overflow check -------------------------------------------------

    /** One iteration onwards of the loop of `__required_span_size_is_representable`
        exactly as written: it divides by `extent(r)` without testing it. */
    static function CheckLoopAsWritten(s: seq<nat>, numMax: nat, r: nat, prod: nat): CheckOutcome
      requires 1 <= r <= |s|
      decreases |s| - r
    {
      if r == |s| then Answer(true)
      else if s[r] == 0 then DividesByZero
      else if prod > numMax / s[r] then Answer(false)
      else CheckLoopAsWritten(s, numMax, r + 1, prod * s[r])
    }

    /** Whenever the loop as written answers at all, its answer is whether
        every running product fits; with no zero extent left it always
        answers. */
    static lemma {:induction false} CheckLoopAgrees(s: seq<nat>, numMax: nat, r: nat, prod: nat)
      requires 1 <= r <= |s| && prod == Product(s[..r])
      requires forall n :: 0 <= n <= r ==> Product(s[..n]) <= numMax
      ensures CheckLoopAsWritten(s, numMax, r, prod).Answer? ==>
                CheckLoopAsWritten(s, numMax, r, prod) == Answer(SpanFits(s, numMax))
      ensures (forall k :: r <= k < |s| ==> s[k] > 0) ==> CheckLoopAsWritten(s, numMax, r, prod).Answer?
      decreases |s| - r
    {
      if r == |s| {
        assert SpanFits(s, numMax);
      } else if s[r] != 0 {
        ProductSnoc(s, r);
        DivCompare(prod, numMax, s[r]);
        if prod <= numMax / s[r] {
          CheckLoopAgrees(s, numMax, r + 1, prod * s[r]);
        }
      }
    }

    /** `__required_span_size_is_representable(ext)` as written. Whenever it
        answers, the answer is whether every running product of the extents
        fits in `index_type`; it fails to answer only by dividing by a zero
        extent after the first. */
    static function RepresentableAsWritten(ext: Extents): (res: CheckOutcome)
      requires ext.Valid()
      ensures res.Answer? ==> res == Answer(SpanFits(ext.Sizes(), ext.indexType.Max()))
      ensures (forall r :: 1 <= r < ext.Rank() ==> ext.Extent(r) > 0) ==> res.Answer?
      ensures res == DividesByZero ==> exists r :: 1 <= r < ext.Rank() && ext.Extent(r) == 0
    {
      var s := ext.Sizes();
      if |s| == 0 then
        assert forall n :: 0 <= n <= |s| ==> s[..n] == [];
        Answer(true)
      else
        ProductSnoc(s, 0);
        assert s[..0] == [];
        CheckLoopAgrees(s, ext.indexType.Max(), 1, s[0]);
        CheckLoopAsWritten(s, ext.indexType.Max(), 1, s[0])
    }

    /** The check as written answers true only after dividing by every
        extent after the first, so none of them is zero. */
    static lemma {:induction false} CheckLoopTrueNoZero(s: seq<nat>, numMax: nat, r: nat, prod: nat)
      requires 1 <= r <= |s|
      ensures CheckLoopAsWritten(s, numMax, r, prod) == Answer(true) ==> forall k :: r <= k < |s| ==> s[k] > 0
      decreases |s| - r
    {
      if r < |s| && s[r] != 0 && prod <= numMax / s[r] {
        CheckLoopTrueNoZero(s, numMax, r + 1, prod * s[r]);
      }
    }

    /** When the check as written answers true, every running product of
        the extents fits in `index_type`, and so does their product. */
    static lemma AsWrittenTrueMeansFits(ext: Extents)
      requires ext.Valid()
      ensures RepresentableAsWritten(ext) == Answer(true) ==> SpanFits(ext.Sizes(), ext.indexType.Max())
      ensures RepresentableAsWritten(ext) == Answer(true) ==> IsRepresentableAs(ext.indexType, Product(ext.Sizes()))
    {
      var s := ext.Sizes();
      if |s| > 0 {
        CheckLoopTrueNoZero(s, ext.indexType.Max(), 1, s[0]);
      }
      if RepresentableAsWritten(ext) == Answer(true) {
        SpanFitsBoundsProduct(s, ext.indexType.Max());
      }
    }

    /** `extents<int64_t, 1, 0, dynamic_extent, dynamic_extent>(9, 10)`: its
        index space is empty, so every running product fits, yet the check as
        written reaches `extent(1) == 0` as a divisor. */
    static lemma AsWrittenDividesByZero()
      ensures var ext := Extents.FromDynamic(Int64, [Static(1), Static(0), Dynamic, Dynamic], [9, 10]);
        ext.Sizes() == [1, 0, 9, 10]
        && Product(ext.Sizes()) == 0 && SpanFits(ext.Sizes(), Int64.Max())
        && RepresentableAsWritten(ext) == DividesByZero
    {
      var p := [Static(1), Static(0), Dynamic, Dynamic];
      var ext := Extents.FromDynamic(Int64, p, [9, 10]);
      var s := ext.Sizes();
      DynamicOfAt(p, s, 2);
      DynamicOfAt(p, s, 3);
      assert p[..2] == [Static(1), Static(0)] && p[..3] == [Static(1), Static(0), Dynamic];
      assert s == [1, 0, 9, 10];
      forall n | 0 <= n <= |s|
        ensures Product(s[..n]) <= Int64.Max()
      {
        if n >= 2 {
          ZeroSizeAbsorbs(s, 1, n);
        } else {
          assert s[..n] == [] || s[..n] == [1];
        }
      }
    }

    /** The check demands more than "the product fits": for
        `dextents<int, 3>(65536, 65536, 0)` the index space is empty, but the
        running product 65536 * 65536 does not fit in `int`, and the check
        as written answers false. */
    static lemma CheckStricterThanProduct()
      ensures var ext := Extents.FromAll(Int, [Dynamic, Dynamic, Dynamic], [0x10000, 0x10000, 0]);
        Product(ext.Sizes()) == 0 && !SpanFits(ext.Sizes(), Int.Max())
        && RepresentableAsWritten(ext) == Answer(false)
    {
      var ext := Extents.FromAll(Int, [Dynamic, Dynamic, Dynamic], [0x10000, 0x10000, 0]);
      var s := ext.Sizes();
      assert s[..2] == [0x10000, 0x10000];
      assert s[..2][1..] == [0x10000] && [0x10000][1..] == [];
      assert Product(s[..2]) == 0x1_0000_0000;
      assert s[2..][1..] == [];
      assert Product(s) == 0 by { ProductFrom(s, 0); ProductFrom(s, 1); }
    }

    /** `__required_span_size_is_representable(ext)`, with a zero extent
        handled before the division: it answers whether the running product
        of the extents stays within `numeric_limits<index_type>::max()`,
        which for a nonempty index space is whether the product does. */
    static method RequiredSpanSizeIsRepresentableCorrected(ext: Extents) returns (ok: bool)
      requires ext.Valid()
      ensures ok <==> SpanFits(ext.Sizes(), ext.indexType.Max())
      ensures Product(ext.Sizes()) > 0 ==> (ok <==> IsRepresentableAs(ext.indexType, Product(ext.Sizes())))
      ensures RepresentableAsWritten(ext).Answer? ==> RepresentableAsWritten(ext) == Answer(ok)
    {
      ghost var s := ext.Sizes();
      if Product(s) > 0 {
        if SpanFits(s, ext.indexType.Max()) {
          SpanFitsBoundsProduct(s, ext.indexType.Max());
        } else if Product(s) <= ext.indexType.Max() {
          NonEmptySpanFits(s, ext.indexType.Max());
        }
      }
      if ext.Rank() == 0 {
        assert forall n :: 0 <= n <= |s| ==> s[..n] == [];
        return true;
      }
      var numMax := ext.indexType.Max();
      var prod := ext.Extent(0);
      ProductSnoc(s, 0);
      assert s[..0] == [];
      var r := 1;
      while r < ext.Rank()
        invariant 1 <= r <= ext.Rank()
        invariant prod == Product(s[..r]) && prod <= numMax
        invariant forall n :: 0 <= n <= r ==> Product(s[..n]) <= numMax
      {
        var e := ext.Extent(r);
        if e == 0 {
          forall n | r < n <= |s|
            ensures Product(s[..n]) <= numMax
          {
            ZeroSizeAbsorbs(s, r, n);
          }
          return true;
        }
        ProductSnoc(s, r);
        DivCompare(prod, numMax, e);
        if prod > numMax / e {
          return false;
        }
        prod := prod * e;
        r := r + 1;
      }
      return true;
    }

    // ---- constructors -------------------------------------------------------

    /** `mapping() = default`: default extents (every dynamic size zero).
        For an all-static domain the class's `static_assert` runs the check
        as written on those extents, so the type is well-formed only when
        the check answers true (a division by zero is not a constant
        expression). */
    static function Default(t: IndexType, pattern: seq<ExtentSpec>): (m: Mapping)
      requires forall r :: 0 <= r < |pattern| && pattern[r].Static? ==> IsRepresentableAs(t, pattern[r].size)
      requires CountDynamic(pattern) > 0 || RepresentableAsWritten(Extents.Default(t, pattern)) == Answer(true)
      ensures m.Valid() && m.extents == Extents.Default(t, pattern)
      ensures CountDynamic(pattern) > 0 ==> Product(m.extents.Sizes()) == 0
    {
      var e := Extents.Default(t, pattern);
      CountDynamicIsMultiplicity(pattern);
      ProductPositive(e.Sizes());
      AsWrittenTrueMeansFits(e);
      assert CountDynamic(pattern) > 0 ==> Dynamic in pattern;
      Mapping(e)
    }

    /** `layout_right::mapping<extents<int, 2, 0>>` is ill-formed: its
        `static_assert` runs the check as written on `extents<int, 2, 0>()`,
        which divides by the zero extent. */
    static lemma StaticZeroExtentRejected()
      ensures RepresentableAsWritten(Extents.Default(Int, [Static(2), Static(0)])) == DividesByZero
    {
      var e := Extents.Default(Int, [Static(2), Static(0)]);
      assert e.Sizes() == [2, 0];
    }

    /** `mapping(const extents_type&)`: stores the extents; the precondition
        is the overflow check. */
    static function FromExtents(ext: Extents): (m: Mapping)
      requires ext.Valid() && SpanFits(ext.Sizes(), ext.indexType.Max())
      ensures m.Valid() && m.extents == ext
    {
      SpanFitsBoundsProduct(ext.Sizes(), ext.indexType.Max());
      Mapping(ext)
    }

    /** `mapping(const mapping<OtherExtents>&)`: converts the other mapping's
        extents; the other mapping's span must be representable in the new
        index type. Every extent, the span and every offset are kept. */
    static function Convert(t: IndexType, pattern: seq<ExtentSpec>, other: Mapping): (m: Mapping)
      requires other.Valid() && Extents.Convertible(t, pattern, other.extents)
      requires IsRepresentableAs(t, Product(other.extents.Sizes()))
      ensures m.Valid() && m.extents.indexType == t && m.extents.pattern == pattern
      ensures m.Rank() == other.Rank() && m.Equals(other)
      ensures Product(m.extents.Sizes()) == Product(other.extents.Sizes())
      ensures forall idx :: other.extents.IsMultidimensionalIndexIn(idx) ==>
                m.extents.IsMultidimensionalIndexIn(idx) && m.Offset(idx) == other.Offset(idx)
    {
      Mapping(Extents.Convert(t, pattern, other.extents))
    }

    /** Converting to another index type and back gives the original
        mapping. */
    lemma ConvertRoundTrip(t: IndexType, pattern: seq<ExtentSpec>)
      requires Valid() && Extents.Convertible(t, pattern, extents)
      requires IsRepresentableAs(t, Product(extents.Sizes()))
      ensures Extents.Convertible(extents.indexType, extents.pattern, Convert(t, pattern, this).extents)
      ensures IsRepresentableAs(extents.indexType, Product(Convert(t, pattern, this).extents.Sizes()))
      ensures Convert(extents.indexType, extents.pattern, Convert(t, pattern, this)) == this
    {
      var w := Convert(t, pattern, this);
      assert w.extents.Sizes() == extents.Sizes();
      extents.FromAllOfSizes();
    }

    // ---- observers ----------------------------------------------------------

    /** `required_span_size()`: the product of the extents, which the
        mapping invariant makes representable. */
    method RequiredSpanSize() returns (size: nat)
      requires Valid()
      ensures size == Product(extents.Sizes())
      ensures IsRepresentableAs(extents.indexType, size)
      ensures Rank() == 0 ==> size == 1
    {
      ghost var s := extents.Sizes();
      size := 1;
      assert s[..0] == [];
      for r := 0 to extents.Rank()
        invariant size == Product(s[..r])
      {
        ProductSnoc(s, r);
        size := size * extents.Extent(r);
      }
      assert s[..|s|] == s;
    }

    /** The loop of `required_span_size()` as written, from iteration `r`
        on, with the running `__size` given by its residue `w` modulo 2 to
        the width of `index_type`. Each `__size *= extent(r)` either stays in
        range, overflows with undefined behaviour (`int`, `int64_t`), or
        wraps. */
    static function SpanSizeLoopAsWritten(t: IndexType, s: seq<nat>, r: nat, w: nat): SpanOutcome
      requires r <= |s| && w < t.Modulus()
      decreases |s| - r
    {
      if r == |s| then Size(t.FromResidue(w))
      else if t.OverflowIsUndefined() && w * s[r] > t.Max() then Overflows
      else SpanSizeLoopAsWritten(t, s, r + 1, w * s[r] % t.Modulus())
    }

    /** Started from the residue of a running product, the loop as written
        yields the product's residue whenever it yields a value; it always
        does for the wrapping types and whenever every later running product
        fits. */
    static lemma {:induction false} SpanSizeLoopResidue(t: IndexType, s: seq<nat>, r: nat, w: nat)
      requires r <= |s| && w == Product(s[..r]) % t.Modulus()
      ensures SpanSizeLoopAsWritten(t, s, r, w).Size? ==>
                SpanSizeLoopAsWritten(t, s, r, w) == Size(t.FromResidue(Product(s) % t.Modulus()))
      ensures !t.OverflowIsUndefined() ==> SpanSizeLoopAsWritten(t, s, r, w).Size?
      ensures (forall n :: r <= n <= |s| ==> Product(s[..n]) <= t.Max()) ==>
                SpanSizeLoopAsWritten(t, s, r, w).Size?
      decreases |s| - r
    {
      if r == |s| {
        assert s[..r] == s;
      } else {
        ProductSnoc(s, r);
        ModMul(Product(s[..r]), s[r], t.Modulus());
        if Product(s[..r]) <= t.Max() {
          DivOfMulAdd(0, Product(s[..r]), t.Modulus());
        }
        if !(t.OverflowIsUndefined() && w * s[r] > t.Max()) {
          SpanSizeLoopResidue(t, s, r + 1, w * s[r] % t.Modulus());
        }
      }
    }

    /** Whenever the loop of `required_span_size()` as written yields a
        value, the value is the span; it always does for the wrapping index
        types, and for every index type when every running product fits. */
    lemma SpanSizeAsWrittenAgrees()
      requires Valid()
      ensures SpanSizeLoopAsWritten(extents.indexType, extents.Sizes(), 0, 1).Size? ==>
                SpanSizeLoopAsWritten(extents.indexType, extents.Sizes(), 0, 1) == Size(Product(extents.Sizes()))
      ensures !extents.indexType.OverflowIsUndefined() ==>
                SpanSizeLoopAsWritten(extents.indexType, extents.Sizes(), 0, 1).Size?
      ensures SpanFits(extents.Sizes(), extents.indexType.Max()) ==>
                SpanSizeLoopAsWritten(extents.indexType, extents.Sizes(), 0, 1).Size?
    {
      var s, t := extents.Sizes(), extents.indexType;
      assert s[..0] == [];
      DivOfMulAdd(0, 1, t.Modulus());
      DivOfMulAdd(0, Product(s), t.Modulus());
      SpanSizeLoopResidue(t, s, 0, 1);
    }

    /** The default `layout_right::mapping<extents<int, 65536, 65536,
        dynamic_extent>>` is valid, with span 0, and needs no check because
        one extent is dynamic; yet the loop of `required_span_size()` as
        written overflows `int` at the second extent. */
    static lemma DefaultSpanSizeOverflows()
      ensures var m := Default(Int, [Static(0x10000), Static(0x10000), Dynamic]);
        m.Valid() && m.extents.Sizes() == [0x10000, 0x10000, 0] && Product(m.extents.Sizes()) == 0
        && SpanSizeLoopAsWritten(Int, m.extents.Sizes(), 0, 1) == Overflows
    {
      var m := Default(Int, [Static(0x10000), Static(0x10000), Dynamic]);
      var s := m.extents.Sizes();
      assert s == [0x10000, 0x10000, 0];
      assert Product(s) == 0 by {
        assert s[1..] == [0x10000, 0] && s[2..] == [0] && s[3..] == [];
      }
      assert SpanSizeLoopAsWritten(Int, s, 0, 1) == SpanSizeLoopAsWritten(Int, s, 1, 0x10000);
    }

    /** Each step of the offset recursion stays within `index_type`. */
    lemma OffsetStepFits(idx: seq<int>, r: nat)
      requires Valid() && extents.IsMultidimensionalIndexIn(idx) && r < Rank()
      ensures Horner(extents.Sizes()[..r + 1], idx[..r + 1])
              == Horner(extents.Sizes()[..r], idx[..r]) * extents.Extent(r) + idx[r]
      ensures IsRepresentableAs(extents.indexType, Horner(extents.Sizes()[..r + 1], idx[..r + 1]))
    {
      var s := extents.Sizes();
      assert s[..r + 1][..r] == s[..r] && idx[..r + 1][..r] == idx[..r];
      assert InBounds(s[..r + 1], idx[..r + 1]);
      HornerBounds(s[..r + 1], idx[..r + 1]);
      ProductPositive(s);
      assert s == s[..r + 1] + s[r + 1..];
      PartsBound(s[..r + 1], s[r + 1..]);
    }

    /** `__compute_offset`: continues the accumulation
        `offset * extent(r) + i_r` from dimension `r`, and returns the offset
        once every dimension is consumed. */
    function ComputeOffset(idx: seq<int>, r: nat, offset: int): (o: int)
      requires Valid() && extents.IsMultidimensionalIndexIn(idx)
      requires 1 <= r <= Rank()
      requires offset == Horner(extents.Sizes()[..r], idx[..r])
      ensures o == Horner(extents.Sizes(), idx)
      decreases Rank() - r
    {
      if r == Rank() then
        assert extents.Sizes()[..r] == extents.Sizes() && idx[..r] == idx;
        offset
      else
        OffsetStepFits(idx, r);
        ComputeOffset(idx, r + 1, IndexMulAdd(extents.indexType, offset, extents.Extent(r), idx[r]))
    }

    /** `operator()(idx...)`: the row-major offset of an in-bounds index
        tuple, in `[0, required_span_size())`. */
    function Offset(idx: seq<int>): (o: int)
      requires Valid() && extents.IsMultidimensionalIndexIn(idx)
      ensures o == Horner(extents.Sizes(), idx)
      ensures 0 <= o < Product(extents.Sizes())
      ensures Rank() == 0 ==> o == 0
    {
      extents.IndexInIsInBounds(idx);
      HornerBounds(extents.Sizes(), idx);
      if Rank() == 0 then 0
      else
        assert extents.Sizes()[..1][..0] == [] && idx[..1][..0] == [];
        ComputeOffset(idx, 1, idx[0])
    }

    /** The tuple visited at step `k` of the nested loops over the domain
        (first index outermost, last innermost) maps to offset `k`. */
    lemma RowMajorIteration(k: int)
      requires Valid() && 0 <= k < Product(extents.Sizes())
      ensures extents.IsMultidimensionalIndexIn(Enumerate(extents.Sizes())[k])
      ensures Offset(Enumerate(extents.Sizes())[k]) == k
    {
      EnumerateIsRowMajor(extents.Sizes(), k);
      extents.IndexInIsInBounds(Enumerate(extents.Sizes())[k]);
    }

    /** `stride(r)`: the product of the extents after dimension `r`; it fits
        in `index_type` whenever the domain is nonempty. */
    method Stride(r: nat) returns (stride: nat)
      requires Valid() && r < Rank()
      ensures stride == RevProd(extents.Sizes(), r)
      ensures r == Rank() - 1 ==> stride == 1
      ensures Product(extents.Sizes()) > 0 ==> IsRepresentableAs(extents.indexType, stride)
    {
      ghost var s := extents.Sizes();
      stride := 1;
      var i := Rank() - 1;
      assert s[i + 1..] == [];
      while i > r
        invariant r <= i < Rank()
        invariant stride == Product(s[i + 1..])
      {
        ProductFrom(s, i);
        stride := extents.Extent(i) * stride;
        i := i - 1;
      }
      StrideFits(r);
    }

    /** In a nonempty index space every stride is at most the span. */
    lemma StrideFits(r: nat)
      requires Valid() && r < Rank()
      ensures Product(extents.Sizes()) > 0 ==> RevProd(extents.Sizes(), r) <= Product(extents.Sizes())
    {
      var s := extents.Sizes();
      if Product(s) > 0 {
        assert s == s[..r + 1] + s[r + 1..];
        PartsBound(s[..r + 1], s[r + 1..]);
      }
    }

    // ---- layout properties --------------------------------------------------

    static lemma AllUnique()
      ensures forall m: Mapping :: m.Valid() ==> Unique(m)
    {
      forall m: Mapping, i, j | m.Valid() && m.extents.IsMultidimensionalIndexIn(i)
        && m.extents.IsMultidimensionalIndexIn(j) && m.Offset(i) == m.Offset(j)
        ensures i == j
      {
        m.extents.IndexInIsInBounds(i);
        m.extents.IndexInIsInBounds(j);
        HornerInjective(m.extents.Sizes(), i, j);
      }
    }

    static lemma AllExhaustive()
      ensures forall m: Mapping :: m.Valid() ==> Exhaustive(m)
    {
      forall m: Mapping, k | m.Valid() && 0 <= k < Product(m.extents.Sizes())
        ensures IsOffsetOf(m, k)
      {
        m.RowMajorIteration(k);
      }
    }

    static lemma AllStrided()
      ensures forall m: Mapping :: m.Valid() ==> Strided(m)
    {
      forall m: Mapping, i, r | m.Valid() && m.extents.IsMultidimensionalIndexIn(i)
        && 0 <= r < m.Rank() && i[r] + 1 < m.extents.Extent(r)
        ensures m.extents.IsMultidimensionalIndexIn(i[r := i[r] + 1])
        ensures m.Offset(i[r := i[r] + 1]) == m.Offset(i) + RevProd(m.extents.Sizes(), r)
      {
        HornerStride(m.extents.Sizes(), i, r);
      }
    }

    /** `is_always_unique()` */
    static function IsAlwaysUnique(): (b: bool)
      ensures b && forall m: Mapping :: m.Valid() ==> Unique(m)
    {
      AllUnique();
      true
    }

    /** `is_always_exhaustive()` */
    static function IsAlwaysExhaustive(): (b: bool)
      ensures b && forall m: Mapping :: m.Valid() ==> Exhaustive(m)
    {
      AllExhaustive();
      true
    }

    /** `is_always_strided()` */
    static function IsAlwaysStrided(): (b: bool)
      ensures b && forall m: Mapping :: m.Valid() ==> Strided(m)
    {
      AllStrided();
      true
    }

    /** `is_unique()` */
    function IsUnique(): (b: bool)
      requires Valid()
      ensures b && Unique(this)
    {
      AllUnique();
      true
    }

    /** `is_exhaustive()` */
    function IsExhaustive(): (b: bool)
      requires Valid()
      ensures b && Exhaustive(this)
    {
      AllExhaustive();
      true
    }

    /** `is_strided()` */
    function IsStrided(): (b: bool)
      requires Valid()
      ensures b && Strided(this)
    {
      AllStrided();
      true
    }

    // ---- equality -----------------------------------------------------------

    /** `operator==` between mappings of equal rank: equal extents in every
        dimension. Equal mappings have the same span and the same offset for
        every index tuple. */
    function Equals(other: Mapping): (eq: bool)
      requires Valid() && other.Valid() && Rank() == other.Rank()
      ensures eq <==> forall r :: 0 <= r < Rank() ==> extents.Extent(r) == other.extents.Extent(r)
      ensures eq ==> Product(extents.Sizes()) == Product(other.extents.Sizes())
      ensures eq ==> forall idx :: extents.IsMultidimensionalIndexIn(idx) ==>
                other.extents.IsMultidimensionalIndexIn(idx) && Offset(idx) == other.Offset(idx)
    {
      extents.Equals(other.extents)
    }
  }
}
