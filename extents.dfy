/** The domain of a layout mapping: `std::extents<IndexType, Extents...>`.
    Its header is not part of this model; the observable behaviour modelled
    here is what its tests assert: `rank()` is the length of the static
    pattern, `rank_dynamic()` the number of dynamic markers in it, and
    `extent(r)` the static size or the stored dynamic size of dimension `r`. */
module Extents {
  import opened Shapes

  /** The integer types used as `index_type` in the tests. */
  datatype IndexType = SignedChar | UnsignedChar | Int | Unsigned | Int64 | SizeT {
    /** `numeric_limits<index_type>::max()` */
    function Max(): nat {
      match this
      case SignedChar => 0x7F
      case UnsignedChar => 0xFF
      case Int => 0x7FFF_FFFF
      case Unsigned => 0xFFFF_FFFF
      case Int64 => 0x7FFF_FFFF_FFFF_FFFF
      case SizeT => 0xFFFF_FFFF_FFFF_FFFF
    }

    /** Whether a product that leaves `index_type` is undefined behaviour:
        `int` and `int64_t` multiply in their own signed type. The unsigned
        types wrap, and `signed char` and `unsigned char` multiply in `int`
        (where their products fit) and convert back modulo 2 to their width. */
    predicate OverflowIsUndefined() {
      this == Int || this == Int64
    }

    /** 2 to the width of `index_type`. */
    function Modulus(): (m: nat)
      ensures m > Max()
    {
      match this
      case SignedChar | UnsignedChar => 0x100
      case Int | Unsigned => 0x1_0000_0000
      case Int64 | SizeT => 0x1_0000_0000_0000_0000
    }

    /** The `index_type` value whose residue modulo `Modulus()` is `w`. */
    function FromResidue(w: nat): (v: int)
      requires w < Modulus()
      ensures w <= Max() ==> v == w
    {
      if w <= Max() then w else w - Modulus()
    }
  }

  /** `__is_representable_as<index_type>(v)`: a size or an offset that the
      index type can hold. */
  predicate IsRepresentableAs(t: IndexType, v: int) {
    0 <= v <= t.Max()
  }

  /** One template argument of `extents`: a size fixed in the type, or
      `dynamic_extent`. */
  datatype ExtentSpec = Static(size: nat) | Dynamic

  /** The number of dynamic markers in a pattern. */
  function CountDynamic(p: seq<ExtentSpec>): nat
    decreases |p|
  {
    if |p| == 0 then 0 else (if p[0].Dynamic? then 1 else 0) + CountDynamic(p[1..])
  }

  lemma {:induction false} CountDynamicAppend(a: seq<ExtentSpec>, b: seq<ExtentSpec>)
    ensures CountDynamic(a + b) == CountDynamic(a) + CountDynamic(b)
    decreases |a|
  {
    if |a| > 0 {
      assert (a + b)[1..] == a[1..] + b;
      CountDynamicAppend(a[1..], b);
    } else {
      assert a + b == b;
    }
  }

  /** `rank_dynamic()` counts the `dynamic_extent` arguments: it is the
      multiplicity of the dynamic marker in the pattern. */
  lemma {:induction false} CountDynamicIsMultiplicity(p: seq<ExtentSpec>)
    ensures CountDynamic(p) == multiset(p)[Dynamic]
    decreases |p|
  {
    if |p| > 0 {
      assert p == [p[0]] + p[1..];
      CountDynamicIsMultiplicity(p[1..]);
    } else {
      assert multiset(p) == multiset{};
    }
  }

  /** The sizes of the dynamic dimensions of a full size list, in dimension
      order: what an extents value stores. */
  function DynamicOf(p: seq<ExtentSpec>, all: seq<nat>): (d: seq<nat>)
    requires |all| == |p|
    ensures |d| == CountDynamic(p)
    ensures forall x :: x in d ==> x in all
    decreases |p|
  {
    if |p| == 0 then []
    else (if p[0].Dynamic? then [all[0]] else []) + DynamicOf(p[1..], all[1..])
  }

  lemma {:induction false} DynamicOfAppend(a: seq<ExtentSpec>, b: seq<ExtentSpec>, x: seq<nat>, y: seq<nat>)
    requires |x| == |a| && |y| == |b|
    ensures DynamicOf(a + b, x + y) == DynamicOf(a, x) + DynamicOf(b, y)
    decreases |a|
  {
    if |a| > 0 {
      assert (a + b)[1..] == a[1..] + b;
      assert (x + y)[1..] == x[1..] + y;
      DynamicOfAppend(a[1..], b, x[1..], y);
    } else {
      assert a + b == b && x + y == y;
    }
  }

  /** The storage position of a dynamic dimension, the number of dynamic
      dimensions before it, is below the number of dynamic dimensions. */
  lemma DynamicIndexInRange(p: seq<ExtentSpec>, r: nat)
    requires r < |p| && p[r].Dynamic?
    ensures CountDynamic(p[..r]) < CountDynamic(p)
  {
    assert p == p[..r] + p[r..];
    CountDynamicAppend(p[..r], p[r..]);
    assert p[r..][0] == p[r];
  }

  /** The dynamic dimension `r` is stored at position `CountDynamic(p[..r])`
      (the number of dynamic dimensions before it), and that position is in
      range. */
  lemma DynamicOfAt(p: seq<ExtentSpec>, all: seq<nat>, r: nat)
    requires |all| == |p| && r < |p| && p[r].Dynamic?
    ensures CountDynamic(p[..r]) < CountDynamic(p)
    ensures DynamicOf(p, all)[CountDynamic(p[..r])] == all[r]
  {
    DynamicIndexInRange(p, r);
    assert p == p[..r] + ([p[r]] + p[r + 1..]);
    assert all == all[..r] + ([all[r]] + all[r + 1..]);
    DynamicOfAppend(p[..r], [p[r]] + p[r + 1..], all[..r], [all[r]] + all[r + 1..]);
    DynamicOfAppend([p[r]], p[r + 1..], [all[r]], all[r + 1..]);
  }

  /** Reading back: a size list that agrees with `vs` on every dynamic
      dimension (at the dimension's storage position) yields `vs`. */
  lemma {:induction false} DynamicOfReadBack(p: seq<ExtentSpec>, all: seq<nat>, vs: seq<nat>)
    requires |all| == |p| && |vs| == CountDynamic(p)
    requires forall r :: 0 <= r < |p| && p[r].Dynamic? ==>
               CountDynamic(p[..r]) < |vs| && all[r] == vs[CountDynamic(p[..r])]
    ensures DynamicOf(p, all) == vs
    decreases |p|
  {
    if |p| > 0 {
      var p', all' := p[1..], all[1..];
      var vs' := if p[0].Dynamic? then vs[1..] else vs;
      assert CountDynamic(p[..0]) == 0 by { assert p[..0] == []; }
      forall r | 0 <= r < |p'| && p'[r].Dynamic?
        ensures CountDynamic(p'[..r]) < |vs'| && all'[r] == vs'[CountDynamic(p'[..r])]
      {
        assert p[..r + 1] == [p[0]] + p'[..r];
        CountDynamicAppend([p[0]], p'[..r]);
        assert p[r + 1] == p'[r];
      }
      DynamicOfReadBack(p', all', vs');
    }
  }

  /** `std::extents<index_type, pattern...>` holding `dynamicValues`, the
      sizes of its dynamic dimensions in dimension order. */
  datatype Extents = Extents(indexType: IndexType, pattern: seq<ExtentSpec>, dynamicValues: seq<nat>) {

    /** One stored size per dynamic marker; every size, static or dynamic,
        is representable as `index_type`. */
    predicate Valid() {
      && |dynamicValues| == CountDynamic(pattern)
      && (forall r :: 0 <= r < |pattern| && pattern[r].Static? ==> IsRepresentableAs(indexType, pattern[r].size))
      && (forall j :: 0 <= j < |dynamicValues| ==> IsRepresentableAs(indexType, dynamicValues[j]))
    }

    /** `rank()` */
    function Rank(): nat {
      |pattern|
    }

    /** `rank_dynamic()` */
    function RankDynamic(): nat {
      CountDynamic(pattern)
    }

    /** `static_extent(r)` */
    function StaticExtent(r: nat): ExtentSpec
      requires r < Rank()
    {
      pattern[r]
    }

    /** Where the size of dynamic dimension `r` is stored. */
    function DynamicIndex(r: nat): nat
      requires r <= Rank()
    {
      CountDynamic(pattern[..r])
    }

    /** `extent(r)`: the static size, or the stored dynamic size. */
    function Extent(r: nat): (x: nat)
      requires Valid() && r < Rank()
      ensures x <= indexType.Max()
    {
      match pattern[r]
      case Static(size) => size
      case Dynamic =>
        DynamicIndexInRange(pattern, r);
        dynamicValues[DynamicIndex(r)]
    }

    /** All extents, in dimension order. */
    function Sizes(): (s: seq<nat>)
      requires Valid()
      ensures |s| == Rank()
      ensures forall r :: 0 <= r < Rank() ==> s[r] == Extent(r)
    {
      seq(Rank(), r requires 0 <= r < Rank() => Extent(r))
    }

    /** `__is_multidimensional_index_in(ext, idx...)` */
    predicate IsMultidimensionalIndexIn(idx: seq<int>)
      requires Valid()
    {
      |idx| == Rank() && forall r :: 0 <= r < Rank() ==> 0 <= idx[r] < Extent(r)
    }

    lemma IndexInIsInBounds(idx: seq<int>)
      requires Valid()
      ensures IsMultidimensionalIndexIn(idx) <==> InBounds(Sizes(), idx)
    {
    }

    /** Reading the dynamic dimensions back yields the stored sizes in
        order: the storage holds exactly the dynamic sizes. */
    lemma StoredSizesReadBack()
      requires Valid()
      ensures DynamicOf(pattern, Sizes()) == dynamicValues
    {
      forall r | 0 <= r < |pattern| && pattern[r].Dynamic?
        ensures CountDynamic(pattern[..r]) < |dynamicValues|
        ensures Sizes()[r] == dynamicValues[CountDynamic(pattern[..r])]
      {
        DynamicIndexInRange(pattern, r);
      }
      DynamicOfReadBack(pattern, Sizes(), dynamicValues);
    }

    /** `extents(dynamic sizes...)`: the sizes of the dynamic dimensions, in
        increasing dimension order. */
    static function FromDynamic(t: IndexType, pattern: seq<ExtentSpec>, values: seq<nat>): (e: Extents)
      requires |values| == CountDynamic(pattern)
      requires forall r :: 0 <= r < |pattern| && pattern[r].Static? ==> IsRepresentableAs(t, pattern[r].size)
      requires forall j :: 0 <= j < |values| ==> IsRepresentableAs(t, values[j])
      ensures e.Valid() && e.indexType == t && e.pattern == pattern
      ensures forall r :: 0 <= r < |pattern| && pattern[r].Static? ==> e.Extent(r) == pattern[r].size
      ensures DynamicOf(pattern, e.Sizes()) == values
    {
      Extents(t, pattern, values).StoredSizesReadBack();
      Extents(t, pattern, values)
    }

    /** `extents(all sizes...)`: one size per dimension; a static dimension
        must be given its own size. */
    static function FromAll(t: IndexType, pattern: seq<ExtentSpec>, all: seq<nat>): (e: Extents)
      requires |all| == |pattern|
      requires forall r :: 0 <= r < |pattern| ==> IsRepresentableAs(t, all[r])
      requires forall r :: 0 <= r < |pattern| && pattern[r].Static? ==> pattern[r].size == all[r]
      ensures e.Valid() && e.indexType == t && e.pattern == pattern
      ensures e.Sizes() == all
    {
      var e := Extents(t, pattern, DynamicOf(pattern, all));
      assert e.Valid() by {
        forall j | 0 <= j < |e.dynamicValues| ensures IsRepresentableAs(t, e.dynamicValues[j]) {
          assert e.dynamicValues[j] in all;
        }
      }
      assert forall r :: 0 <= r < |pattern| ==> e.Extent(r) == all[r] by {
        forall r | 0 <= r < |pattern| ensures e.Extent(r) == all[r] {
          if pattern[r].Dynamic? {
            DynamicOfAt(pattern, all, r);
          }
        }
      }
      e
    }

    /** `extents()`: every dynamic size is zero-initialised. */
    static function Default(t: IndexType, pattern: seq<ExtentSpec>): (e: Extents)
      requires forall r :: 0 <= r < |pattern| && pattern[r].Static? ==> IsRepresentableAs(t, pattern[r].size)
      ensures e.Valid() && e.indexType == t && e.pattern == pattern
      ensures forall r :: 0 <= r < |pattern| ==>
                e.Extent(r) == if pattern[r].Static? then pattern[r].size else 0
    {
      var e := Extents(t, pattern, seq(CountDynamic(pattern), _ => 0));
      assert forall r :: 0 <= r < |pattern| && pattern[r].Dynamic? ==> e.Extent(r) == 0 by {
        forall r | 0 <= r < |pattern| && pattern[r].Dynamic? ensures e.Extent(r) == 0 {
          DynamicIndexInRange(pattern, r);
        }
      }
      e
    }

    /** Can an extents value with index type `t` and this pattern be built
        from `other`: equal rank, every size representable, and every static
        dimension given its own size. */
    static predicate Convertible(t: IndexType, pattern: seq<ExtentSpec>, other: Extents)
      requires other.Valid()
    {
      && |pattern| == other.Rank()
      && (forall r :: 0 <= r < |pattern| ==> IsRepresentableAs(t, other.Extent(r)))
      && (forall r :: 0 <= r < |pattern| && pattern[r].Static? ==> pattern[r].size == other.Extent(r))
    }

    /** The converting constructor `extents(const extents<OtherIndexType,
        OtherExtents...>&)`: the same sizes, in the new type. */
    static function Convert(t: IndexType, pattern: seq<ExtentSpec>, other: Extents): (e: Extents)
      requires other.Valid() && Convertible(t, pattern, other)
      ensures e.Valid() && e.indexType == t && e.pattern == pattern
      ensures e.Equals(other)
    {
      FromAll(t, pattern, other.Sizes())
    }

    /** Building an extents value from its own sizes gives it back. */
    lemma FromAllOfSizes()
      requires Valid()
      ensures FromAll(indexType, pattern, Sizes()) == this
    {
      StoredSizesReadBack();
    }

    /** `operator==`: same rank and the same extent in every dimension,
        whatever the index types and the static/dynamic split. */
    function Equals(other: Extents): (eq: bool)
      requires Valid() && other.Valid()
      ensures eq <==> Sizes() == other.Sizes()
    {
      Rank() == other.Rank() && forall r :: 0 <= r < Rank() ==> Extent(r) == other.Extent(r)
    }
  }
}
