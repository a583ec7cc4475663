/** Concrete mappings from the library's own test programs, with the values
    those programs expect, derived from the general model. */
module LiteralCases {
  import opened Shapes
  import opened Extents
  import opened RowMajor
  import opened LayoutRight

  const D4: seq<ExtentSpec> := [Dynamic, Static(8), Dynamic, Dynamic]

  /** `extents<int64_t, dynamic_extent, 8, dynamic_extent, dynamic_extent>(7, 9, 10)` */
  function Mixed4(): (e: Extents)
    ensures e.Valid() && e.indexType == Int64 && e.pattern == D4
    ensures e.Sizes() == [7, 8, 9, 10]
  {
    var p := D4;
    var e := Extents.FromDynamic(Int64, p, [7, 9, 10]);
    var s := e.Sizes();
    DynamicOfAt(p, s, 0);
    DynamicOfAt(p, s, 2);
    DynamicOfAt(p, s, 3);
    assert p[..0] == [];
    assert p[..2] == [Dynamic, Static(8)];
    assert p[..3] == [Dynamic, Static(8), Dynamic];
    assert CountDynamic(p[..2]) == 1 && CountDynamic(p[..3]) == 2;
    e
  }

  lemma Product4(a: nat, b: nat, c: nat, d: nat)
    ensures Product([a, b, c, d]) == a * (b * (c * d))
  {
    assert [a, b, c, d][1..] == [b, c, d] && [b, c, d][1..] == [c, d];
    assert [c, d][1..] == [d] && [d][1..] == [];
    assert Product([d]) == d;
    assert Product([c, d]) == c * d;
    assert Product([b, c, d]) == b * (c * d);
  }

  /** The row-major offset of a rank-4 tuple, written out. */
  lemma Horner4(s: seq<nat>, i: seq<int>)
    requires |s| == 4 && |i| == 4
    ensures Horner(s, i) == ((i[0] * s[1] + i[1]) * s[2] + i[2]) * s[3] + i[3]
  {
    var s3, s2, s1 := s[..3], s[..2], s[..1];
    var i3, i2, i1 := i[..3], i[..2], i[..1];
    assert s3[..2] == s2 && s2[..1] == s1 && s1[..0] == [];
    assert i3[..2] == i2 && i2[..1] == i1 && i1[..0] == [];
    assert Horner(s1, i1) == i[0];
    assert Horner(s2, i2) == i[0] * s[1] + i[1];
    assert Horner(s3, i3) == (i[0] * s[1] + i[1]) * s[2] + i[2];
  }

  /** The layout_right mapping over `Mixed4()`. */
  function Mixed4Mapping(): (m: Mapping)
    ensures m.Valid() && m.extents == Mixed4() && Product(m.extents.Sizes()) == 5040
  {
    Product4(7, 8, 9, 10);
    Mapping(Mixed4())
  }

  /** The strides of `Mixed4Mapping()` are 720, 90, 10 and 1. */
  method StrideLiterals() returns (strides: seq<nat>)
    ensures strides == [720, 90, 10, 1]
  {
    var m := Mixed4Mapping();
    var s := m.extents.Sizes();
    assert s[1..] == [8, 9, 10] && s[2..] == [9, 10] && s[3..] == [10] && s[4..] == [];
    assert [8, 9, 10][1..] == [9, 10] && [9, 10][1..] == [10] && [10][1..] == [];
    var s0 := m.Stride(0);
    var s1 := m.Stride(1);
    var s2 := m.Stride(2);
    var s3 := m.Stride(3);
    strides := [s0, s1, s2, s3];
  }

  /** The default mapping over `extents<unsigned, 7, 8>`. */
  function Static7x8(): (m: Mapping)
    ensures m.Valid() && m.extents.Sizes() == [7, 8]
  {
    var e := Extents.Default(Unsigned, [Static(7), Static(8)]);
    assert e.Sizes() == [7, 8];
    assert [7, 8][1..] == [8] && [8][1..] == [];
    NonEmptySpanFits(e.Sizes(), Unsigned.Max());
    Mapping.Default(Unsigned, [Static(7), Static(8)])
  }

  /** `extents<unsigned, 7, 8>` has strides 8 and 1. */
  method StaticStrideLiterals() returns (strides: seq<nat>)
    ensures strides == [8, 1]
  {
    var m := Static7x8();
    var s := m.extents.Sizes();
    assert s[1..] == [8] && s[2..] == [] && [8][1..] == [];
    var s0 := m.Stride(0);
    var s1 := m.Stride(1);
    strides := [s0, s1];
  }

  /** `Mixed4Mapping()` spans 5040 elements. */
  method SpanSizeLiteral() returns (size: nat)
    ensures size == 5040
  {
    var m := Mixed4Mapping();
    size := m.RequiredSpanSize();
  }

  /** The tuples the nested loops over `Mixed4Mapping()` visit first and
      last map to offsets 0 and 5039, and `(1, 2, 3, 4)` maps to
      `1*720 + 2*90 + 3*10 + 4`. */
  lemma OffsetLiterals()
    ensures Mixed4Mapping().extents.IsMultidimensionalIndexIn([0, 0, 0, 0])
    ensures Mixed4Mapping().extents.IsMultidimensionalIndexIn([6, 7, 8, 9])
    ensures Mixed4Mapping().extents.IsMultidimensionalIndexIn([1, 2, 3, 4])
    ensures Mixed4Mapping().Offset([0, 0, 0, 0]) == 0
    ensures Mixed4Mapping().Offset([6, 7, 8, 9]) == 5039
    ensures Mixed4Mapping().Offset([1, 2, 3, 4]) == 934
  {
    var s := Mixed4Mapping().extents.Sizes();
    Horner4(s, [0, 0, 0, 0]);
    Horner4(s, [6, 7, 8, 9]);
    Horner4(s, [1, 2, 3, 4]);
  }

  /** `extents<int, 1, dynamic_extent>{2}` */
  function StaticThenDynamic(): (e: Extents)
    ensures e.Valid() && e.Sizes() == [1, 2]
  {
    var p := [Static(1), Dynamic];
    var e := Extents.FromDynamic(Int, p, [2]);
    DynamicOfAt(p, e.Sizes(), 1);
    assert p[..1] == [Static(1)];
    e
  }

  /** Rank, static extents and extents of `StaticThenDynamic()`: the static
      size is kept, the dynamic one is read from storage. */
  lemma ExtentLiterals()
    ensures StaticThenDynamic().Rank() == 2 && StaticThenDynamic().RankDynamic() == 1
    ensures StaticThenDynamic().StaticExtent(0) == Static(1)
    ensures StaticThenDynamic().StaticExtent(1) == Dynamic
    ensures StaticThenDynamic().Extent(0) == 1 && StaticThenDynamic().Extent(1) == 2
  {
    var e := StaticThenDynamic();
    assert e.Sizes()[0] == 1 && e.Sizes()[1] == 2;
  }

  /** `dextents<int, 3>(5, 7, 9)` */
  function Dynamic579(): (e: Extents)
    ensures e.Valid() && e.Sizes() == [5, 7, 9]
  {
    Extents.FromAll(Int, [Dynamic, Dynamic, Dynamic], [5, 7, 9])
  }

  /** Out-of-bounds tuples of `Dynamic579()`: none of them is a
      multidimensional index in the extents, so the call operator's
      precondition rejects each; `(4, 6, 8)` is the last valid one. */
  lemma OutOfBoundsLiterals()
    ensures !Dynamic579().IsMultidimensionalIndexIn([-1, -1, -1])
    ensures !Dynamic579().IsMultidimensionalIndexIn([-1, 0, 0])
    ensures !Dynamic579().IsMultidimensionalIndexIn([0, -1, 0])
    ensures !Dynamic579().IsMultidimensionalIndexIn([0, 0, -1])
    ensures !Dynamic579().IsMultidimensionalIndexIn([5, 3, 3])
    ensures !Dynamic579().IsMultidimensionalIndexIn([3, 7, 3])
    ensures !Dynamic579().IsMultidimensionalIndexIn([3, 3, 9])
    ensures !Dynamic579().IsMultidimensionalIndexIn([5, 7, 9])
    ensures Dynamic579().IsMultidimensionalIndexIn([4, 6, 8])
  {
    var e := Dynamic579();
    assert e.Extent(0) == 5 && e.Extent(1) == 7 && e.Extent(2) == 9;
  }

  /** The default mapping over `extents<unsigned char, 5>`. */
  function Static5(): (m: Mapping)
    ensures m.Valid() && m.extents.Sizes() == [5]
  {
    var e := Extents.Default(UnsignedChar, [Static(5)]);
    assert e.Sizes() == [5];
    assert [5][1..] == [];
    NonEmptySpanFits(e.Sizes(), UnsignedChar.Max());
    Mapping.Default(UnsignedChar, [Static(5)])
  }

  /** Out-of-bounds indices of `Static5()`, and its last valid index. */
  lemma DefaultOutOfBoundsLiterals()
    ensures !Static5().extents.IsMultidimensionalIndexIn([-1])
    ensures !Static5().extents.IsMultidimensionalIndexIn([-130])
    ensures !Static5().extents.IsMultidimensionalIndexIn([5])
    ensures !Static5().extents.IsMultidimensionalIndexIn([1000])
    ensures Static5().extents.IsMultidimensionalIndexIn([4]) && Static5().Offset([4]) == 4
  {
    var s := Static5().extents.Sizes();
    assert s[..0] == [] && [4][..0] == [];
  }

  /** The default mapping over `extents<int64_t, 7, 8, 9, 10>`. */
  function Static7x8x9x10(): (m: Mapping)
    ensures m.Valid() && m.extents.Sizes() == [7, 8, 9, 10]
  {
    var p := [Static(7), Static(8), Static(9), Static(10)];
    var e := Extents.Default(Int64, p);
    assert e.Sizes() == [7, 8, 9, 10];
    Product4(7, 8, 9, 10);
    NonEmptySpanFits(e.Sizes(), Int64.Max());
    Mapping.Default(Int64, p)
  }

  /** `Mixed4Mapping()` with its last extent changed to 11. */
  function Mixed4Other(): (m: Mapping)
    ensures m.Valid() && m.extents.Sizes() == [7, 8, 9, 11]
  {
    var f := Extents.FromAll(Int64, D4, [7, 8, 9, 11]);
    Product4(7, 8, 9, 11);
    NonEmptySpanFits(f.Sizes(), Int64.Max());
    Mapping.FromExtents(f)
  }

  /** A mapping with dynamic extents equals the all-static mapping with the
      same sizes, and a different size makes them unequal. */
  lemma EqualityLiterals()
    ensures Mixed4Mapping().Rank() == Static7x8x9x10().Rank() && Mixed4Mapping().Equals(Static7x8x9x10())
    ensures Mixed4Mapping().Rank() == Mixed4Other().Rank() && !Mixed4Mapping().Equals(Mixed4Other())
  {
    assert Mixed4Other().extents.Extent(3) == 11;
  }
}
