# layout_right mapping

A Dafny model of libc++'s `std::layout_right::mapping<Extents>`, the
row-major layout policy of `std::mdspan`. A mapping owns one `extents` value.
Its call operator turns an in-bounds index tuple `(i0, …, iN-1)` into the
offset `((i0·E1 + i1)·E2 + …)·EN-1 + iN-1`. The last index varies fastest.
`required_span_size()` is the product of the extents. `stride(r)` is the
product of the extents after `r`. The mapping is always unique, exhaustive
and strided. Two mappings of equal rank are equal when their extents agree.

The model has five modules:

- `Shapes`: products over a sequence of dimension sizes (`Product`), the
  in-bounds test (`InBounds`), and the prefix-product condition `SpanFits`.
  `SpanFits` is the condition the overflow check decides.
- `Extents`: the `std::extents` value the mapping is built on.
  - Its header is not part of this model.
  - What the model captures is what its tests rely on. `rank()` is the pattern length. `rank_dynamic()` is the number of dynamic markers. `extent(r)` is the static size or the stored dynamic size.
  - It also models the constructors from dynamic sizes, from all sizes and by default, the conversion between index types, and `operator==`.
- `RowMajor`: the Horner offset `Horner(s, i)`, the suffix product
  `RevProd(s, r)`, and `Enumerate(s)`. `Enumerate(s)` lists the tuples in
  the order nested loops visit them. The module proves that the Horner
  offset is a bijection from in-bounds tuples onto `[0, Product(s))` that
  follows that order, and that a step in dimension `r` moves the offset by
  `RevProd(s, r)`.
- `LayoutRight`: the mapping itself.
  - `Mapping` is an immutable datatype holding the extents. `Valid()` is the invariant that the index space size fits in `index_type`.
  - The overflow check appears twice, as written and corrected. So does the loop of `required_span_size()`: as written in `index_type`, and exact. See Findings.
  - Also modelled: the three constructors, `required_span_size()` and `stride(r)` as loops, `__compute_offset` and `operator()` as recursion, the six `is_*` flags, and `operator==`.
- `LiteralCases`: concrete mappings from the library's tests, with the values those tests expect.

`index_type` is one of `signed char`, `unsigned char`, `int`, `unsigned`,
`int64_t` and `size_t`, given by its maximum value. Values are unbounded
integers. Every place where `index_type` arithmetic could overflow has a
representability precondition or a proof that it stays in range. The two
exceptions are listed under Left out.

The overflow check is stricter than the standard's precondition. The
standard asks only that the product of the extents is representable. The
check asks that every running product `extent(0)·…·extent(r)` is
representable. The two agree when no extent is zero (`Shapes.NonEmptySpanFits`,
`Shapes.SpanFitsBoundsProduct`). Take `dextents<int, 3>(65536, 65536, 0)`:
the product is 0, yet the check rejects it
(`LayoutRight.Mapping.CheckStricterThanProduct`). The model follows the
code here. The extents constructor requires `SpanFits`. The mapping
invariant is the standard's, which the converting constructor also relies on.

## Model

| member | source | states |
|---|---|---|
| Shapes.ProductPositive | libcxx/include/__mdspan/layout_right_mapping.h:109-114 | the product of the extents is nonzero exactly when every extent is nonzero |
| Shapes.PartsBound | libcxx/include/__mdspan/layout_right_mapping.h:166-177 | in a nonempty index space the product of any leading or trailing group of extents is at most the whole product, so a stride fits wherever the span does |
| Shapes.NonEmptySpanFits | libcxx/include/__mdspan/layout_right_mapping.h:57-69 | when no extent is zero, the product fitting in the maximum implies every running product fits |
| Shapes.SpanFitsBoundsProduct | libcxx/include/__mdspan/layout_right_mapping.h:57-69 | every running product fitting implies the full product fits |
| Shapes.ZeroSizeAbsorbs | libcxx/include/__mdspan/layout_right_mapping.h:57-69 | once a zero extent is reached every later running product is zero |
| Shapes.DivCompare | libcxx/include/__mdspan/layout_right_mapping.h:64-66 | for a nonzero extent, `prod > max / e` holds exactly when `prod * e` exceeds `max`, so the division test is an overflow test |
| Shapes.ProductSnoc | libcxx/include/__mdspan/layout_right_mapping.h:110-112 | one iteration of the left-to-right product loop multiplies the running product by the next extent |
| Shapes.ProductFrom | libcxx/include/__mdspan/layout_right_mapping.h:171-173 | one iteration of the right-to-left stride loop multiplies by the next extent down |
| Shapes.ProductAppend | libcxx/include/__mdspan/layout_right_mapping.h:109-114 | the product over two groups of dimensions is the product of their products |
| Extents.IndexType.OverflowIsUndefined | libcxx/include/__mdspan/layout_right_mapping.h:112 | definition: `__size *= extent(r)` overflows with undefined behaviour for `int` and `int64_t`; `unsigned` and `size_t` wrap, and `signed char` and `unsigned char` multiply in `int` and convert back modulo 2 to their width |
| Extents.IndexType.Modulus | libcxx/include/__mdspan/layout_right_mapping.h:112 | 2 to the width of `index_type`, which exceeds `numeric_limits<index_type>::max()` |
| Extents.IndexType.FromResidue | libcxx/include/__mdspan/layout_right_mapping.h:112 | the `index_type` value with a given residue modulo 2 to the width; a residue that fits is its own value |
| Extents.IsRepresentableAs | libcxx/include/__mdspan/layout_right_mapping.h:89 | definition: `__is_representable_as<index_type>(v)`, i.e. `0 <= v <= numeric_limits<index_type>::max()` |
| Extents.DynamicIndexInRange | libcxx/test/std/containers/views/mdspan/extents/types.pass.cpp:77-85 | the storage position of a dynamic dimension is below `rank_dynamic()` |
| Extents.Extents.Rank | libcxx/test/std/containers/views/mdspan/extents/types.pass.cpp:14 | definition: `rank()` is the number of template extents |
| Extents.Extents.RankDynamic | libcxx/test/std/containers/views/mdspan/extents/types.pass.cpp:15 | definition: `rank_dynamic()` is the number of `dynamic_extent` markers |
| Extents.Extents.StaticExtent | libcxx/test/std/containers/views/mdspan/extents/types.pass.cpp:58-65 | definition: `static_extent(r)` is the r-th template extent, a size or `dynamic_extent` |
| Extents.Extents.IsMultidimensionalIndexIn | libcxx/include/__mdspan/layout_right_mapping.h:153 | definition: `__is_multidimensional_index_in(ext, idx...)`, full rank and `0 <= i_r < extent(r)` in every dimension |
| Extents.CountDynamicIsMultiplicity | libcxx/test/std/containers/views/mdspan/extents/types.pass.cpp:15 | `rank_dynamic()` is the number of `dynamic_extent` markers among the template arguments |
| Extents.DynamicOfAt | libcxx/test/std/containers/views/mdspan/extents/types.pass.cpp:77-85 | the size of a dynamic dimension is stored at the position given by the number of dynamic dimensions before it |
| Extents.DynamicOfReadBack | libcxx/test/std/containers/views/mdspan/extents/types.pass.cpp:95-103 | when each dynamic dimension's size equals the stored value at its position, reading the dynamic sizes back gives the stored values |
| Extents.Extents.Extent | libcxx/include/__mdspan/layout_right_mapping.h:62 | `extent(r)` is representable as `index_type` |
| Extents.Extents.Sizes | libcxx/include/__mdspan/layout_right_mapping.h:50 | definition: an extents value seen as the sequence `extent(0), …, extent(rank() - 1)` |
| Extents.Extents.IndexInIsInBounds | libcxx/include/__mdspan/layout_right_mapping.h:153 | `__is_multidimensional_index_in` holds exactly when the tuple has full rank and `0 <= i_r < extent(r)` in every dimension |
| Extents.Extents.StoredSizesReadBack | libcxx/test/std/containers/views/mdspan/extents/types.pass.cpp:77-103 | the storage holds exactly the sizes of the dynamic dimensions, in order |
| Extents.Extents.FromDynamic | libcxx/test/std/containers/views/mdspan/extents/types.pass.cpp:62-67 | constructing from the dynamic sizes keeps every static size and stores the given dynamic sizes in order |
| Extents.Extents.FromAll | libcxx/test/std/containers/views/mdspan/extents/types.pass.cpp:105-106 | constructing from one size per dimension gives exactly those sizes |
| Extents.Extents.Default | libcxx/test/std/containers/views/mdspan/extents/types.pass.cpp:56-61 | default extents keep the static sizes and make every dynamic size zero |
| Extents.Extents.Convert | libcxx/include/__mdspan/layout_right_mapping.h:87 | converting extents to another index type and pattern keeps every extent |
| Extents.Extents.FromAllOfSizes | libcxx/include/__mdspan/layout_right_mapping.h:87 | rebuilding extents from their own sizes gives the same value back |
| Extents.Extents.Equals | libcxx/include/__mdspan/layout_right_mapping.h:183 | extents compare equal exactly when their sequences of sizes are equal, whatever their static/dynamic split |
| RowMajor.HornerBounds | libcxx/include/__mdspan/layout_right_mapping.h:118 | the Horner offset of an in-bounds tuple lies in `[0, product)` |
| RowMajor.Enumerate | libcxx/test/std/containers/views/mdspan/layout-right/index_operator.pass.cpp:30-42 | the nested-loop visit order lists exactly product-of-extents tuples |
| RowMajor.EnumerateIsRowMajor | libcxx/test/std/containers/views/mdspan/layout-right/index_operator.pass.cpp:30-42 | the k-th tuple visited by the nested loops is in bounds and has Horner offset k |
| RowMajor.EnumerateCovers | libcxx/test/std/containers/views/mdspan/layout-right/index_operator.pass.cpp:30-42 | every in-bounds tuple is visited, at the position equal to its offset |
| RowMajor.HornerInjective | libcxx/include/__mdspan/layout_right_mapping.h:158 | distinct in-bounds tuples have distinct offsets |
| RowMajor.HornerSurjective | libcxx/include/__mdspan/layout_right_mapping.h:159 | every offset in `[0, product)` is the offset of some in-bounds tuple |
| RowMajor.HornerStride | libcxx/include/__mdspan/layout_right_mapping.h:160 | raising index r by one raises the offset by the product of the extents after r |
| RowMajor.RevProdSnoc | libcxx/include/__mdspan/layout_right_mapping.h:171-173 | a stride is the stride in the shape without its last dimension times the last extent |
| LayoutRight.IndexMulAdd | libcxx/include/__mdspan/layout_right_mapping.h:139 | definition: the `index_type` step `offset * extent(r) + i`, defined only when the result is representable |
| LayoutRight.Mapping.CheckLoopAsWritten | libcxx/include/__mdspan/layout_right_mapping.h:63-67 | definition: the loop of the check as written from iteration r on: true at the end, a division by zero when `extent(r)` is 0, false when `prod > max / extent(r)`, otherwise the next iteration with `prod * extent(r)` |
| LayoutRight.Mapping.CheckLoopTrueNoZero | libcxx/include/__mdspan/layout_right_mapping.h:63-68 | the loop as written returns true only if none of the extents it divides by is zero |
| LayoutRight.Mapping.AsWrittenTrueMeansFits | libcxx/include/__mdspan/layout_right_mapping.h:57-69 | when the check as written returns true, every running product and the product of the extents fit in `index_type` |
| LayoutRight.Mapping.CheckLoopAgrees | libcxx/include/__mdspan/layout_right_mapping.h:61-68 | whenever the check loop as written answers, its answer is whether every running product fits in `numeric_limits<index_type>::max()`; when no extent it still has to divide by is zero, it always answers |
| LayoutRight.Mapping.RepresentableAsWritten | libcxx/include/__mdspan/layout_right_mapping.h:57-69 | the check as written: whenever it answers, the answer is whether every running product fits (rank 0 included); it answers whenever no extent after the first is zero, so it fails to answer only by dividing by a zero extent |
| LayoutRight.Mapping.AsWrittenDividesByZero | libcxx/include/__mdspan/layout_right_mapping.h:64 | for `extents<int64_t, 1, 0, dynamic_extent, dynamic_extent>(9, 10)`, whose span is 0 and fits, the check as written divides by zero |
| LayoutRight.Mapping.CheckStricterThanProduct | libcxx/include/__mdspan/layout_right_mapping.h:61-66 | for `dextents<int, 3>(65536, 65536, 0)` the span is 0, yet the check returns false |
| LayoutRight.Mapping.RequiredSpanSizeIsRepresentableCorrected | libcxx/include/__mdspan/layout_right_mapping.h:57-69 | the check with a zero extent tested before the division: true exactly when every running product fits in `index_type`; for a nonempty index space, exactly when the product of the extents does; true for rank 0; the same answer as the check as written wherever that answers |
| LayoutRight.Mapping.Default | libcxx/include/__mdspan/layout_right_mapping.h:71-76 | the default mapping holds default extents; with no dynamic extent it requires, as the `static_assert` does, that the check as written on the default extents returns true; it is valid; with a dynamic extent its span is 0 |
| LayoutRight.Mapping.StaticZeroExtentRejected | libcxx/include/__mdspan/layout_right_mapping.h:71 | for `extents<int, 2, 0>` the `static_assert`'s check divides by zero, so `layout_right::mapping<extents<int, 2, 0>>` is ill-formed |
| LayoutRight.Mapping.FromExtents | libcxx/include/__mdspan/layout_right_mapping.h:78-81 | constructing from extents that pass the corrected check (every running product fits) stores them and gives a valid mapping |
| LayoutRight.Mapping.Convert | libcxx/include/__mdspan/layout_right_mapping.h:83-91 | converting a mapping whose span fits the new index type keeps rank, every extent, the span size and every offset, and compares equal to the source |
| LayoutRight.Mapping.ConvertRoundTrip | libcxx/include/__mdspan/layout_right_mapping.h:83-91 | converting to another index type and back gives the original mapping |
| LayoutRight.Mapping.RequiredSpanSize | libcxx/include/__mdspan/layout_right_mapping.h:109-114 | `required_span_size()` is the product of the extents, 1 for rank 0, representable as `index_type` |
| LayoutRight.Mapping.SpanSizeLoopAsWritten | libcxx/include/__mdspan/layout_right_mapping.h:109-114 | definition: the loop as written in `index_type`, from iteration r on, with the running size kept as its residue modulo 2 to the width: a step that leaves `int` or `int64_t` is an overflow, a step in the other types wraps |
| LayoutRight.Mapping.SpanSizeLoopResidue | libcxx/include/__mdspan/layout_right_mapping.h:109-114 | started from the residue of a running product, the loop as written yields the residue of the product of the extents whenever it yields a value; it always yields one for the wrapping types, and for every type when every later running product fits |
| LayoutRight.Mapping.SpanSizeAsWrittenAgrees | libcxx/include/__mdspan/layout_right_mapping.h:109-114 | in a valid mapping, whenever the loop as written yields a value it is the product of the extents; it always yields one for `signed char`, `unsigned char`, `unsigned` and `size_t`, and for `int` and `int64_t` when every running product fits |
| LayoutRight.Mapping.DefaultSpanSizeOverflows | libcxx/include/__mdspan/layout_right_mapping.h:112 | the default mapping over `extents<int, 65536, 65536, dynamic_extent>` is valid with span 0, yet the loop as written overflows `int` at the second extent |
| LayoutRight.Mapping.OffsetStepFits | libcxx/include/__mdspan/layout_right_mapping.h:137-140 | each accumulation step `offset * extent(r) + i` extends the Horner offset by one dimension and stays within `index_type` |
| LayoutRight.Mapping.ComputeOffset | libcxx/include/__mdspan/layout_right_mapping.h:126-146 | continuing the accumulation from dimension r with the offset of the first r indices yields the Horner offset of the whole tuple |
| LayoutRight.Mapping.Offset | libcxx/include/__mdspan/layout_right_mapping.h:149-156 | for an in-bounds tuple, `operator()` returns the Horner offset, which lies in `[0, required_span_size())`, and 0 for rank 0 |
| LayoutRight.Mapping.RowMajorIteration | libcxx/test/std/containers/views/mdspan/layout-right/index_operator.pass.cpp:30-42 | the k-th tuple visited by nested loops, last index innermost, is in bounds and maps to offset k |
| LayoutRight.Mapping.Stride | libcxx/include/__mdspan/layout_right_mapping.h:166-177 | `stride(r)` is the product of the extents after r, 1 for the last dimension, and representable when the index space is nonempty |
| LayoutRight.Mapping.AllUnique | libcxx/include/__mdspan/layout_right_mapping.h:158 | in every valid mapping distinct in-bounds tuples have distinct offsets |
| LayoutRight.Mapping.AllExhaustive | libcxx/include/__mdspan/layout_right_mapping.h:159 | in every valid mapping every offset in `[0, required_span_size())` is the offset of some in-bounds tuple |
| LayoutRight.Mapping.AllStrided | libcxx/include/__mdspan/layout_right_mapping.h:160 | in every valid mapping, raising index r by one within bounds raises the offset by the stride of r |
| LayoutRight.Mapping.IsAlwaysUnique | libcxx/include/__mdspan/layout_right_mapping.h:158 | returns true, and every valid mapping is unique |
| LayoutRight.Mapping.IsAlwaysExhaustive | libcxx/include/__mdspan/layout_right_mapping.h:159 | returns true, and every valid mapping is exhaustive |
| LayoutRight.Mapping.IsAlwaysStrided | libcxx/include/__mdspan/layout_right_mapping.h:160 | returns true, and every valid mapping is strided |
| LayoutRight.Mapping.IsUnique | libcxx/include/__mdspan/layout_right_mapping.h:162 | returns true, and this mapping is unique |
| LayoutRight.Mapping.IsExhaustive | libcxx/include/__mdspan/layout_right_mapping.h:163 | returns true, and this mapping is exhaustive |
| LayoutRight.Mapping.IsStrided | libcxx/include/__mdspan/layout_right_mapping.h:164 | returns true, and this mapping is strided |
| LayoutRight.Mapping.Equals | libcxx/include/__mdspan/layout_right_mapping.h:179-184 | mappings of equal rank are equal exactly when every extent agrees; equal mappings have the same span size and the same offset for every tuple |
| LiteralCases.StrideLiterals | libcxx/test/std/containers/views/mdspan/layouts/stride.layout_right.pass.cpp:40 | `extents<int64_t, D, 8, D, D>(7, 9, 10)` has strides 720, 90, 10, 1 |
| LiteralCases.StaticStrideLiterals | libcxx/test/std/containers/views/mdspan/layouts/stride.layout_right.pass.cpp:39 | `extents<unsigned, 7, 8>` has strides 8, 1 |
| LiteralCases.SpanSizeLiteral | libcxx/test/std/containers/views/mdspan/layout-right/index_operator.pass.cpp:59 | `extents<int64_t, D, 8, D, D>(7, 9, 10)` spans 5040 elements |
| LiteralCases.OffsetLiterals | libcxx/test/std/containers/views/mdspan/layout-right/index_operator.pass.cpp:30-42 | in the (7, 8, 9, 10) mapping, the first and last tuples map to 0 and 5039, and (1, 2, 3, 4) maps to 934 |
| LiteralCases.OutOfBoundsLiterals | libcxx/test/std/containers/views/mdspan/layouts/assert.index_operator.layout_right.pass.cpp:62-70 | the eight rejected tuples of `dextents<int, 3>(5, 7, 9)` are not in bounds, and (4, 6, 8) is |
| LiteralCases.DefaultOutOfBoundsLiterals | libcxx/test/std/containers/views/mdspan/layouts/assert.index_operator.layout_right.pass.cpp:34-38 | for `extents<unsigned char, 5>`, -1, -130, 5 and 1000 are out of bounds and 4 maps to offset 4 |
| LiteralCases.ExtentLiterals | libcxx/test/std/containers/views/mdspan/extents/types.pass.cpp:77-85 | `extents<int, 1, dynamic_extent>{2}` has rank 2, one dynamic dimension, static extents 1 and dynamic, and extents 1 and 2 |
| LiteralCases.EqualityLiterals | libcxx/include/__mdspan/layout_right_mapping.h:179-184 | the (7, D=8, 9, 10) mapping with dynamic extents equals the all-static (7, 8, 9, 10) mapping and differs from one with last extent 11 |

## Left out

- `default_accessor` is a separate class and is not part of this model.
- The `static_assert` that the template argument is an `extents` specialisation is left out. So are the constraints and the `noexcept` of the members. These are properties of the C++ types.
- The converting constructor's `explicit(...)` condition (line 85) is left out. Its `is_constructible` constraint becomes the precondition `Extents.Extents.Convertible`.
- The constructors from `layout_left` and `layout_stride` mappings (lines 94-102) are compiled out and are not modelled.
- The copy constructor and copy assignment (lines 77 and 104) are the value semantics of the `Mapping` datatype. `extents()` (line 107) is its field.
- `_LIBCPP_ASSERT` checks are modelled as preconditions. The abort taken when a check fails in a checked build is not modelled.
- The compile-time `static_assert` on all-static domains (line 71) becomes the precondition of `LayoutRight.Mapping.Default`: the check as written, run on the default extents, returns true.
- LayoutRight.Mapping.FromExtents: its precondition is the corrected check (`SpanFits`), not the assertion at line 79 as written. Extents with a zero extent after the first, such as `extents<int64_t, 1, 0, dynamic_extent, dynamic_extent>(9, 10)`, are accepted, where the C++ assertion divides by zero (see Findings).
- `__rank_count` dispatch and the `static_cast<index_type>` of the arguments are not modelled. Indices are integers, and `LayoutRight.Mapping.ComputeOffset` recurses over a sequence.
- Index types other than the six listed are not modelled.
- LayoutRight.Mapping.RequiredSpanSize: computes the exact product on unbounded integers and proves it representable. The C++ loop as written computes in `index_type`, and when an extent is zero a running product before it can leave `int` or `int64_t`. The simplest case is the default `layout_right::mapping<extents<int, 65536, 65536, dynamic_extent>>`: no check runs because one extent is dynamic, the span is 0, and the loop overflows `int` at the second extent. Another is a mapping converted from `dextents<int64_t, 3>(65536, 65536, 0)` to `int`. `LayoutRight.Mapping.SpanSizeLoopAsWritten` models that loop, and Findings records the overflow.
- LayoutRight.Mapping.Stride: computes on unbounded integers, and proves the result representable only when no extent is zero. With a zero extent in front, e.g. `dextents<int, 3>(0, 65536, 65536)` (accepted by every constructor, span 0), `stride(0)` is 65536·65536, which C++ computes in `int` and overflows; the model returns the exact product.

## Findings

| source | as written | input that shows it | evidently intended | confidence | as-written member | corrected member |
|---|---|---|---|---|---|---|
| libcxx/include/__mdspan/layout_right_mapping.h:64 | `__required_span_size_is_representable` divides `numeric_limits<index_type>::max()` by `extent(r)` for every r ≥ 1 without testing for zero | `extents<int64_t, 1, 0, dynamic_extent, dynamic_extent>(9, 10)`: `extent(1)` is 0, so the loop divides by zero (undefined behaviour, and a compile error in constant evaluation) although the span is 0 and fits | a zero extent makes every later running product 0, so the check returns true; the division by zero is the only place the check as written differs from this (`LayoutRight.Mapping.CheckLoopAgrees`) | not executed | LayoutRight.Mapping.RepresentableAsWritten, LayoutRight.Mapping.AsWrittenDividesByZero | LayoutRight.Mapping.RequiredSpanSizeIsRepresentableCorrected, LayoutRight.Mapping.FromExtents |
| libcxx/include/__mdspan/layout_right_mapping.h:111-112 | `required_span_size()` multiplies the extents left to right in `index_type` | the default `layout_right::mapping<extents<int, 65536, 65536, dynamic_extent>>`: the span is 0 and no check runs, but `65536 * 65536` overflows `int` (undefined behaviour) before the zero extent is reached | the product of the extents, 0 here, with no overflow | not executed | LayoutRight.Mapping.SpanSizeLoopAsWritten, LayoutRight.Mapping.DefaultSpanSizeOverflows | LayoutRight.Mapping.RequiredSpanSize |
