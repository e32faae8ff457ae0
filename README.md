# Set algebra over sorted containers

A Dafny model of the operator layer in `SetIntersection/set_interection_operators.h`
(the `cpp_set_operators` snippets). A `wrapper`, made by `s(c)`, refers to a caller-owned
container without owning it. Six operators take two wrappers:

| operator | algorithm | result |
|---|---|---|
| `&` | `std::set_intersection` | new container |
| `\|` | `std::set_union` | new container |
| `-` | `std::set_difference` | new container |
| `^` | `std::set_symmetric_difference` | new container |
| `>=` | `std::includes(left, right)` | bool |
| `<=` | `std::includes(right, left)` | bool |

Each operator first sorts each referenced container in place, but only if
`std::is_sorted` says it is not sorted yet. It then runs the merge over the two sorted ranges.
Those merges are the sorted-range algorithms of the C++ standard
(ISO/IEC 14882:2017, section 28.7.6). They have multiset semantics: if a value occurs m times
on the left and n times on the right, the result holds it min(m, n), max(m, n), max(m - n, 0)
or |m - n| times.

Files and modules:

- `sorted_ranges.dfy`, module `SortedRanges`. Each standard algorithm is a recursive function
  with the branches of the two-cursor loop of the usual library implementations (the standard
  itself states only effects and copy counts): `Intersection`, `Union`, `Difference`,
  `SymmetricDifference`, `Includes`. For sorted inputs, lemmas characterise each result by
  counts. `SortedUnique` says a sorted sequence is determined by its multiset, so the counts fix
  each result exactly. For sorted `int` operands, the `*Spec` lemmas together with
  `SortedUnique` show that this output is the only one the standard's copy-count rules allow. `IsSubsequence` is an independent definition of "contained as
  a subsequence".
- `range_algorithms.dfy`, module `RangeAlgorithms`. The library calls as loops over arrays:
  `IsSorted` (`std::is_sorted`), `Sort` (`std::sort`, here an insertion sort), and the five
  merge loops. Each loop appends to a fresh sequence, as `std::back_inserter` does, and is
  proved equal to its function.
- `set_operators.dfy`, module `SetOperators`. The `Wrapper` class (a `const` reference to an
  `array<int>`), `S`, the sort-if-unsorted step, and the six operators, named after the C++
  operator each models. Every operator states three things: the new contents of both arrays (a
  sorted permutation of the old contents, and exactly the old contents if those were sorted
  already), the result as the function of the sorted arrays, and the result's counts in terms
  of the old contents. Both wrappers may refer to the same array.
- `set_algebra_laws.dfy`, module `SetAlgebraLaws`. Laws that follow from the counts: the
  intersection is contained in both operands, the union contains both, the two differences are
  disjoint, the symmetric difference is the merge of the two differences, idempotence,
  commutativity and reflexive inclusion.
- `operator_examples.dfy`, module `OperatorExamples`. The call sites of
  `SetIntersection/operator_examples.h` with their inputs, and the results a caller can derive
  from the contracts alone. One extra call site has an unsorted operand, to show the in-place
  sort. The call-site methods `IntersectionExample` (`SetIntersection/operator_examples.h:12-15`),
  `UnionExample` (23-26), `DifferenceExample` (34-37), `SymmetricDifferenceExample` (50-53),
  `SupersetExample` (61-77) and `UnsortedOperandExample` are drivers without a contract of their
  own: each builds literal arrays, calls an operator through `S` and asserts the literal result,
  so they have no row in the table below; the `*Vector` lemmas and the `*Line` methods they use do.

Elements are `int`. The superset example's characters are written as their character codes.
The spec functions order elements with `<`, as the standard algorithms do with `operator<`.

## Model

| member | source | states |
|---|---|---|
| `SortedRanges.SortedUnique` | SetIntersection/set_interection_operators.h:24-27 | two sorted sequences with the same multiset are equal, so a sorted permutation of the operand is unique and an already sorted operand is its own sorted form |
| `SortedRanges.Intersection` | SetIntersection/set_interection_operators.h:31-33 | the output of set_intersection is no longer than either operand |
| `SortedRanges.IntersectionCount` | SetIntersection/set_interection_operators.h:31-33 | for sorted operands, each value occurs min(m, n) times in the intersection |
| `SortedRanges.IntersectionSorted` | SetIntersection/set_interection_operators.h:31-33 | for sorted operands, the intersection is sorted |
| `SortedRanges.IntersectionSpec` | SetIntersection/set_interection_operators.h:29-35 | for sorted operands, the intersection is sorted and holds min(m, n) copies of every value |
| `SortedRanges.Union` | SetIntersection/set_interection_operators.h:69-71 | the union is at least as long as each operand and at most as long as both together |
| `SortedRanges.UnionCount` | SetIntersection/set_interection_operators.h:69-71 | for sorted operands, each value occurs max(m, n) times in the union |
| `SortedRanges.UnionSorted` | SetIntersection/set_interection_operators.h:69-71 | for sorted operands, the union is sorted |
| `SortedRanges.UnionSpec` | SetIntersection/set_interection_operators.h:67-73 | for sorted operands, the union is sorted and holds max(m, n) copies of every value |
| `SortedRanges.Difference` | SetIntersection/set_interection_operators.h:88-90 | the difference is no longer than the left operand |
| `SortedRanges.DifferenceCount` | SetIntersection/set_interection_operators.h:88-90 | for sorted operands, each value occurs max(m - n, 0) times in the difference |
| `SortedRanges.DifferenceSorted` | SetIntersection/set_interection_operators.h:88-90 | for sorted operands, the difference is sorted |
| `SortedRanges.DifferenceSpec` | SetIntersection/set_interection_operators.h:86-92 | for sorted operands, the difference is sorted and holds max(m - n, 0) copies of every value |
| `SortedRanges.SymmetricDifference` | SetIntersection/set_interection_operators.h:50-52 | the symmetric difference is no longer than both operands together |
| `SortedRanges.SymmetricDifferenceCount` | SetIntersection/set_interection_operators.h:50-52 | for sorted operands, each value occurs \|m - n\| times in the symmetric difference |
| `SortedRanges.SymmetricDifferenceSorted` | SetIntersection/set_interection_operators.h:50-52 | for sorted operands, the symmetric difference is sorted |
| `SortedRanges.SymmetricDifferenceSpec` | SetIntersection/set_interection_operators.h:48-54 | for sorted operands, the symmetric difference is sorted and holds \|m - n\| copies of every value |
| `SortedRanges.Includes` | SetIntersection/set_interection_operators.h:107-109 | the answer of std::includes(a, b), following the branches of its loop: when true, b is no longer than a, and equal lengths force b == a; characterised by IncludesSpec and IncludesIffSubsequence |
| `SortedRanges.IncludesSpec` | SetIntersection/set_interection_operators.h:107-109 | for sorted ranges, includes(a, b) holds exactly when the multiset of b is contained in that of a |
| `SortedRanges.IncludesSubsequence` | SetIntersection/set_interection_operators.h:107-109 | when includes(a, b) holds, b is a subsequence of a |
| `SortedRanges.SubsequenceSubmultiset` | SetIntersection/set_interection_operators.h:107-109 | a subsequence's multiset is contained in the sequence's multiset |
| `SortedRanges.IncludesIffSubsequence` | SetIntersection/set_interection_operators.h:107-109 | for sorted ranges, includes(a, b) holds exactly when b is a subsequence of a |
| `RangeAlgorithms.IsSorted` | SetIntersection/set_interection_operators.h:24 | std::is_sorted returns true exactly when the array is in ascending order |
| `RangeAlgorithms.Sort` | SetIntersection/set_interection_operators.h:25 | std::sort leaves the array sorted and a permutation of its old contents |
| `RangeAlgorithms.SetIntersection` | SetIntersection/set_interection_operators.h:31-33 | the merge loop over two sorted arrays yields the intersection: sorted, with min(m, n) copies of every value |
| `RangeAlgorithms.SetUnion` | SetIntersection/set_interection_operators.h:69-71 | the merge loop yields the union: sorted, with max(m, n) copies of every value |
| `RangeAlgorithms.SetDifference` | SetIntersection/set_interection_operators.h:88-90 | the merge loop yields the difference: sorted, with max(m - n, 0) copies of every value |
| `RangeAlgorithms.SetSymmetricDifference` | SetIntersection/set_interection_operators.h:50-52 | the merge loop yields the symmetric difference: sorted, with \|m - n\| copies of every value |
| `RangeAlgorithms.IncludesRanges` | SetIntersection/set_interection_operators.h:107-109 | the includes loop answers true exactly when the second array's multiset is contained in the first's, which is exactly when it is a subsequence |
| `SetOperators.Wrapper.constructor` | SetIntersection/set_interection_operators.h:6-11 | a wrapper refers to the given container and holds nothing else |
| `SetOperators.S` | SetIntersection/set_interection_operators.h:13-17 | s(c) returns a new wrapper referring to c |
| `SetOperators.SortIfUnsorted` | SetIntersection/set_interection_operators.h:24-25 | the container ends sorted and a permutation of its old contents, and is unchanged if it was sorted |
| `SetOperators.SortOperands` | SetIntersection/set_interection_operators.h:24-27 | both containers end as sorted versions of their old contents, also when both are the same container |
| `SetOperators.OperatorAnd` | SetIntersection/set_interection_operators.h:19-36 | operator& sorts both operands if needed and returns a sorted sequence with min(m, n) copies of each value |
| `SetOperators.OperatorXor` | SetIntersection/set_interection_operators.h:38-55 | operator^ sorts both operands if needed and returns a sorted sequence with \|m - n\| copies of each value |
| `SetOperators.OperatorOr` | SetIntersection/set_interection_operators.h:57-74 | operator\| sorts both operands if needed and returns a sorted sequence with max(m, n) copies of each value, no longer than both operands together |
| `SetOperators.OperatorMinus` | SetIntersection/set_interection_operators.h:76-93 | operator- sorts both operands if needed and returns a sorted subsequence of the sorted left operand with max(m - n, 0) copies of each value |
| `SetOperators.OperatorGreaterEqual` | SetIntersection/set_interection_operators.h:95-110 | operator>= sorts both operands if needed and answers whether the right operand's multiset is contained in the left's, which is whether the sorted right operand is a subsequence of the sorted left one |
| `SetOperators.OperatorLessEqual` | SetIntersection/set_interection_operators.h:112-127 | operator<= sorts both operands if needed and answers includes with the operands swapped: whether the left operand's multiset is contained in the right's |
| `SetOperators.SubsetIsReversedSuperset` | SetIntersection/set_interection_operators.h:112-127 | left <= right and right >= left give the same answer |
| `SetAlgebraLaws.IntersectionIncludedInBoth` | SetIntersection/set_interection_operators.h:29-35 | the intersection of sorted operands is included in each, and is a subsequence of each |
| `SetAlgebraLaws.UnionIncludesBoth` | SetIntersection/set_interection_operators.h:67-73 | the union of sorted operands includes each, and each is a subsequence of it |
| `SetAlgebraLaws.IntersectionUnionSizes` | SetIntersection/set_interection_operators.h:67-73 | intersection and union together hold exactly the values of both operands, so their lengths add up to the operands' lengths |
| `SetAlgebraLaws.DifferenceSubsequence` | SetIntersection/set_interection_operators.h:86-92 | the difference is included in, and a subsequence of, the left operand |
| `SetAlgebraLaws.DifferencesDisjoint` | SetIntersection/set_interection_operators.h:86-92 | a - b and b - a share no value |
| `SetAlgebraLaws.SymmetricDifferenceMergesDifferences` | SetIntersection/set_interection_operators.h:48-54 | the symmetric difference equals the union of a - b and b - a |
| `SetAlgebraLaws.Idempotence` | SetIntersection/set_interection_operators.h:29-35 | a sorted range intersected or united with itself is returned unchanged, duplicates included |
| `SetAlgebraLaws.Commutativity` | SetIntersection/set_interection_operators.h:29-73 | intersection, union and symmetric difference of sorted operands do not depend on operand order |
| `SetAlgebraLaws.IncludesReflexive` | SetIntersection/set_interection_operators.h:95-110 | every range includes itself and the empty range, so A >= A and A >= [] hold |
| `OperatorExamples.IntersectionVector` | SetIntersection/operator_examples.h:12-15 | {1..8} & {5,7,9,10} is [5,7] |
| `OperatorExamples.UnionVector` | SetIntersection/operator_examples.h:23-26 | {1,2,3,4,5} \| {3,4,5,6,7} is [1..7] |
| `OperatorExamples.DifferenceVector` | SetIntersection/operator_examples.h:34-37 | {1,2,5,5,5,9} - {2,5,7} is [1,5,5,9] |
| `OperatorExamples.SymmetricDifferenceVector` | SetIntersection/operator_examples.h:50-53 | {1..8} ^ {5,7,9,10} is [1,2,3,4,6,8,9,10] |
| `OperatorExamples.SupersetVector` | SetIntersection/operator_examples.h:61-77 | {a,b,c,f,h,x} includes {a,b,c} and {a,c}, and does not include {g} or {a,c,g} |
| `OperatorExamples.SupersetLine` | SetIntersection/operator_examples.h:70-77 | on already sorted operands, operator>= returns the includes answer and leaves both containers as they were |
| `OperatorExamples.UnsortedDifferenceLine` | SetIntersection/set_interection_operators.h:76-93 | operator- on the unsorted operands [5,1,9,5,2,5] and [7,2,5] sorts both in place to [1,2,5,5,5,9] and [2,5,7] and returns [1,5,5,9] |

## Left out

- Console output and the demo drivers in `SetIntersection/operator_examples.h` and
  `SetIntersection/normal_examples.h`. They are I/O; their inputs are used as test vectors.
- The case-insensitive `std::includes` calls with `cmp_nocase`
  (`SetIntersection/normal_examples.h:110-117`, `SetIntersection/operator_examples.h:79-87`).
  They call the library directly, bypassing the operators, and the operators take no comparator.
- The internal algorithm of `std::sort` (introsort). `Sort` is specified by its postcondition,
  sorted and a permutation, and implemented by insertion sort. For `int` every such sort gives
  the same result (`SortedUnique`).
- Template genericity. Elements are `int`, and containers are `array<int>`. The standard's
  distinction between equivalent and equal elements is therefore invisible. For example,
  for a value with m equivalent copies in the first range and n in the second, set_union copies
  all m from the first range and then the last max(n - m, 0) from the second; with `int`,
  equivalent copies are the same value.
- `std::back_inserter`, `std::move` of the result, and the lifetime of the reference a
  `wrapper` holds. The result is a fresh Dafny `seq<int>`. `Wrapper` holds a `const` reference.
- Binding temporaries `s(v1)` to non-const `wrapper<T>&` parameters at the call sites is a
  compiler-extension matter with no behaviour to model.
