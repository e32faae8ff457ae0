/**
  The operator layer of SetIntersection/set_interection_operators.h.

  A Wrapper refers to a caller-owned container (an array here) without owning
  it. Each of the six operators first sorts each referenced container in place
  unless it is already sorted, and then runs one sorted-range algorithm over the
  two containers, producing a fresh sequence or a boolean. The operators are
  written as methods named after the C++ operator they model.

  Both wrappers may refer to the same container (s(v) & s(v)); the contracts
  hold in that case too.
*/
module SetOperators {
  import opened SortedRanges
  import opened RangeAlgorithms
  import opened SetAlgebraLaws

  /** A non-owning reference to a container. */
  class Wrapper {
    const cont: array<int>

    constructor (container: array<int>)
      ensures cont == container
    {
      cont := container;
    }
  }

  /** The helper s(c), which wraps c. */
  method S(container: array<int>) returns (w: Wrapper)
    ensures fresh(w) && w.cont == container
  {
    w := new Wrapper(container);
  }

  /**
    What sort-if-unsorted leaves behind: a sorted permutation of the contents
    before, and the very same contents if those were already sorted.
  */
  ghost predicate SortedVersion(before: seq<int>, after: seq<int>) {
    && Sorted(after)
    && multiset(after) == multiset(before)
    && (Sorted(before) ==> after == before)
  }

  /** if (!std::is_sorted(c)) std::sort(c); */
  method SortIfUnsorted(c: array<int>)
    modifies c
    ensures SortedVersion(old(c[..]), c[..])
  {
    var sorted := IsSorted(c);
    if !sorted {
      Sort(c);
    }
  }

  /** The two guarded sorts every operator starts with, left container first. */
  method SortOperands(c1: array<int>, c2: array<int>)
    modifies c1, c2
    ensures SortedVersion(old(c1[..]), c1[..])
    ensures SortedVersion(old(c2[..]), c2[..])
  {
    SortIfUnsorted(c1);
    ghost var mid := c1[..];
    SortIfUnsorted(c2);
    if c1 == c2 {
      // c2 was already sorted by the first call, so the second one left it alone
      assert c1[..] == mid;
    }
  }

  /** operator&: std::set_intersection of the two sorted containers. */
  method OperatorAnd(left: Wrapper, right: Wrapper) returns (r: seq<int>)
    modifies left.cont, right.cont
    ensures SortedVersion(old(left.cont[..]), left.cont[..])
    ensures SortedVersion(old(right.cont[..]), right.cont[..])
    ensures r == Intersection(left.cont[..], right.cont[..])
    ensures Sorted(r)
    ensures forall x :: Count(r, x) == Min(Count(old(left.cont[..]), x), Count(old(right.cont[..]), x))
  {
    var c1, c2 := left.cont, right.cont;
    SortOperands(c1, c2);
    r := SetIntersection(c1, c2);
  }

  /** operator^: std::set_symmetric_difference of the two sorted containers. */
  method OperatorXor(left: Wrapper, right: Wrapper) returns (r: seq<int>)
    modifies left.cont, right.cont
    ensures SortedVersion(old(left.cont[..]), left.cont[..])
    ensures SortedVersion(old(right.cont[..]), right.cont[..])
    ensures r == SymmetricDifference(left.cont[..], right.cont[..])
    ensures Sorted(r)
    ensures forall x :: Count(r, x) == AbsDiff(Count(old(left.cont[..]), x), Count(old(right.cont[..]), x))
  {
    var c1, c2 := left.cont, right.cont;
    SortOperands(c1, c2);
    r := SetSymmetricDifference(c1, c2);
  }

  /** operator|: std::set_union of the two sorted containers. */
  method OperatorOr(left: Wrapper, right: Wrapper) returns (r: seq<int>)
    modifies left.cont, right.cont
    ensures SortedVersion(old(left.cont[..]), left.cont[..])
    ensures SortedVersion(old(right.cont[..]), right.cont[..])
    ensures r == Union(left.cont[..], right.cont[..])
    ensures Sorted(r)
    ensures forall x :: Count(r, x) == Max(Count(old(left.cont[..]), x), Count(old(right.cont[..]), x))
    ensures |r| <= left.cont.Length + right.cont.Length
  {
    var c1, c2 := left.cont, right.cont;
    SortOperands(c1, c2);
    r := SetUnion(c1, c2);
  }

  /** operator-: std::set_difference of the two sorted containers. */
  method OperatorMinus(left: Wrapper, right: Wrapper) returns (r: seq<int>)
    modifies left.cont, right.cont
    ensures SortedVersion(old(left.cont[..]), left.cont[..])
    ensures SortedVersion(old(right.cont[..]), right.cont[..])
    ensures r == Difference(left.cont[..], right.cont[..])
    ensures Sorted(r)
    ensures forall x :: Count(r, x) == Monus(Count(old(left.cont[..]), x), Count(old(right.cont[..]), x))
    ensures IsSubsequence(r, left.cont[..])
  {
    var c1, c2 := left.cont, right.cont;
    SortOperands(c1, c2);
    r := SetDifference(c1, c2);
    DifferenceSubsequence(c1[..], c2[..]);
  }

  /** operator>=: std::includes(left, right), "left is a superset of right". */
  method OperatorGreaterEqual(left: Wrapper, right: Wrapper) returns (r: bool)
    modifies left.cont, right.cont
    ensures SortedVersion(old(left.cont[..]), left.cont[..])
    ensures SortedVersion(old(right.cont[..]), right.cont[..])
    ensures r == Includes(left.cont[..], right.cont[..])
    ensures r <==> multiset(old(right.cont[..])) <= multiset(old(left.cont[..]))
    ensures r <==> IsSubsequence(right.cont[..], left.cont[..])
  {
    var c1, c2 := left.cont, right.cont;
    SortOperands(c1, c2);
    r := IncludesRanges(c1, c2);
  }

  /** operator<=: std::includes(right, left), "left is a subset of right". */
  method OperatorLessEqual(left: Wrapper, right: Wrapper) returns (r: bool)
    modifies left.cont, right.cont
    ensures SortedVersion(old(left.cont[..]), left.cont[..])
    ensures SortedVersion(old(right.cont[..]), right.cont[..])
    ensures r == Includes(right.cont[..], left.cont[..])
    ensures r <==> multiset(old(left.cont[..])) <= multiset(old(right.cont[..]))
    ensures r <==> IsSubsequence(left.cont[..], right.cont[..])
  {
    var c1, c2 := left.cont, right.cont;
    SortOperands(c1, c2);
    r := IncludesRanges(c2, c1);
  }

  /** left <= right, evaluated first, and right >= left, evaluated after it, give the same answer. */
  method SubsetIsReversedSuperset(left: Wrapper, right: Wrapper) returns (sub: bool, sup: bool)
    modifies left.cont, right.cont
    ensures SortedVersion(old(left.cont[..]), left.cont[..])
    ensures SortedVersion(old(right.cont[..]), right.cont[..])
    ensures sub == sup
  {
    sub := OperatorLessEqual(left, right);
    sup := OperatorGreaterEqual(right, left);
  }
}
