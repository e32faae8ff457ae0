/**
  The call sites of SetIntersection/operator_examples.h, without the console
  output: what a caller can conclude from the operators' contracts alone.
  Every operand there is sorted already, so the operators leave them untouched;
  the last example adds an unsorted operand to show the in-place sort.

  The characters of the superset example are written as their codes:
  a = 97, b = 98, c = 99, f = 102, g = 103, h = 104, x = 120.
*/
module OperatorExamples {
  import opened SortedRanges
  import opened SetOperators

  // The operands of each call site and the results the standard's semantics give for them.

  lemma IntersectionVector(a: seq<int>, b: seq<int>)
    requires a == [1, 2, 3, 4, 5, 6, 7, 8] && b == [5, 7, 9, 10]
    ensures Sorted(a) && Sorted(b)
    ensures Intersection(a, b) == [5, 7]
  {
    assert Intersection([1, 2, 3, 4, 5, 6, 7, 8], [5, 7, 9, 10]) == [5, 7];
  }

  lemma UnionVector(a: seq<int>, b: seq<int>)
    requires a == [1, 2, 3, 4, 5] && b == [3, 4, 5, 6, 7]
    ensures Sorted(a) && Sorted(b)
    ensures Union(a, b) == [1, 2, 3, 4, 5, 6, 7]
  {
    assert Union([1, 2, 3, 4, 5], [3, 4, 5, 6, 7]) == [1, 2, 3, 4, 5, 6, 7];
  }

  lemma DifferenceVector(a: seq<int>, b: seq<int>)
    requires a == [1, 2, 5, 5, 5, 9] && b == [2, 5, 7]
    ensures Sorted(a) && Sorted(b)
    ensures Difference(a, b) == [1, 5, 5, 9]
  {
    assert Difference([1, 2, 5, 5, 5, 9], [2, 5, 7]) == [1, 5, 5, 9];
  }

  lemma SymmetricDifferenceVector(a: seq<int>, b: seq<int>)
    requires a == [1, 2, 3, 4, 5, 6, 7, 8] && b == [5, 7, 9, 10]
    ensures Sorted(a) && Sorted(b)
    ensures SymmetricDifference(a, b) == [1, 2, 3, 4, 6, 8, 9, 10]
  {
    assert SymmetricDifference([1, 2, 3, 4, 5, 6, 7, 8], [5, 7, 9, 10]) == [1, 2, 3, 4, 6, 8, 9, 10];
  }

  lemma SupersetVector(a: seq<int>, b: seq<int>, expected: bool)
    requires a == [97, 98, 99, 102, 104, 120]
    requires (b == [97, 98, 99] && expected) || (b == [97, 99] && expected)
          || (b == [103] && !expected) || (b == [97, 99, 103] && !expected)
    ensures Sorted(a) && Sorted(b)
    ensures Includes(a, b) == expected
  {
    assert Includes([97, 98, 99, 102, 104, 120], [97, 98, 99]);
    assert Includes([97, 98, 99, 102, 104, 120], [97, 99]);
    assert !Includes([97, 98, 99, 102, 104, 120], [103]);
    assert !Includes([97, 98, 99, 102, 104, 120], [97, 99, 103]);
  }

  // The call sites.

  method IntersectionExample() {
    var v1 := new int[] [1, 2, 3, 4, 5, 6, 7, 8];
    var v2 := new int[] [5, 7, 9, 10];
    IntersectionVector(v1[..], v2[..]);
    ghost var s1, s2 := v1[..], v2[..];
    var w1 := S(v1);
    var w2 := S(v2);
    var inter := OperatorAnd(w1, w2);
    assert v1[..] == s1 && v2[..] == s2;
    assert inter == [5, 7];
  }

  method UnionExample() {
    var v1 := new int[] [1, 2, 3, 4, 5];
    var v2 := new int[] [3, 4, 5, 6, 7];
    UnionVector(v1[..], v2[..]);
    ghost var s1, s2 := v1[..], v2[..];
    var w1 := S(v1);
    var w2 := S(v2);
    var dest := OperatorOr(w1, w2);
    assert v1[..] == s1 && v2[..] == s2;
    assert dest == [1, 2, 3, 4, 5, 6, 7];
  }

  method DifferenceExample() {
    var v1 := new int[] [1, 2, 5, 5, 5, 9];
    var v2 := new int[] [2, 5, 7];
    DifferenceVector(v1[..], v2[..]);
    ghost var s1, s2 := v1[..], v2[..];
    var w1 := S(v1);
    var w2 := S(v2);
    var diff := OperatorMinus(w1, w2);
    assert v1[..] == s1 && v2[..] == s2;
    assert diff == [1, 5, 5, 9];
  }

  method SymmetricDifferenceExample() {
    var v1 := new int[] [1, 2, 3, 4, 5, 6, 7, 8];
    var v2 := new int[] [5, 7, 9, 10];
    SymmetricDifferenceVector(v1[..], v2[..]);
    ghost var s1, s2 := v1[..], v2[..];
    var w1 := S(v1);
    var w2 := S(v2);
    var symDiff := OperatorXor(w1, w2);
    assert v1[..] == s1 && v2[..] == s2;
    assert symDiff == [1, 2, 3, 4, 6, 8, 9, 10];
  }

  /** One line of the superset example, v1 >= v, on operands that are sorted already. */
  method SupersetLine(v1: array<int>, v: array<int>, ghost expected: bool) returns (r: bool)
    requires Sorted(v1[..]) && Sorted(v[..]) && Includes(v1[..], v[..]) == expected
    modifies v1, v
    ensures r == expected
    ensures v1[..] == old(v1[..]) && v[..] == old(v[..])
  {
    var w1 := S(v1);
    var w := S(v);
    r := OperatorGreaterEqual(w1, w);
  }

  method SupersetExample() {
    var v1 := new int[] [97, 98, 99, 102, 104, 120];
    var v2 := new int[] [97, 98, 99];
    var v3 := new int[] [97, 99];
    var v4 := new int[] [103];
    var v5 := new int[] [97, 99, 103];
    SupersetVector(v1[..], v2[..], true);
    SupersetVector(v1[..], v3[..], true);
    SupersetVector(v1[..], v4[..], false);
    SupersetVector(v1[..], v5[..], false);
    var sup2 := SupersetLine(v1, v2, true);
    var sup3 := SupersetLine(v1, v3, true);
    var sup4 := SupersetLine(v1, v4, false);
    var sup5 := SupersetLine(v1, v5, false);
    assert sup2 && sup3 && !sup4 && !sup5;
  }

  /** The unsorted operands of the extra call site, after sorting, and their difference. */
  lemma UnsortedVector(o1: seq<int>, o2: seq<int>, s1: seq<int>, s2: seq<int>, r: seq<int>)
    requires o1 == [5, 1, 9, 5, 2, 5] && o2 == [7, 2, 5]
    requires SortedVersion(o1, s1) && SortedVersion(o2, s2)
    requires r == Difference(s1, s2)
    ensures s1 == [1, 2, 5, 5, 5, 9] && s2 == [2, 5, 7]
    ensures r == [1, 5, 5, 9]
  {
    assert multiset(o1) == multiset{5, 1, 9, 5, 2, 5} == multiset{1, 2, 5, 5, 5, 9};
    assert multiset(o2) == multiset{7, 2, 5} == multiset{2, 5, 7};
    DifferenceVector([1, 2, 5, 5, 5, 9], [2, 5, 7]);
    SortedUnique(s1, [1, 2, 5, 5, 5, 9]);
    SortedUnique(s2, [2, 5, 7]);
  }

  /** v1 - v2 on the unsorted operands: both are sorted in place first. */
  method UnsortedDifferenceLine(v1: array<int>, v2: array<int>) returns (r: seq<int>)
    requires v1[..] == [5, 1, 9, 5, 2, 5] && v2[..] == [7, 2, 5]
    modifies v1, v2
    ensures v1[..] == [1, 2, 5, 5, 5, 9] && v2[..] == [2, 5, 7]
    ensures r == [1, 5, 5, 9]
  {
    ghost var o1, o2 := v1[..], v2[..];
    var w1 := S(v1);
    var w2 := S(v2);
    r := OperatorMinus(w1, w2);
    UnsortedVector(o1, o2, v1[..], v2[..], r);
  }

  /** An unsorted operand is sorted in place, and the result is that of its sorted form. */
  method UnsortedOperandExample() {
    var v1 := new int[] [5, 1, 9, 5, 2, 5];
    var v2 := new int[] [7, 2, 5];
    var diff := UnsortedDifferenceLine(v1, v2);
    assert v1[..] == [1, 2, 5, 5, 5, 9] && diff == [1, 5, 5, 9];
  }
}
