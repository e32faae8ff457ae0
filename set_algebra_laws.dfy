/**
  Laws relating the sorted-range set algorithms to each other, all derived
  from the counting characterisations in SortedRanges.
*/
module SetAlgebraLaws {
  import opened SortedRanges

  /** The intersection is contained, with multiplicity, in each operand. */
  lemma IntersectionIncludedInBoth(a: seq<int>, b: seq<int>)
    requires Sorted(a) && Sorted(b)
    ensures Includes(a, Intersection(a, b)) && Includes(b, Intersection(a, b))
    ensures IsSubsequence(Intersection(a, b), a) && IsSubsequence(Intersection(a, b), b)
  {
    var r := Intersection(a, b);
    IntersectionSpec(a, b);
    SubmultisetByCount(r, a);
    SubmultisetByCount(r, b);
    IncludesSpec(a, r);
    IncludesSpec(b, r);
    IncludesIffSubsequence(a, r);
    IncludesIffSubsequence(b, r);
  }

  /** The union contains, with multiplicity, each operand. */
  lemma UnionIncludesBoth(a: seq<int>, b: seq<int>)
    requires Sorted(a) && Sorted(b)
    ensures Includes(Union(a, b), a) && Includes(Union(a, b), b)
    ensures IsSubsequence(a, Union(a, b)) && IsSubsequence(b, Union(a, b))
  {
    var r := Union(a, b);
    UnionSpec(a, b);
    SubmultisetByCount(a, r);
    SubmultisetByCount(b, r);
    IncludesSpec(r, a);
    IncludesSpec(r, b);
    IncludesIffSubsequence(r, a);
    IncludesIffSubsequence(r, b);
  }

  /** Every value is counted once by the intersection for each copy the union lacks. */
  lemma IntersectionUnionSizes(a: seq<int>, b: seq<int>)
    requires Sorted(a) && Sorted(b)
    ensures multiset(Intersection(a, b)) + multiset(Union(a, b)) == multiset(a) + multiset(b)
    ensures |Intersection(a, b)| + |Union(a, b)| == |a| + |b|
  {
    IntersectionSpec(a, b);
    UnionSpec(a, b);
    var m := multiset(Intersection(a, b)) + multiset(Union(a, b));
    forall x ensures m[x] == (multiset(a) + multiset(b))[x] {
      assert Count(Intersection(a, b), x) == Min(Count(a, x), Count(b, x));
      assert Count(Union(a, b), x) == Max(Count(a, x), Count(b, x));
    }
    assert m == multiset(a) + multiset(b);
    assert |m| == |multiset(a) + multiset(b)|;
  }

  /** The difference is a subsequence of its left operand. */
  lemma DifferenceSubsequence(a: seq<int>, b: seq<int>)
    requires Sorted(a) && Sorted(b)
    ensures Includes(a, Difference(a, b)) && IsSubsequence(Difference(a, b), a)
  {
    var r := Difference(a, b);
    DifferenceSpec(a, b);
    SubmultisetByCount(r, a);
    IncludesSpec(a, r);
    IncludesIffSubsequence(a, r);
  }

  /** a - b and b - a share no value. */
  lemma DifferencesDisjoint(a: seq<int>, b: seq<int>)
    requires Sorted(a) && Sorted(b)
    ensures multiset(Difference(a, b)) * multiset(Difference(b, a)) == multiset{}
  {
    DifferenceSpec(a, b);
    DifferenceSpec(b, a);
    var m := multiset(Difference(a, b)) * multiset(Difference(b, a));
    forall x ensures m[x] == 0 {
      assert Count(Difference(a, b), x) == Monus(Count(a, x), Count(b, x));
      assert Count(Difference(b, a), x) == Monus(Count(b, x), Count(a, x));
    }
    assert m == multiset{};
  }

  /** The symmetric difference is the merge of a - b and b - a. */
  lemma SymmetricDifferenceMergesDifferences(a: seq<int>, b: seq<int>)
    requires Sorted(a) && Sorted(b)
    ensures SymmetricDifference(a, b) == Union(Difference(a, b), Difference(b, a))
  {
    var d1, d2 := Difference(a, b), Difference(b, a);
    DifferenceSpec(a, b);
    DifferenceSpec(b, a);
    SymmetricDifferenceSpec(a, b);
    UnionSpec(d1, d2);
    forall x ensures multiset(SymmetricDifference(a, b))[x] == multiset(Union(d1, d2))[x] {
      assert Count(SymmetricDifference(a, b), x) == AbsDiff(Count(a, x), Count(b, x));
      assert Count(Union(d1, d2), x) == Max(Count(d1, x), Count(d2, x));
      assert Count(d1, x) == Monus(Count(a, x), Count(b, x));
      assert Count(d2, x) == Monus(Count(b, x), Count(a, x));
    }
    assert multiset(SymmetricDifference(a, b)) == multiset(Union(d1, d2));
    SortedUnique(SymmetricDifference(a, b), Union(d1, d2));
  }

  /** Intersecting or uniting a sorted range with itself gives it back, duplicates included. */
  lemma {:induction false} Idempotence(a: seq<int>)
    requires Sorted(a)
    ensures Intersection(a, a) == a && Union(a, a) == a
  {
    IntersectionSpec(a, a);
    UnionSpec(a, a);
    forall x ensures multiset(Intersection(a, a))[x] == multiset(a)[x] && multiset(Union(a, a))[x] == multiset(a)[x] {
      assert Count(Intersection(a, a), x) == Min(Count(a, x), Count(a, x));
      assert Count(Union(a, a), x) == Max(Count(a, x), Count(a, x));
    }
    assert multiset(Intersection(a, a)) == multiset(a) && multiset(Union(a, a)) == multiset(a);
    SortedUnique(Intersection(a, a), a);
    SortedUnique(Union(a, a), a);
  }

  /** Intersection, union and symmetric difference do not depend on the order of the operands. */
  lemma {:induction false} Commutativity(a: seq<int>, b: seq<int>)
    requires Sorted(a) && Sorted(b)
    ensures Intersection(a, b) == Intersection(b, a)
    ensures Union(a, b) == Union(b, a)
    ensures SymmetricDifference(a, b) == SymmetricDifference(b, a)
  {
    IntersectionSpec(a, b);
    IntersectionSpec(b, a);
    UnionSpec(a, b);
    UnionSpec(b, a);
    SymmetricDifferenceSpec(a, b);
    SymmetricDifferenceSpec(b, a);
    forall x
      ensures multiset(Intersection(a, b))[x] == multiset(Intersection(b, a))[x]
      ensures multiset(Union(a, b))[x] == multiset(Union(b, a))[x]
      ensures multiset(SymmetricDifference(a, b))[x] == multiset(SymmetricDifference(b, a))[x]
    {
      assert Count(Intersection(a, b), x) == Min(Count(a, x), Count(b, x));
      assert Count(Intersection(b, a), x) == Min(Count(b, x), Count(a, x));
      assert Count(Union(a, b), x) == Max(Count(a, x), Count(b, x));
      assert Count(Union(b, a), x) == Max(Count(b, x), Count(a, x));
      assert Count(SymmetricDifference(a, b), x) == AbsDiff(Count(a, x), Count(b, x));
      assert Count(SymmetricDifference(b, a), x) == AbsDiff(Count(b, x), Count(a, x));
    }
    assert multiset(Intersection(a, b)) == multiset(Intersection(b, a));
    assert multiset(Union(a, b)) == multiset(Union(b, a));
    assert multiset(SymmetricDifference(a, b)) == multiset(SymmetricDifference(b, a));
    SortedUnique(Intersection(a, b), Intersection(b, a));
    SortedUnique(Union(a, b), Union(b, a));
    SortedUnique(SymmetricDifference(a, b), SymmetricDifference(b, a));
  }

  /** Every range includes itself and the empty range; this needs no sortedness. */
  lemma {:induction false} IncludesReflexive(a: seq<int>)
    ensures Includes(a, a) && Includes(a, [])
    decreases |a|
  {
    if a != [] {
      IncludesReflexive(a[1..]);
    }
  }
}
