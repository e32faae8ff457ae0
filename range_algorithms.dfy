/**
  The library algorithms the operators call, as loops over arrays:
  std::is_sorted, std::sort, and the two-cursor loops of set_intersection,
  set_union, set_difference, set_symmetric_difference and includes. Each loop
  is proved to compute the corresponding function of SortedRanges, and through
  the lemmas there its result is characterised by counts.
*/
module RangeAlgorithms {
  import opened SortedRanges

  /** std::is_sorted: no element is less than its predecessor. */
  method IsSorted(a: array<int>) returns (sorted: bool)
    ensures sorted == Sorted(a[..])
  {
    var i := 1;
    while i < a.Length
      invariant 1 <= i <= a.Length + 1
      invariant forall k, l :: 0 <= k < l < i && l < a.Length ==> a[k] <= a[l]
    {
      if a[i] < a[i - 1] {
        assert a[..][i - 1] == a[i - 1] && a[..][i] == a[i];
        return false;
      }
      i := i + 1;
    }
    return true;
  }

  /**
    std::sort, specified by its postcondition: the array ends up sorted and
    holds the same values as before. Insertion sort is used as one algorithm
    meeting that specification.
  */
  method Sort(a: array<int>)
    modifies a
    ensures Sorted(a[..])
    ensures multiset(a[..]) == old(multiset(a[..]))
  {
    var i := 1;
    while i < a.Length
      invariant 1 <= i <= a.Length + 1
      invariant forall k, l :: 0 <= k < l < i && l < a.Length ==> a[k] <= a[l]
      invariant multiset(a[..]) == old(multiset(a[..]))
    {
      var j := i;
      while 0 < j && a[j] < a[j - 1]
        invariant 0 <= j <= i
        invariant forall k, l :: 0 <= k < l <= i && k != j && l != j ==> a[k] <= a[l]
        invariant forall l :: j < l <= i ==> a[j] <= a[l]
        invariant multiset(a[..]) == old(multiset(a[..]))
      {
        a[j - 1], a[j] := a[j], a[j - 1];
        j := j - 1;
      }
      i := i + 1;
    }
  }

  /** The loop of std::set_intersection, appending to a fresh sequence. */
  method SetIntersection(a: array<int>, b: array<int>) returns (r: seq<int>)
    requires Sorted(a[..]) && Sorted(b[..])
    ensures r == Intersection(a[..], b[..])
    ensures Sorted(r)
    ensures forall x :: Count(r, x) == Min(Count(a[..], x), Count(b[..], x))
  {
    var i, j := 0, 0;
    r := [];
    assert a[i..] == a[..] && b[j..] == b[..];
    while i < a.Length && j < b.Length
      invariant 0 <= i <= a.Length && 0 <= j <= b.Length
      invariant r + Intersection(a[i..], b[j..]) == Intersection(a[..], b[..])
      decreases a.Length - i + b.Length - j
    {
      assert a[i..][1..] == a[i + 1..] && b[j..][1..] == b[j + 1..];
      if a[i] < b[j] {
        i := i + 1;
      } else {
        if !(b[j] < a[i]) {
          r := r + [a[i]];
          i := i + 1;
        }
        j := j + 1;
      }
    }
    IntersectionSpec(a[..], b[..]);
  }

  /**
    One round of the std::set_union loop on a[i..] and b[j..]: x is the element
    it emits and (i2, j2) the cursors it leaves behind.
  */
  lemma UnionStep(a: seq<int>, b: seq<int>, i: nat, j: nat, r: seq<int>, x: int, i2: nat, j2: nat)
    requires i < |a| && j < |b|
    requires || (b[j] < a[i] && x == b[j] && i2 == i && j2 == j + 1)
             || (!(b[j] < a[i]) && !(a[i] < b[j]) && x == a[i] && i2 == i + 1 && j2 == j + 1)
             || (a[i] < b[j] && x == a[i] && i2 == i + 1 && j2 == j)
    ensures (r + [x]) + Union(a[i2..], b[j2..]) == r + Union(a[i..], b[j..])
  {
    assert a[i..][1..] == a[i + 1..] && b[j..][1..] == b[j + 1..];
  }

  /** The loop of std::set_union, then the copy of whichever range is left. */
  method SetUnion(a: array<int>, b: array<int>) returns (r: seq<int>)
    requires Sorted(a[..]) && Sorted(b[..])
    ensures r == Union(a[..], b[..])
    ensures Sorted(r)
    ensures forall x :: Count(r, x) == Max(Count(a[..], x), Count(b[..], x))
  {
    var i, j := 0, 0;
    r := [];
    assert a[i..] == a[..] && b[j..] == b[..];
    while i < a.Length && j < b.Length
      invariant 0 <= i <= a.Length && 0 <= j <= b.Length
      invariant r + Union(a[i..], b[j..]) == Union(a[..], b[..])
      decreases a.Length - i + b.Length - j
    {
      if b[j] < a[i] {
        UnionStep(a[..], b[..], i, j, r, b[j], i, j + 1);
        r := r + [b[j]];
        j := j + 1;
      } else if !(a[i] < b[j]) {
        UnionStep(a[..], b[..], i, j, r, a[i], i + 1, j + 1);
        r := r + [a[i]];
        i, j := i + 1, j + 1;
      } else {
        UnionStep(a[..], b[..], i, j, r, a[i], i + 1, j);
        r := r + [a[i]];
        i := i + 1;
      }
    }
    r := r + a[i..] + b[j..];
    UnionSpec(a[..], b[..]);
  }

  /** The loop of std::set_difference, then the copy of the rest of a. */
  method SetDifference(a: array<int>, b: array<int>) returns (r: seq<int>)
    requires Sorted(a[..]) && Sorted(b[..])
    ensures r == Difference(a[..], b[..])
    ensures Sorted(r)
    ensures forall x :: Count(r, x) == Monus(Count(a[..], x), Count(b[..], x))
  {
    var i, j := 0, 0;
    r := [];
    assert a[i..] == a[..] && b[j..] == b[..];
    while i < a.Length && j < b.Length
      invariant 0 <= i <= a.Length && 0 <= j <= b.Length
      invariant r + Difference(a[i..], b[j..]) == Difference(a[..], b[..])
      decreases a.Length - i + b.Length - j
    {
      assert a[i..][1..] == a[i + 1..] && b[j..][1..] == b[j + 1..];
      if a[i] < b[j] {
        r := r + [a[i]];
        i := i + 1;
      } else {
        if !(b[j] < a[i]) {
          i := i + 1;
        }
        j := j + 1;
      }
    }
    r := r + a[i..];
    DifferenceSpec(a[..], b[..]);
  }

  /** The loop of std::set_symmetric_difference, then the copy of whichever range is left. */
  method SetSymmetricDifference(a: array<int>, b: array<int>) returns (r: seq<int>)
    requires Sorted(a[..]) && Sorted(b[..])
    ensures r == SymmetricDifference(a[..], b[..])
    ensures Sorted(r)
    ensures forall x :: Count(r, x) == AbsDiff(Count(a[..], x), Count(b[..], x))
  {
    var i, j := 0, 0;
    r := [];
    assert a[i..] == a[..] && b[j..] == b[..];
    while i < a.Length && j < b.Length
      invariant 0 <= i <= a.Length && 0 <= j <= b.Length
      invariant r + SymmetricDifference(a[i..], b[j..]) == SymmetricDifference(a[..], b[..])
      decreases a.Length - i + b.Length - j
    {
      assert a[i..][1..] == a[i + 1..] && b[j..][1..] == b[j + 1..];
      if a[i] < b[j] {
        r := r + [a[i]];
        i := i + 1;
      } else {
        if b[j] < a[i] {
          r := r + [b[j]];
        } else {
          i := i + 1;
        }
        j := j + 1;
      }
    }
    r := r + a[i..] + b[j..];
    SymmetricDifferenceSpec(a[..], b[..]);
  }

  /** The loop of std::includes: does the sorted range a contain the sorted range b? */
  method IncludesRanges(a: array<int>, b: array<int>) returns (r: bool)
    requires Sorted(a[..]) && Sorted(b[..])
    ensures r == Includes(a[..], b[..])
    ensures r <==> multiset(b[..]) <= multiset(a[..])
    ensures r <==> IsSubsequence(b[..], a[..])
  {
    var i, j := 0, 0;
    assert a[i..] == a[..] && b[j..] == b[..];
    while j < b.Length
      invariant 0 <= i <= a.Length && 0 <= j <= b.Length
      invariant Includes(a[i..], b[j..]) == Includes(a[..], b[..])
      decreases a.Length - i
    {
      if i == a.Length || b[j] < a[i] {
        r := false;
        IncludesSpec(a[..], b[..]);
        IncludesIffSubsequence(a[..], b[..]);
        return;
      }
      assert a[i..][1..] == a[i + 1..] && b[j..][1..] == b[j + 1..];
      if !(a[i] < b[j]) {
        j := j + 1;
      }
      i := i + 1;
    }
    assert b[j..] == [];
    r := true;
    IncludesSpec(a[..], b[..]);
    IncludesIffSubsequence(a[..], b[..]);
  }
}
