/**
  The meaning of the sorted-range set algorithms the operators delegate to
  (set_intersection, set_union, set_difference, set_symmetric_difference and
  includes, ISO/IEC 14882:2017 section 28.7.6).

  The standard states these algorithms by their effects, not by a loop. Each is
  given here as a recursive function with the branches of the two-cursor loop of
  the usual library implementations, and then characterised independently: for
  sorted inputs the result is sorted and every value occurs exactly min, max,
  m - n or |m - n| times, where m and n are its counts in the two inputs, as the
  standard's Remarks require. Since a sorted sequence is determined by its
  multiset (SortedUnique), these counts fix the result completely: for sorted
  int operands this output is the only one the standard allows.
*/
module SortedRanges {

  /** Ascending order, as std::is_sorted checks it with operator<. */
  predicate Sorted(s: seq<int>) {
    forall i, j :: 0 <= i < j < |s| ==> s[i] <= s[j]
  }

  /** The number of copies of x in s. */
  function Count(s: seq<int>, x: int): nat {
    multiset(s)[x]
  }

  function Min(m: nat, n: nat): nat { if m <= n then m else n }
  function Max(m: nat, n: nat): nat { if m <= n then n else m }
  /** max(m - n, 0) */
  function Monus(m: nat, n: nat): nat { if m <= n then 0 else m - n }
  /** |m - n| */
  function AbsDiff(m: nat, n: nat): nat { if m <= n then n - m else m - n }

  // ---------------------------------------------------------------------------
  // Small facts about sorted sequences and counts

  /** The head of a sorted sequence is its least value. */
  lemma HeadIsLeast(s: seq<int>, y: int)
    requires Sorted(s) && Count(s, y) > 0
    ensures s[0] <= y
  {
    assert y in s;
    var k :| 0 <= k < |s| && s[k] == y;
  }

  /** A value below the head of a sorted sequence does not occur in it. */
  lemma BelowHeadAbsent(s: seq<int>, y: int)
    requires Sorted(s) && s != [] && y < s[0]
    ensures Count(s, y) == 0
  {
    if Count(s, y) > 0 { HeadIsLeast(s, y); }
  }

  /** Splitting off the head splits the count of every value. */
  lemma CountCons(s: seq<int>, x: int)
    requires s != []
    ensures Count(s, x) == (if x == s[0] then 1 else 0) + Count(s[1..], x)
  {
    assert s == [s[0]] + s[1..];
  }

  lemma CountPrepend(h: int, t: seq<int>, x: int)
    ensures Count([h] + t, x) == (if x == h then 1 else 0) + Count(t, x)
  {
  }

  /** A tail value of a sorted sequence is at least its head. */
  lemma TailAtLeastHead(s: seq<int>, y: int)
    requires Sorted(s) && s != [] && Count(s[1..], y) > 0
    ensures s[0] <= y
  {
    CountCons(s, y);
    HeadIsLeast(s, y);
  }

  lemma SortedCons(x: int, s: seq<int>)
    requires Sorted(s)
    requires forall y :: Count(s, y) > 0 ==> x <= y
    ensures Sorted([x] + s)
  {
    var r := [x] + s;
    forall i, j | 0 <= i < j < |r| ensures r[i] <= r[j] {
      if i > 0 {
        assert r[i] == s[i - 1] && r[j] == s[j - 1];
      } else {
        assert r[j] == s[j - 1];
        assert Count(s, r[j]) > 0;
      }
    }
  }

  /** A sorted sequence is determined by its multiset of values. */
  lemma {:induction false} SortedUnique(a: seq<int>, b: seq<int>)
    requires Sorted(a) && Sorted(b)
    requires multiset(a) == multiset(b)
    ensures a == b
    decreases |a|
  {
    if a == [] || b == [] {
      assert |a| == |multiset(a)| == |multiset(b)| == |b|;
    } else {
      assert Count(a, a[0]) > 0 && Count(b, b[0]) > 0;
      HeadIsLeast(b, a[0]);
      HeadIsLeast(a, b[0]);
      forall x ensures multiset(a[1..])[x] == multiset(b[1..])[x] {
        CountCons(a, x);
        CountCons(b, x);
      }
      assert multiset(a[1..]) == multiset(b[1..]);
      SortedUnique(a[1..], b[1..]);
      assert a == [a[0]] + a[1..] && b == [b[0]] + b[1..];
    }
  }

  // ---------------------------------------------------------------------------
  // set_intersection

  /** The output of std::set_intersection on the ranges a and b. */
  function Intersection(a: seq<int>, b: seq<int>): (r: seq<int>)
    ensures |r| <= |a| && |r| <= |b|
    decreases |a| + |b|
  {
    if a == [] || b == [] then []
    else if a[0] < b[0] then Intersection(a[1..], b)
    else if !(b[0] < a[0]) then [a[0]] + Intersection(a[1..], b[1..])
    else Intersection(a, b[1..])
  }

  lemma {:induction false} IntersectionCount(a: seq<int>, b: seq<int>, x: int)
    requires Sorted(a) && Sorted(b)
    ensures Count(Intersection(a, b), x) == Min(Count(a, x), Count(b, x))
    decreases |a| + |b|
  {
    if a == [] || b == [] {
    } else if a[0] < b[0] {
      IntersectionCount(a[1..], b, x);
      CountCons(a, x);
      BelowHeadAbsent(b, a[0]);
    } else if !(b[0] < a[0]) {
      IntersectionCount(a[1..], b[1..], x);
      CountCons(a, x);
      CountCons(b, x);
      CountPrepend(a[0], Intersection(a[1..], b[1..]), x);
    } else {
      IntersectionCount(a, b[1..], x);
      CountCons(b, x);
      BelowHeadAbsent(a, b[0]);
    }
  }

  lemma {:induction false} IntersectionSorted(a: seq<int>, b: seq<int>)
    requires Sorted(a) && Sorted(b)
    ensures Sorted(Intersection(a, b))
    decreases |a| + |b|
  {
    if a == [] || b == [] {
    } else if a[0] < b[0] {
      IntersectionSorted(a[1..], b);
    } else if !(b[0] < a[0]) {
      var t := Intersection(a[1..], b[1..]);
      IntersectionSorted(a[1..], b[1..]);
      forall y | Count(t, y) > 0 ensures a[0] <= y {
        IntersectionCount(a[1..], b[1..], y);
        TailAtLeastHead(a, y);
      }
      SortedCons(a[0], t);
    } else {
      IntersectionSorted(a, b[1..]);
    }
  }

  /** For sorted inputs, set_intersection yields a sorted range holding min(m, n) copies of each value. */
  lemma IntersectionSpec(a: seq<int>, b: seq<int>)
    requires Sorted(a) && Sorted(b)
    ensures Sorted(Intersection(a, b))
    ensures forall x :: Count(Intersection(a, b), x) == Min(Count(a, x), Count(b, x))
  {
    IntersectionSorted(a, b);
    forall x ensures Count(Intersection(a, b), x) == Min(Count(a, x), Count(b, x)) {
      IntersectionCount(a, b, x);
    }
  }

  // ---------------------------------------------------------------------------
  // set_union

  /** The output of std::set_union on the ranges a and b. */
  function Union(a: seq<int>, b: seq<int>): (r: seq<int>)
    ensures |a| <= |r| && |b| <= |r| <= |a| + |b|
    decreases |a| + |b|
  {
    if a == [] then b
    else if b == [] then a
    else if b[0] < a[0] then [b[0]] + Union(a, b[1..])
    else if !(a[0] < b[0]) then [a[0]] + Union(a[1..], b[1..])
    else [a[0]] + Union(a[1..], b)
  }

  lemma {:induction false} UnionCount(a: seq<int>, b: seq<int>, x: int)
    requires Sorted(a) && Sorted(b)
    ensures Count(Union(a, b), x) == Max(Count(a, x), Count(b, x))
    decreases |a| + |b|
  {
    if a == [] || b == [] {
    } else if b[0] < a[0] {
      UnionCount(a, b[1..], x);
      CountCons(b, x);
      CountPrepend(b[0], Union(a, b[1..]), x);
      BelowHeadAbsent(a, b[0]);
    } else if !(a[0] < b[0]) {
      UnionCount(a[1..], b[1..], x);
      CountCons(a, x);
      CountCons(b, x);
      CountPrepend(a[0], Union(a[1..], b[1..]), x);
    } else {
      UnionCount(a[1..], b, x);
      CountCons(a, x);
      CountPrepend(a[0], Union(a[1..], b), x);
      BelowHeadAbsent(b, a[0]);
    }
  }

  lemma {:induction false} UnionSorted(a: seq<int>, b: seq<int>)
    requires Sorted(a) && Sorted(b)
    ensures Sorted(Union(a, b))
    decreases |a| + |b|
  {
    if a == [] || b == [] {
    } else if b[0] < a[0] {
      var t := Union(a, b[1..]);
      UnionSorted(a, b[1..]);
      forall y | Count(t, y) > 0 ensures b[0] <= y {
        UnionCount(a, b[1..], y);
        if Count(a, y) > 0 { HeadIsLeast(a, y); } else { TailAtLeastHead(b, y); }
      }
      SortedCons(b[0], t);
    } else if !(a[0] < b[0]) {
      var t := Union(a[1..], b[1..]);
      UnionSorted(a[1..], b[1..]);
      forall y | Count(t, y) > 0 ensures a[0] <= y {
        UnionCount(a[1..], b[1..], y);
        if Count(a[1..], y) > 0 { TailAtLeastHead(a, y); } else { TailAtLeastHead(b, y); }
      }
      SortedCons(a[0], t);
    } else {
      var t := Union(a[1..], b);
      UnionSorted(a[1..], b);
      forall y | Count(t, y) > 0 ensures a[0] <= y {
        UnionCount(a[1..], b, y);
        if Count(a[1..], y) > 0 { TailAtLeastHead(a, y); } else { HeadIsLeast(b, y); }
      }
      SortedCons(a[0], t);
    }
  }

  /** For sorted inputs, set_union yields a sorted range holding max(m, n) copies of each value. */
  lemma UnionSpec(a: seq<int>, b: seq<int>)
    requires Sorted(a) && Sorted(b)
    ensures Sorted(Union(a, b))
    ensures forall x :: Count(Union(a, b), x) == Max(Count(a, x), Count(b, x))
  {
    UnionSorted(a, b);
    forall x ensures Count(Union(a, b), x) == Max(Count(a, x), Count(b, x)) {
      UnionCount(a, b, x);
    }
  }

  // ---------------------------------------------------------------------------
  // set_difference

  /** The output of std::set_difference on the ranges a and b. */
  function Difference(a: seq<int>, b: seq<int>): (r: seq<int>)
    ensures |r| <= |a|
    decreases |a| + |b|
  {
    if a == [] then []
    else if b == [] then a
    else if a[0] < b[0] then [a[0]] + Difference(a[1..], b)
    else if !(b[0] < a[0]) then Difference(a[1..], b[1..])
    else Difference(a, b[1..])
  }

  lemma {:induction false} DifferenceCount(a: seq<int>, b: seq<int>, x: int)
    requires Sorted(a) && Sorted(b)
    ensures Count(Difference(a, b), x) == Monus(Count(a, x), Count(b, x))
    decreases |a| + |b|
  {
    if a == [] || b == [] {
    } else if a[0] < b[0] {
      DifferenceCount(a[1..], b, x);
      CountCons(a, x);
      CountPrepend(a[0], Difference(a[1..], b), x);
      BelowHeadAbsent(b, a[0]);
    } else if !(b[0] < a[0]) {
      DifferenceCount(a[1..], b[1..], x);
      CountCons(a, x);
      CountCons(b, x);
    } else {
      DifferenceCount(a, b[1..], x);
      CountCons(b, x);
      BelowHeadAbsent(a, b[0]);
    }
  }

  lemma {:induction false} DifferenceSorted(a: seq<int>, b: seq<int>)
    requires Sorted(a) && Sorted(b)
    ensures Sorted(Difference(a, b))
    decreases |a| + |b|
  {
    if a == [] || b == [] {
    } else if a[0] < b[0] {
      var t := Difference(a[1..], b);
      DifferenceSorted(a[1..], b);
      forall y | Count(t, y) > 0 ensures a[0] <= y {
        DifferenceCount(a[1..], b, y);
        TailAtLeastHead(a, y);
      }
      SortedCons(a[0], t);
    } else if !(b[0] < a[0]) {
      DifferenceSorted(a[1..], b[1..]);
    } else {
      DifferenceSorted(a, b[1..]);
    }
  }

  /** For sorted inputs, set_difference yields a sorted range holding max(m - n, 0) copies of each value. */
  lemma DifferenceSpec(a: seq<int>, b: seq<int>)
    requires Sorted(a) && Sorted(b)
    ensures Sorted(Difference(a, b))
    ensures forall x :: Count(Difference(a, b), x) == Monus(Count(a, x), Count(b, x))
  {
    DifferenceSorted(a, b);
    forall x ensures Count(Difference(a, b), x) == Monus(Count(a, x), Count(b, x)) {
      DifferenceCount(a, b, x);
    }
  }

  // ---------------------------------------------------------------------------
  // set_symmetric_difference

  /** The output of std::set_symmetric_difference on the ranges a and b. */
  function SymmetricDifference(a: seq<int>, b: seq<int>): (r: seq<int>)
    ensures |r| <= |a| + |b|
    decreases |a| + |b|
  {
    if a == [] then b
    else if b == [] then a
    else if a[0] < b[0] then [a[0]] + SymmetricDifference(a[1..], b)
    else if b[0] < a[0] then [b[0]] + SymmetricDifference(a, b[1..])
    else SymmetricDifference(a[1..], b[1..])
  }

  lemma {:induction false} SymmetricDifferenceCount(a: seq<int>, b: seq<int>, x: int)
    requires Sorted(a) && Sorted(b)
    ensures Count(SymmetricDifference(a, b), x) == AbsDiff(Count(a, x), Count(b, x))
    decreases |a| + |b|
  {
    if a == [] || b == [] {
    } else if a[0] < b[0] {
      SymmetricDifferenceCount(a[1..], b, x);
      CountCons(a, x);
      CountPrepend(a[0], SymmetricDifference(a[1..], b), x);
      BelowHeadAbsent(b, a[0]);
    } else if b[0] < a[0] {
      SymmetricDifferenceCount(a, b[1..], x);
      CountCons(b, x);
      CountPrepend(b[0], SymmetricDifference(a, b[1..]), x);
      BelowHeadAbsent(a, b[0]);
    } else {
      SymmetricDifferenceCount(a[1..], b[1..], x);
      CountCons(a, x);
      CountCons(b, x);
    }
  }

  lemma {:induction false} SymmetricDifferenceSorted(a: seq<int>, b: seq<int>)
    requires Sorted(a) && Sorted(b)
    ensures Sorted(SymmetricDifference(a, b))
    decreases |a| + |b|
  {
    if a == [] || b == [] {
    } else if a[0] < b[0] {
      var t := SymmetricDifference(a[1..], b);
      SymmetricDifferenceSorted(a[1..], b);
      forall y | Count(t, y) > 0 ensures a[0] <= y {
        SymmetricDifferenceCount(a[1..], b, y);
        if Count(a[1..], y) > 0 { TailAtLeastHead(a, y); } else { HeadIsLeast(b, y); }
      }
      SortedCons(a[0], t);
    } else if b[0] < a[0] {
      var t := SymmetricDifference(a, b[1..]);
      SymmetricDifferenceSorted(a, b[1..]);
      forall y | Count(t, y) > 0 ensures b[0] <= y {
        SymmetricDifferenceCount(a, b[1..], y);
        if Count(a, y) > 0 { HeadIsLeast(a, y); } else { TailAtLeastHead(b, y); }
      }
      SortedCons(b[0], t);
    } else {
      SymmetricDifferenceSorted(a[1..], b[1..]);
    }
  }

  /** For sorted inputs, set_symmetric_difference yields a sorted range holding |m - n| copies of each value. */
  lemma SymmetricDifferenceSpec(a: seq<int>, b: seq<int>)
    requires Sorted(a) && Sorted(b)
    ensures Sorted(SymmetricDifference(a, b))
    ensures forall x :: Count(SymmetricDifference(a, b), x) == AbsDiff(Count(a, x), Count(b, x))
  {
    SymmetricDifferenceSorted(a, b);
    forall x ensures Count(SymmetricDifference(a, b), x) == AbsDiff(Count(a, x), Count(b, x)) {
      SymmetricDifferenceCount(a, b, x);
    }
  }

  // ---------------------------------------------------------------------------
  // includes

  /** The answer of std::includes(a, b): is the range b contained in the range a? */
  predicate Includes(a: seq<int>, b: seq<int>): (r: bool)
    ensures r ==> |b| <= |a|
    ensures r && |a| == |b| ==> a == b
    decreases |a| + |b|
  {
    if b == [] then true
    else if a == [] || b[0] < a[0] then false
    else if !(a[0] < b[0]) then Includes(a[1..], b[1..])
    else Includes(a[1..], b)
  }

  /** sub can be obtained from s by deleting elements. */
  predicate IsSubsequence(sub: seq<int>, s: seq<int>)
    decreases |s|
  {
    sub == [] ||
    (s != [] && ((sub[0] == s[0] && IsSubsequence(sub[1..], s[1..])) || IsSubsequence(sub, s[1..])))
  }

  /** Multiset inclusion, value by value. */
  lemma SubmultisetByCount(sub: seq<int>, s: seq<int>)
    ensures multiset(sub) <= multiset(s) <==> forall x :: Count(sub, x) <= Count(s, x)
  {
    if forall x :: Count(sub, x) <= Count(s, x) {
      forall x ensures multiset(sub)[x] <= multiset(s)[x] {
        assert Count(sub, x) <= Count(s, x);
      }
    }
  }

  /** On sorted ranges, includes decides multiset inclusion. */
  lemma {:induction false} IncludesSpec(a: seq<int>, b: seq<int>)
    requires Sorted(a) && Sorted(b)
    ensures Includes(a, b) <==> multiset(b) <= multiset(a)
    decreases |a| + |b|
  {
    SubmultisetByCount(b, a);
    if b == [] {
    } else if a == [] {
      assert Count(b, b[0]) > 0;
    } else if b[0] < a[0] {
      BelowHeadAbsent(a, b[0]);
      assert Count(b, b[0]) > 0;
    } else if !(a[0] < b[0]) {
      IncludesSpec(a[1..], b[1..]);
      SubmultisetByCount(b[1..], a[1..]);
      forall x ensures Count(b, x) <= Count(a, x) <==> Count(b[1..], x) <= Count(a[1..], x) {
        CountCons(a, x);
        CountCons(b, x);
      }
    } else {
      IncludesSpec(a[1..], b);
      SubmultisetByCount(b, a[1..]);
      BelowHeadAbsent(b, a[0]);
      forall x ensures Count(b, x) <= Count(a, x) <==> Count(b, x) <= Count(a[1..], x) {
        CountCons(a, x);
      }
    }
  }

  /** When includes says yes, the contained range is a subsequence. */
  lemma {:induction false} IncludesSubsequence(a: seq<int>, b: seq<int>)
    requires Includes(a, b)
    ensures IsSubsequence(b, a)
    decreases |a| + |b|
  {
    if b == [] {
    } else if !(a[0] < b[0]) {
      IncludesSubsequence(a[1..], b[1..]);
    } else {
      IncludesSubsequence(a[1..], b);
    }
  }

  /** Deleting elements can only lower counts. */
  lemma {:induction false} SubsequenceSubmultiset(sub: seq<int>, s: seq<int>)
    requires IsSubsequence(sub, s)
    ensures multiset(sub) <= multiset(s)
    decreases |s|
  {
    if sub == [] {
    } else {
      assert s == [s[0]] + s[1..];
      if sub[0] == s[0] && IsSubsequence(sub[1..], s[1..]) {
        SubsequenceSubmultiset(sub[1..], s[1..]);
        assert sub == [sub[0]] + sub[1..];
      } else {
        SubsequenceSubmultiset(sub, s[1..]);
      }
    }
  }

  /** On sorted ranges, includes(a, b) holds exactly when b is a subsequence of a. */
  lemma IncludesIffSubsequence(a: seq<int>, b: seq<int>)
    requires Sorted(a) && Sorted(b)
    ensures Includes(a, b) <==> IsSubsequence(b, a)
  {
    IncludesSpec(a, b);
    if Includes(a, b) {
      IncludesSubsequence(a, b);
    }
    if IsSubsequence(b, a) {
      SubsequenceSubmultiset(b, a);
    }
  }
}
