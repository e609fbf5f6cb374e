/** Facts about integer sequences that the quicksort in module QuickSort relies on:
    what it means for a sequence (or the sub-range [lo, hi] of one) to be sorted,
    and what it means for a sub-range to have been rearranged in place. */
module Ranges {

  /** Every element is less than or equal to its successor. */
  ghost predicate Sorted(s: seq<int>)
  {
    forall i, j :: 0 <= i && j == i + 1 && j < |s| ==> s[i] <= s[j]
  }

  /** The closed index range [lo, hi] lies inside s and is sorted in the
      successor sense; an empty or one-element range is trivially sorted. */
  ghost predicate SortedBetween(s: seq<int>, lo: int, hi: int)
  {
    0 <= lo && hi < |s| &&
    forall i, j :: lo <= i && j == i + 1 && j <= hi ==> s[i] <= s[j]
  }

  /** Sorted is SortedBetween over the whole sequence: the recursive sort
      speaks of sub-ranges, sortAll's promise of the whole contents. */
  lemma SortedWhole(s: seq<int>)
    ensures Sorted(s) <==> SortedBetween(s, 0, |s| - 1)
  {
  }

  /** b is a rearrangement of a that only moved elements inside the closed
      range [lo, hi]: cells outside it are equal and the range holds the same
      multiset of values. */
  ghost predicate Permuted(a: seq<int>, b: seq<int>, lo: int, hi: int)
  {
    |a| == |b| && 0 <= lo <= hi + 1 <= |a| &&
    (forall k :: 0 <= k < |a| && !(lo <= k <= hi) ==> a[k] == b[k]) &&
    multiset(a[lo..hi + 1]) == multiset(b[lo..hi + 1])
  }

  /** What sorting the closed range [lo, hi] of a sequence whose first n
      cells are in use does: a range inside [0, n) holding two or more values
      is rearranged into sorted order, and any other range is left as it is. */
  ghost predicate SortsRange(a: seq<int>, b: seq<int>, lo: int, hi: int, n: int)
  {
    if 0 <= lo < hi < n <= |a| then Permuted(a, b, lo, hi) && SortedBetween(b, lo, hi)
    else b == a
  }

  /** Exchanging two cells keeps the multiset of values. */
  lemma SwapMultiset(u: seq<int>, a: int, b: int)
    requires 0 <= a < |u| && 0 <= b < |u|
    ensures multiset(u[a := u[b]][b := u[a]]) == multiset(u)
  {
    if a != b {
      var v := u[a := u[b]];
      assert multiset(v) == multiset(u) - multiset{u[a]} + multiset{u[b]};
      assert v[b] == u[b];
    }
  }

  /** Exchanging two cells of [lo, hi] is a rearrangement of that range. */
  lemma SwapPermuted(s: seq<int>, lo: int, hi: int, i: int, j: int)
    requires 0 <= lo <= i <= hi < |s| && lo <= j <= hi
    ensures Permuted(s, s[i := s[j]][j := s[i]], lo, hi)
  {
    var t := s[i := s[j]][j := s[i]];
    var u := s[lo..hi + 1];
    assert t[lo..hi + 1] == u[i - lo := u[j - lo]][j - lo := u[i - lo]];
    SwapMultiset(u, i - lo, j - lo);
  }

  lemma PermutedRefl(s: seq<int>, lo: int, hi: int)
    requires 0 <= lo <= hi + 1 <= |s|
    ensures Permuted(s, s, lo, hi)
  {
  }

  lemma PermutedTrans(a: seq<int>, b: seq<int>, c: seq<int>, lo: int, hi: int)
    requires Permuted(a, b, lo, hi) && Permuted(b, c, lo, hi)
    ensures Permuted(a, c, lo, hi)
  {
  }

  /** A rearrangement of a sub-range is also one of any range enclosing it. */
  lemma PermutedWiden(a: seq<int>, b: seq<int>, lo: int, hi: int, lo': int, hi': int)
    requires Permuted(a, b, lo, hi)
    requires 0 <= lo' <= lo && hi <= hi' < |a|
    ensures Permuted(a, b, lo', hi')
  {
    assert a[lo'..hi' + 1] == a[lo'..lo] + a[lo..hi + 1] + a[hi + 1..hi' + 1];
    assert b[lo'..hi' + 1] == b[lo'..lo] + b[lo..hi + 1] + b[hi + 1..hi' + 1];
    assert a[lo'..lo] == b[lo'..lo];
    assert a[hi + 1..hi' + 1] == b[hi + 1..hi' + 1];
  }

  /** Every value in the rearranged range came from the original range. */
  lemma PermutedFrom(a: seq<int>, b: seq<int>, lo: int, hi: int, k: int)
    requires Permuted(a, b, lo, hi) && lo <= k <= hi
    ensures exists j :: lo <= j <= hi && a[j] == b[k]
  {
    var before, after := a[lo..hi + 1], b[lo..hi + 1];
    assert b[k] == after[k - lo];
    assert b[k] in multiset(after);
    assert b[k] in before;
    var d :| 0 <= d < |before| && before[d] == b[k];
    assert a[lo + d] == b[k];
  }

  /** An upper bound on a range still holds after rearranging it. */
  lemma PermutedAtMost(a: seq<int>, b: seq<int>, lo: int, hi: int, x: int)
    requires Permuted(a, b, lo, hi)
    requires forall k :: lo <= k <= hi ==> a[k] <= x
    ensures forall k :: lo <= k <= hi ==> b[k] <= x
  {
    forall k | lo <= k <= hi
      ensures b[k] <= x
    {
      PermutedFrom(a, b, lo, hi, k);
    }
  }

  /** A strict lower bound on a range still holds after rearranging it. */
  lemma PermutedAbove(a: seq<int>, b: seq<int>, lo: int, hi: int, x: int)
    requires Permuted(a, b, lo, hi)
    requires forall k :: lo <= k <= hi ==> a[k] > x
    ensures forall k :: lo <= k <= hi ==> b[k] > x
  {
    forall k | lo <= k <= hi
      ensures b[k] > x
    {
      PermutedFrom(a, b, lo, hi, k);
    }
  }

  /** Two sorted ranges either side of p, the left one bounded above by s[p]
      and the right one strictly below by it, make one sorted range. */
  lemma SortedAround(s: seq<int>, lo: int, p: int, hi: int)
    requires 0 <= lo <= p <= hi < |s|
    requires SortedBetween(s, lo, p - 1) && SortedBetween(s, p + 1, hi)
    requires forall k :: lo <= k < p ==> s[k] <= s[p]
    requires forall k :: p < k <= hi ==> s[k] > s[p]
    ensures SortedBetween(s, lo, hi)
  {
  }

  /** One quicksort step rearranges: s1 rearranges [lo, hi] of s0, and s2
      and s3 rearrange the two sides of p inside it. */
  lemma QuicksortStepPermuted(s0: seq<int>, s1: seq<int>, s2: seq<int>, s3: seq<int>,
                              lo: int, p: int, hi: int, n: int)
    requires Permuted(s0, s1, lo, hi) && lo <= p <= hi < n <= |s0|
    requires SortsRange(s1, s2, lo, p - 1, n) && SortsRange(s2, s3, p + 1, hi, n)
    ensures Permuted(s0, s3, lo, hi)
  {
    if lo < p - 1 {
      PermutedWiden(s1, s2, lo, p - 1, lo, hi);
    } else {
      PermutedRefl(s1, lo, hi);
    }
    if p + 1 < hi {
      PermutedWiden(s2, s3, p + 1, hi, lo, hi);
    } else {
      PermutedRefl(s2, lo, hi);
    }
    PermutedTrans(s0, s1, s2, lo, hi);
    PermutedTrans(s0, s2, s3, lo, hi);
  }

  /** Sorting [lo, hi] leaves every cell outside it as it was. */
  lemma SortsRangeFrame(a: seq<int>, b: seq<int>, lo: int, hi: int, n: int)
    requires SortsRange(a, b, lo, hi, n) && n <= |a|
    ensures |b| == |a| && forall k :: 0 <= k < |a| && !(lo <= k <= hi) ==> b[k] == a[k]
  {
  }

  /** Sorting [lo, hi] (of length at least 0) keeps an upper bound on it and
      leaves it sorted. */
  lemma SortsRangeAtMost(a: seq<int>, b: seq<int>, lo: int, hi: int, n: int, x: int)
    requires SortsRange(a, b, lo, hi, n) && 0 <= lo <= hi + 1 <= n <= |a|
    requires forall k :: lo <= k <= hi ==> a[k] <= x
    ensures forall k :: lo <= k <= hi ==> b[k] <= x
    ensures SortedBetween(b, lo, hi)
  {
    if lo < hi {
      PermutedAtMost(a, b, lo, hi, x);
    }
  }

  /** Sorting [lo, hi] keeps a strict lower bound on it and leaves it sorted. */
  lemma SortsRangeAbove(a: seq<int>, b: seq<int>, lo: int, hi: int, n: int, x: int)
    requires SortsRange(a, b, lo, hi, n) && 0 <= lo <= hi + 1 <= n <= |a|
    requires forall k :: lo <= k <= hi ==> a[k] > x
    ensures forall k :: lo <= k <= hi ==> b[k] > x
    ensures SortedBetween(b, lo, hi)
  {
    if lo < hi {
      PermutedAbove(a, b, lo, hi, x);
    }
  }

  /** Sortedness of [lo, hi] survives any change made outside it. */
  lemma SortedBetweenFrame(a: seq<int>, b: seq<int>, lo: int, hi: int)
    requires SortedBetween(a, lo, hi) && |b| == |a|
    requires forall k :: lo <= k <= hi ==> b[k] == a[k]
    ensures SortedBetween(b, lo, hi)
  {
    forall i, j | lo <= i && j == i + 1 && j <= hi
      ensures b[i] <= b[j]
    {
      assert a[i] <= a[j];
    }
  }

  /** One quicksort step sorts: s1 partitions [lo, hi] around s1[p], s2 then
      sorts [lo, p - 1] and s3 sorts [p + 1, hi]; then s3 has [lo, hi] sorted. */
  lemma QuicksortStepSorted(s1: seq<int>, s2: seq<int>, s3: seq<int>, lo: int, p: int, hi: int, n: int)
    requires 0 <= lo <= p <= hi < n <= |s1|
    requires forall k :: lo <= k < p ==> s1[k] <= s1[p]
    requires forall k :: p < k <= hi ==> s1[k] > s1[p]
    requires SortsRange(s1, s2, lo, p - 1, n) && SortsRange(s2, s3, p + 1, hi, n)
    ensures SortedBetween(s3, lo, hi)
  {
    var pivot := s1[p];
    SortsRangeAtMost(s1, s2, lo, p - 1, n, pivot);
    SortsRangeFrame(s1, s2, lo, p - 1, n);
    assert s2[p] == pivot && forall k :: p < k <= hi ==> s2[k] > pivot;
    SortsRangeAbove(s2, s3, p + 1, hi, n, pivot);
    SortsRangeFrame(s2, s3, p + 1, hi, n);
    assert s3[p] == pivot && forall k :: lo <= k < p ==> s3[k] <= pivot by {
      assert forall k :: lo <= k <= p ==> s3[k] == s2[k];
    }
    SortedBetweenFrame(s2, s3, lo, p - 1);
    SortedAround(s3, lo, p, hi);
  }

  /** One quicksort step sorts the range: s1 rearranges [lo, hi] of s0 and
      partitions it around s1[p]; sorting both sides of p then sorts it. */
  lemma QuicksortStep(s0: seq<int>, s1: seq<int>, s2: seq<int>, s3: seq<int>,
                      lo: int, p: int, hi: int, n: int)
    requires Permuted(s0, s1, lo, hi) && lo <= p <= hi && lo < hi < n <= |s0|
    requires forall k :: lo <= k < p ==> s1[k] <= s1[p]
    requires forall k :: p < k <= hi ==> s1[k] > s1[p]
    requires SortsRange(s1, s2, lo, p - 1, n) && SortsRange(s2, s3, p + 1, hi, n)
    ensures SortsRange(s0, s3, lo, hi, n)
  {
    QuicksortStepPermuted(s0, s1, s2, s3, lo, p, hi, n);
    QuicksortStepSorted(s1, s2, s3, lo, p, hi, n);
  }

  /** The successor form of sortedness gives the pairwise form. */
  lemma {:induction false} SortedOrdered(s: seq<int>, i: int, j: int)
    requires Sorted(s) && 0 <= i <= j < |s|
    ensures s[i] <= s[j]
    decreases j - i
  {
    if i < j {
      SortedOrdered(s, i + 1, j);
    }
  }

  /** The first value of a sorted sequence is its least. */
  lemma SortedFirstLeast(s: seq<int>, v: int)
    requires Sorted(s) && v in s
    ensures s[0] <= v
  {
    var j :| 0 <= j < |s| && s[j] == v;
    SortedOrdered(s, 0, j);
  }

  lemma SortedTail(s: seq<int>)
    requires Sorted(s) && |s| > 0
    ensures Sorted(s[1..])
  {
    var t := s[1..];
    forall i, j | 0 <= i && j == i + 1 && j < |t|
      ensures t[i] <= t[j]
    {
      assert t[i] == s[i + 1] && t[j] == s[j + 1];
    }
  }

  lemma MultisetTail(s: seq<int>)
    requires |s| > 0
    ensures multiset(s[1..]) == multiset(s) - multiset{s[0]}
  {
    assert s == [s[0]] + s[1..];
  }

  /** Two sorted sequences holding the same multiset of values are equal: a sort
      has exactly one possible outcome, and sorting sorted data changes nothing. */
  lemma {:induction false} SortedPermutationUnique(a: seq<int>, b: seq<int>)
    requires Sorted(a) && Sorted(b) && multiset(a) == multiset(b)
    ensures a == b
    decreases |a|
  {
    assert |a| == |b| by {
      assert |a| == |multiset(a)| == |multiset(b)| == |b|;
    }
    if |a| > 0 {
      assert a[0] == b[0] by {
        assert a[0] in multiset(b) && b[0] in multiset(a);
        SortedFirstLeast(b, a[0]);
        SortedFirstLeast(a, b[0]);
      }
      assert multiset(a[1..]) == multiset(b[1..]) by {
        MultisetTail(a);
        MultisetTail(b);
      }
      assert Sorted(a[1..]) && Sorted(b[1..]) by {
        SortedTail(a);
        SortedTail(b);
      }
      SortedPermutationUnique(a[1..], b[1..]);
      assert a == [a[0]] + a[1..] && b == [b[0]] + b[1..];
    }
  }
}
