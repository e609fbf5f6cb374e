/** The sortable integer buffer of Lab5-Quicksort/QS.cpp: a fixed-capacity
    array of which the first `count` cells hold the values added so far, sorted
    in place by quicksort with median-of-three pivot selection and a two-pointer
    partition. Index-returning operations signal bad input with -1, mutating
    ones with false, and change nothing in that case. */
module QuickSort {
  import opened Ranges
  import opened Render

  /** One comparator of the median-of-three network: exchanges cells i and j
      when the value at j is strictly less than the value at i. */
  function OrderStep(s: seq<int>, i: int, j: int): (t: seq<int>)
    requires 0 <= i < |s| && 0 <= j < |s|
    ensures |t| == |s|
  {
    if s[j] < s[i] then s[i := s[j]][j := s[i]] else s
  }

  /** The cells after the three comparators medianOfThree applies, in order. */
  function MedianSteps(s: seq<int>, l: int, m: int, r: int): (t: seq<int>)
    requires 0 <= l < |s| && 0 <= m < |s| && 0 <= r < |s|
    ensures |t| == |s|
  {
    OrderStep(OrderStep(OrderStep(s, l, m), l, r), m, r)
  }

  /** The three comparators leave the left, middle and right values in order. */
  lemma MedianStepsOrdered(s: seq<int>, l: int, m: int, r: int)
    requires 0 <= l <= m < r < |s|
    ensures var t := MedianSteps(s, l, m, r); t[l] <= t[m] <= t[r]
  {
    var s1 := OrderStep(s, l, m);
    assert s1[l] <= s1[m];
    var s2 := OrderStep(s1, l, r);
    assert s2[l] <= s2[m] && s2[l] <= s2[r];
  }

  /** The three comparators rearrange only the range [l, r]. */
  lemma MedianStepsPermuted(s: seq<int>, l: int, m: int, r: int)
    requires 0 <= l <= m < r < |s|
    ensures Permuted(s, MedianSteps(s, l, m, r), l, r)
  {
    var s1 := OrderStep(s, l, m);
    var s2 := OrderStep(s1, l, r);
    OrderStepPermuted(s, l, m, l, r);
    OrderStepPermuted(s1, l, r, l, r);
    PermutedTrans(s, s1, s2, l, r);
    OrderStepPermuted(s2, m, r, l, r);
    PermutedTrans(s, s2, MedianSteps(s, l, m, r), l, r);
  }

  /** Inside [l, r] the three comparators touch only the cells l, m and r. */
  lemma MedianStepsFrame(s: seq<int>, l: int, m: int, r: int)
    requires 0 <= l <= m < r < |s|
    ensures forall k :: 0 <= k < |s| && k != l && k != m && k != r ==> MedianSteps(s, l, m, r)[k] == s[k]
  {
  }

  lemma OrderStepPermuted(s: seq<int>, i: int, j: int, lo: int, hi: int)
    requires 0 <= lo <= i <= hi < |s| && lo <= j <= hi
    ensures Permuted(s, OrderStep(s, i, j), lo, hi)
  {
    if s[j] < s[i] {
      SwapPermuted(s, lo, hi, i, j);
    } else {
      PermutedRefl(s, lo, hi);
    }
  }

  class QS {
    var items: array<int>
    var capacity: int
    /** The number of values added since the array was created. */
    var count: nat

    ghost predicate Valid()
      reads this
    {
      capacity == items.Length && count <= capacity
    }

    /** The values added so far, in order; cells past `count` are unused. */
    ghost function Contents(): seq<int>
      reads this, items
      requires Valid()
    {
      items[..count]
    }

    /** A fresh buffer has no storage: capacity 0 and nothing added. */
    constructor ()
      ensures Valid() && capacity == 0 && Contents() == []
    {
      items := new int[0];
      capacity := 0;
      count := 0;
    }

    /** Replaces the storage by a new, empty array of capacity c; a negative
        capacity is refused and leaves the buffer as it was. */
    method CreateArray(c: int) returns (ok: bool)
      requires Valid()
      modifies this
      ensures Valid()
      ensures ok <==> c >= 0
      ensures !ok ==> items == old(items) && capacity == old(capacity) && count == old(count)
      ensures !ok ==> Contents() == old(Contents())
      ensures ok ==> fresh(items) && capacity == c && Contents() == []
    {
      if c < 0 {
        return false;
      }
      Clear();
      items := new int[c];
      capacity := c;
      return true;
    }

    /** Drops the storage: capacity and count both become 0. */
    method Clear()
      modifies this
      ensures Valid() && fresh(items) && capacity == 0 && Contents() == []
    {
      items := new int[0];
      capacity := 0;
      count := 0;
    }

    /** The number of values added so far. */
    function GetSize(): (n: int)
      reads this, items
      requires Valid()
      ensures 0 <= n <= capacity && n == |Contents()|
    {
      count
    }

    /** Stores value in the first unused cell; a full buffer refuses it and
        nothing changes. */
    method AddToArray(value: int) returns (ok: bool)
      requires Valid()
      modifies this`count, items
      ensures Valid()
      ensures ok <==> old(count) < capacity
      ensures ok ==> count == old(count) + 1 && items[..] == old(items[..])[old(count) := value]
      ensures !ok ==> count == old(count) && items[..] == old(items[..])
      ensures Contents() == if ok then old(Contents()) + [value] else old(Contents())
    {
      var endIndex := GetSize();
      if endIndex >= capacity {
        return false;
      }
      items[endIndex] := value;
      count := count + 1;
      assert items[..count] == old(items[..count]) + [value];
      return true;
    }

    /** The added values in decimal, comma-separated, with no trailing comma
        and nothing from the unused cells. */
    method GetArray() returns (result: string)
      requires Valid()
      ensures result == Join(Contents())
    {
      result := "";
      for i := 0 to GetSize()
        invariant result == Join(items[..i]) + (if 0 < i < count then "," else "")
      {
        assert items[..i + 1][..i] == items[..i];
        result := result + IntToString(items[i]);
        if i < GetSize() - 1 {
          result := result + ",";
        }
      }
    }

    /** Exchanges the values in cells i and j of the range [lo, hi], which
        rearranges that range. */
    method Swap(lo: int, hi: int, i: int, j: int)
      requires 0 <= lo <= i <= hi < items.Length && lo <= j <= hi
      modifies items
      ensures items[i] == old(items[j]) && items[j] == old(items[i])
      ensures forall k :: 0 <= k < items.Length && k != i && k != j ==> items[k] == old(items[k])
      ensures Permuted(old(items[..]), items[..], lo, hi)
    {
      ghost var before := items[..];
      items[i], items[j] := items[j], items[i];
      assert items[..] == before[i := before[j]][j := before[i]];
      SwapPermuted(before, lo, hi, i, j);
    }

    /** Orders the values at left, (left + right) / 2 and right and returns
        that middle index; -1, with nothing changed, when the array is empty,
        either bound lies outside the added values, or left >= right. */
    method MedianOfThree(left: int, right: int) returns (middle: int)
      requires Valid()
      modifies items
      ensures middle == -1 <==> !(0 <= left < right < count)
      ensures middle == -1 ==> items[..] == old(items[..])
      ensures middle != -1 ==> middle == (left + right) / 2 && left <= middle < right
      ensures middle != -1 ==> items[left] <= items[middle] <= items[right]
      ensures middle != -1 ==>
        forall k :: 0 <= k < items.Length && k != left && k != middle && k != right ==>
          items[k] == old(items[k])
      ensures middle != -1 ==> Permuted(old(items[..]), items[..], left, right)
    {
      if count == 0 || left < 0 || right >= count || left >= right {
        return -1;
      }
      middle := (left + right) / 2;
      MedianStepsOrdered(items[..], left, middle, right);
      MedianStepsPermuted(items[..], left, middle, right);
      MedianStepsFrame(items[..], left, middle, right);
      OrderPair(left, middle);
      OrderPair(left, right);
      OrderPair(middle, right);
    }

    /** One comparator of the network, on the array: swaps cells lo and hi
        when the value at hi is strictly less than the value at lo. */
    method OrderPair(lo: int, hi: int)
      requires 0 <= lo < items.Length && 0 <= hi < items.Length
      modifies items
      ensures items[..] == OrderStep(old(items[..]), lo, hi)
    {
      if items[hi] < items[lo] {
        items[lo], items[hi] := items[hi], items[lo];
      }
    }

    /** Advances from lo while the value is <= pivot and the index is below hi. */
    method ScanUp(lo: int, hi: int, pivot: int) returns (k: int)
      requires 0 <= lo <= hi < items.Length
      ensures lo <= k <= hi
      ensures forall m :: lo <= m < k ==> items[m] <= pivot
      ensures k < hi ==> items[k] > pivot
    {
      k := lo;
      while items[k] <= pivot && k < hi
        invariant lo <= k <= hi
        invariant forall m :: lo <= m < k ==> items[m] <= pivot
        decreases hi - k
      {
        k := k + 1;
      }
    }

    /** Retreats from hi while the value is > pivot and the index is above lo. */
    method ScanDown(hi: int, lo: int, pivot: int) returns (k: int)
      requires 0 <= lo <= hi < items.Length
      ensures lo <= k <= hi
      ensures forall m :: k < m <= hi ==> items[m] > pivot
      ensures k > lo ==> items[k] <= pivot
    {
      k := hi;
      while items[k] > pivot && k > lo
        invariant lo <= k <= hi
        invariant forall m :: k < m <= hi ==> items[m] > pivot
        decreases k - lo
      {
        k := k - 1;
      }
    }

    /** Rearranges [left, right] around the value at pivotIndex and returns
        where that value ends: everything before it is <= it, everything after
        it is > it. -1, with nothing changed, when the array is empty, either
        bound lies outside the added values, left >= right, or pivotIndex is
        outside [left, right]. */
    method Partition(left: int, right: int, pivotIndex: int) returns (p: int)
      requires Valid()
      modifies items
      ensures p == -1 <==> !(0 <= left < right < count && left <= pivotIndex <= right)
      ensures p == -1 ==> items[..] == old(items[..])
      ensures p != -1 ==> left <= p <= right && items[p] == old(items[pivotIndex])
      ensures p != -1 ==> forall k :: left <= k < p ==> items[k] <= items[p]
      ensures p != -1 ==> forall k :: p < k <= right ==> items[k] > items[p]
      ensures p != -1 ==> Permuted(old(items[..]), items[..], left, right)
    {
      if count == 0 || left < 0 || right >= count || left >= right
         || pivotIndex < left || pivotIndex > right {
        return -1;
      }
      ghost var orig := items[..];
      Swap(left, right, left, pivotIndex);
      var pivot := items[left];
      ghost var s1 := items[..];
      var j := Exchange(left, right, pivot);
      ghost var s2 := items[..];
      PermutedTrans(orig, s1, s2, left, right);
      Swap(left, right, left, j);
      PermutedTrans(orig, s2, items[..], left, right);
      return j;
    }

    /** The scanning phase of partition, with the pivot value parked at left:
        i runs up from left + 1 over values <= pivot, j runs down from right
        over values > pivot, and the two out-of-place values are exchanged
        until the indices meet. Returns where j stopped: every value in
        (left, j] is <= pivot and every value in (j, right] is > pivot. */
    method Exchange(left: int, right: int, pivot: int) returns (j: int)
      requires 0 <= left < right < items.Length && items[left] == pivot
      modifies items
      ensures left <= j <= right && items[left] == pivot
      ensures forall k :: left < k <= j ==> items[k] <= pivot
      ensures forall k :: j < k <= right ==> items[k] > pivot
      ensures Permuted(old(items[..]), items[..], left, right)
    {
      ghost var orig := items[..];
      PermutedRefl(orig, left, right);
      // The repeat-until loop of the two-pointer scheme (scan up, scan down,
      // exchange if i < j, until i >= j), its first round's scans hoisted.
      var i := ScanUp(left + 1, right, pivot);
      j := ScanDown(right, left, pivot);
      while i < j
        invariant left + 1 <= i <= right && left <= j <= right
        invariant items[left] == pivot
        invariant forall k :: left + 1 <= k < i ==> items[k] <= pivot
        invariant forall k :: j < k <= right ==> items[k] > pivot
        invariant i < right ==> items[i] > pivot
        invariant j > left ==> items[j] <= pivot
        invariant Permuted(orig, items[..], left, right)
        decreases j - i
      {
        ghost var before := items[..];
        Swap(left, right, i, j);
        PermutedTrans(orig, before, items[..], left, right);
        i := ScanUp(i, right, pivot);
        j := ScanDown(j, left, pivot);
      }
    }

    /** Sorts the closed range [left, right] in place; a range that is not
        inside the added values, or that holds at most one value, is left as
        it is. */
    method Sort(left: int, right: int)
      requires Valid()
      modifies items
      ensures SortsRange(old(items[..]), items[..], left, right, count)
      decreases right - left
    {
      if left >= right {
        return;
      }
      var middle := MedianOfThree(left, right);
      if middle == -1 {
        return;
      }
      ghost var s0, sm := old(items[..]), items[..];
      var p := Partition(left, right, middle);
      // middle lies in [left, right], so this partition cannot fail
      assert p != -1;
      ghost var s1 := items[..];
      PermutedTrans(s0, sm, s1, left, right);
      Sort(left, p - 1);
      ghost var s2 := items[..];
      Sort(p + 1, right);
      QuicksortStep(s0, s1, s2, items[..], left, p, right, count);
    }

    /** Sorts the added values: afterwards each is <= its successor, they are
        the same values as before, and the unused cells are untouched. Does
        nothing on an empty array. */
    method SortAll()
      requires Valid()
      modifies items
      ensures Sorted(Contents())
      ensures multiset(Contents()) == old(multiset(Contents()))
      ensures forall k :: count <= k < items.Length ==> items[k] == old(items[k])
      ensures count <= 1 ==> items[..] == old(items[..])
      ensures Sorted(old(Contents())) ==> Contents() == old(Contents())
    {
      if GetSize() == 0 {
        return;
      }
      Sort(0, GetSize() - 1);
      assert items[..][0..count] == Contents();
      assert old(items[..])[0..count] == old(Contents());
      if Sorted(old(Contents())) {
        SortedPermutationUnique(old(Contents()), Contents());
      }
    }
  }
}
