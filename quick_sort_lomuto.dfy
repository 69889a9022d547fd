/** Quicksort with Lomuto's partition around the last element of the range. */
module QuickSortLomuto {
  import opened Sorting

  /** `sort(array, low, high)`: sorts `a[low..high]` (inclusive bounds) and
      leaves every other cell alone; a range of at most one cell is untouched. */
  method Sort(a: array<int>, low: int, high: int)
    requires low < high ==> 0 <= low && high < a.Length
    modifies a
    ensures SortedRange(a[..], low, high + 1)
    ensures multiset(a[..]) == multiset(old(a[..]))
    ensures SameOutside(a[..], old(a[..]), low, high + 1)
    ensures low >= high ==> a[..] == old(a[..])
    decreases high - low
  {
    if low < high {
      ghost var s0 := a[..];
      var pivotIndex := Partition(a, low, high);
      ghost var s1 := a[..];
      Sort(a, low, pivotIndex - 1);
      ghost var s2 := a[..];
      Sort(a, pivotIndex + 1, high);
      CombineParts(s0, s1, s2, a[..], low, pivotIndex, high + 1);
    }
  }

  /** The reasoning of `sort` after its three calls: `s0` on entry, `s1` after
      partitioning `[lo..hi)` around the pivot cell `p`, `s2` after sorting
      `[lo..p)`, `s3` after sorting `(p..hi)`. */
  lemma CombineParts(s0: seq<int>, s1: seq<int>, s2: seq<int>, s3: seq<int>, lo: int, p: int, hi: int)
    requires 0 <= lo <= p < hi <= |s0|
    requires SameOutside(s1, s0, lo, hi) && multiset(s1) == multiset(s0)
    requires forall k :: lo <= k < p ==> s1[k] < s1[p]
    requires forall k :: p < k < hi ==> s1[k] >= s1[p]
    requires SameOutside(s2, s1, lo, p) && multiset(s2) == multiset(s1) && SortedRange(s2, lo, p)
    requires SameOutside(s3, s2, p + 1, hi) && multiset(s3) == multiset(s2) && SortedRange(s3, p + 1, hi)
    ensures SortedRange(s3, lo, hi) && multiset(s3) == multiset(s0) && SameOutside(s3, s0, lo, hi)
  {
    assert LeqAcross(s1, lo, p, hi);
    RangePermutation(s1, s2, lo, p);
    assert s3[lo..p] == s2[lo..p];
    assert s2[p..hi] == s1[p..hi];
    RangePermutation(s2, s3, p + 1, hi);
    assert SameOutside(s3, s2, p, hi);
    RangePermutation(s2, s3, p, hi);
    LeqAcrossPermuted(s1, s3, lo, p, hi);
    PivotThenSorted(s1, s2, s3, p, hi);
    JoinRanges(s3, lo, p, hi);
  }

  /** The pivot cell followed by the sorted permutation of the values after it
      (none of them below the pivot) is a sorted range. */
  lemma PivotThenSorted(s1: seq<int>, s2: seq<int>, s3: seq<int>, p: int, hi: int)
    requires 0 <= p < hi <= |s1| == |s2| == |s3|
    requires forall k :: p < k < hi ==> s1[k] >= s1[p]
    requires s2[p..hi] == s1[p..hi]
    requires SameOutside(s3, s2, p + 1, hi) && multiset(s3[p + 1..hi]) == multiset(s2[p + 1..hi])
    requires SortedRange(s3, p + 1, hi)
    ensures SortedRange(s3, p, hi)
  {
    assert s2[p + 1..hi] == s1[p + 1..hi] by {
      assert s2[p + 1..hi] == s2[p..hi][1..];
    }
    forall q | p < q < hi
      ensures s3[p] <= s3[q]
    {
      assert s3[q] in multiset(s1[p + 1..hi]) by {
        assert s3[q] == s3[p + 1..hi][q - p - 1];
      }
      var r :| p + 1 <= r < hi && s1[r] == s3[q] by {
        assert s3[q] in s1[p + 1..hi];
      }
      assert s3[p] == s2[p] == s1[p];
    }
  }

  /** `partition`: with the pivot `a[high]`, moves every value below it to the
      front of the range and returns the pivot's final index `i`: `a[i]` is the
      old `a[high]`, values before `i` are below it and values after `i` are not. */
  method Partition(a: array<int>, low: int, high: int) returns (i: int)
    requires 0 <= low < high < a.Length
    modifies a
    ensures low <= i <= high && a[i] == old(a[high])
    ensures forall k :: low <= k < i ==> a[k] < a[i]
    ensures forall k :: i < k <= high ==> a[k] >= a[i]
    ensures multiset(a[..]) == multiset(old(a[..]))
    ensures SameOutside(a[..], old(a[..]), low, high + 1)
  {
    var pivot := a[high];
    i := low;
    for j := low to high
      invariant Dividing(a[..], old(a[..]), low, high, pivot, i, j)
    {
      if a[j] < pivot {
        ghost var before := a[..];
        Swap(a, i, j);
        DividingStep(before, a[..], old(a[..]), low, high, pivot, i, j);
        i := i + 1;
      }
    }
    ghost var before := a[..];
    Swap(a, i, high);
    DividingDone(before, a[..], old(a[..]), low, high, pivot, i);
  }

  /** The state of the partition loop before index `j`: `a[low..i)` is below
      the pivot, `a[i..j)` is not, and the pivot still sits at `high`. */
  ghost predicate Dividing(s: seq<int>, orig: seq<int>, low: int, high: int, pivot: int, i: int, j: int)
  {
    0 <= low <= i <= j <= high < |s| && s[high] == pivot
    && (forall k :: low <= k < i ==> s[k] < pivot)
    && (forall k :: i <= k < j ==> s[k] >= pivot)
    && multiset(s) == multiset(orig) && SameOutside(s, orig, low, high + 1)
  }

  /** Swapping a value below the pivot to the front of the range grows the
      front part. */
  lemma DividingStep(before: seq<int>, after: seq<int>, orig: seq<int>, low: int, high: int, pivot: int, i: int, j: int)
    requires Dividing(before, orig, low, high, pivot, i, j) && j < high && before[j] < pivot
    requires after == before[i := before[j]][j := before[i]] && multiset(after) == multiset(before)
    ensures Dividing(after, orig, low, high, pivot, i + 1, j + 1)
  {
  }

  /** The final swap puts the pivot between the two parts. */
  lemma DividingDone(before: seq<int>, after: seq<int>, orig: seq<int>, low: int, high: int, pivot: int, i: int)
    requires Dividing(before, orig, low, high, pivot, i, high) && orig[high] == pivot
    requires after == before[i := before[high]][high := before[i]] && multiset(after) == multiset(before)
    ensures low <= i <= high && after[i] == orig[high]
    ensures forall k :: low <= k < i ==> after[k] < after[i]
    ensures forall k :: i < k <= high ==> after[k] >= after[i]
    ensures multiset(after) == multiset(orig) && SameOutside(after, orig, low, high + 1)
  {
  }
}
