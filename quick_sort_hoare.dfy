/** Quicksort with Hoare's partition around the first element of the range. */
module QuickSortHoare {
  import opened Sorting

  /** `sort(array, low, high)`: sorts `a[low..high]` (inclusive bounds) and
      leaves every other cell alone; a range of at most one cell is untouched. */
  method Sort(a: array<int>, low: int, high: int)
    requires low < high ==> 0 <= low && high < a.Length
    modifies a
    ensures SortedRange(a[..], low, high + 1)
    ensures multiset(a[..]) == multiset(old(a[..]))
    ensures SameOutside(a[..], old(a[..]), low, high + 1)
    ensures low >= high ==> a[..] == old(a[..])
    decreases high - low
  {
    if low < high {
      ghost var s0 := a[..];
      var partitionIndex := Partition(a, low, high);
      ghost var s1 := a[..];
      Sort(a, low, partitionIndex);
      ghost var s2 := a[..];
      Sort(a, partitionIndex + 1, high);
      CombineParts(s0, s1, s2, a[..], low, partitionIndex + 1, high + 1);
    }
  }

  /** The reasoning of `sort` after its three calls: `s0` on entry, `s1` after
      partitioning `[lo..hi)` at `mid`, `s2` after sorting `[lo..mid)`, `s3`
      after sorting `[mid..hi)`. */
  lemma CombineParts(s0: seq<int>, s1: seq<int>, s2: seq<int>, s3: seq<int>, lo: int, mid: int, hi: int)
    requires 0 <= lo <= mid <= hi <= |s0|
    requires SameOutside(s1, s0, lo, hi) && multiset(s1) == multiset(s0) && LeqAcross(s1, lo, mid, hi)
    requires SameOutside(s2, s1, lo, mid) && multiset(s2) == multiset(s1) && SortedRange(s2, lo, mid)
    requires SameOutside(s3, s2, mid, hi) && multiset(s3) == multiset(s2) && SortedRange(s3, mid, hi)
    ensures SortedRange(s3, lo, hi) && multiset(s3) == multiset(s0) && SameOutside(s3, s0, lo, hi)
  {
    RangePermutation(s1, s2, lo, mid);
    RangePermutation(s2, s3, mid, hi);
    assert s2[mid..hi] == s1[mid..hi];
    assert s3[lo..mid] == s2[lo..mid];
    LeqAcrossPermuted(s1, s3, lo, mid, hi);
    JoinRanges(s3, lo, mid, hi);
  }

  /** The state at the top of the partition loop: `a[low..i]` holds no value
      above the pivot, `a[j..high]` none below it, and the sentinels `si > i`
      and `sj < j` stop the next two scans inside the range. On the first round
      `j == high + 1` and the pivot still sits at `low`. */
  ghost predicate Scanning(s: seq<int>, orig: seq<int>, low: int, high: int, pivot: int,
                           i: int, j: int, si: int, sj: int)
  {
    0 <= low < high < |s| && low - 1 <= i < si <= high && low <= sj < j <= high + 1
    && s[si] >= pivot && s[sj] <= pivot
    && (forall k :: low <= k <= i ==> s[k] <= pivot)
    && (forall k :: j <= k <= high ==> s[k] >= pivot)
    && (j == high + 1 ==> i == low - 1 && s[low] == pivot)
    && multiset(s) == multiset(orig) && SameOutside(s, orig, low, high + 1)
  }

  /** `partition`: with the pivot `a[low]`, returns `j` with `low <= j < high`
      such that no value of `a[low..j]` exceeds a value of `a[j+1..high]`; the
      range is permuted by swaps and nothing outside it changes. */
  method Partition(a: array<int>, low: int, high: int) returns (j: int)
    requires 0 <= low < high < a.Length
    modifies a
    ensures low <= j < high
    ensures LeqAcross(a[..], low, j + 1, high + 1)
    ensures multiset(a[..]) == multiset(old(a[..]))
    ensures SameOutside(a[..], old(a[..]), low, high + 1)
  {
    var pivot := a[low];
    var i := low - 1;
    j := high + 1;
    ghost var si, sj := low, low;
    while true
      invariant Scanning(a[..], old(a[..]), low, high, pivot, i, j, si, sj)
      decreases j
    {
      var i' := ScanRight(a, i, pivot, si);
      var j' := ScanLeft(a, j, pivot, sj);
      if i' >= j' {
        PartitionDone(a[..], old(a[..]), low, high, pivot, i, j, si, sj, i', j');
        return j';
      }
      ghost var before := a[..];
      Swap(a, i', j');
      SwapStep(before, a[..], old(a[..]), low, high, pivot, i, j, si, sj, i', j');
      i, j, si, sj := i', j', j', i';
    }
  }

  /** The first `do`-`while` scan: the first index after `i` whose value is not
      below the pivot; the sentinel `si` bounds it. */
  method ScanRight(a: array<int>, i: int, pivot: int, ghost si: int) returns (r: int)
    requires -1 <= i < si < a.Length && a[si] >= pivot
    ensures i < r <= si && a[r] >= pivot
    ensures forall k :: i < k < r ==> a[k] < pivot
  {
    r := i + 1;
    while a[r] < pivot
      invariant i < r <= si
      invariant forall k :: i < k < r ==> a[k] < pivot
      decreases si - r
    {
      r := r + 1;
    }
  }

  /** The second `do`-`while` scan: the last index before `j` whose value is not
      above the pivot; the sentinel `sj` bounds it. */
  method ScanLeft(a: array<int>, j: int, pivot: int, ghost sj: int) returns (r: int)
    requires 0 <= sj < j <= a.Length && a[sj] <= pivot
    ensures sj <= r < j && a[r] <= pivot
    ensures forall k :: r < k < j ==> a[k] > pivot
  {
    r := j - 1;
    while a[r] > pivot
      invariant sj <= r < j
      invariant forall k :: r < k < j ==> a[k] > pivot
      decreases r - sj
    {
      r := r - 1;
    }
  }

  /** When the scans cross, `j'` splits the range. */
  lemma PartitionDone(s: seq<int>, orig: seq<int>, low: int, high: int, pivot: int,
                      i: int, j: int, si: int, sj: int, i': int, j': int)
    requires Scanning(s, orig, low, high, pivot, i, j, si, sj)
    requires i < i' <= si && s[i'] >= pivot && forall k :: i < k < i' ==> s[k] < pivot
    requires sj <= j' < j && s[j'] <= pivot && forall k :: j' < k < j ==> s[k] > pivot
    requires i' >= j'
    ensures low <= j' < high && LeqAcross(s, low, j' + 1, high + 1)
  {
    if j == high + 1 {
      assert i' == low;
    }
    forall p, q | low <= p < j' + 1 <= q < high + 1
      ensures s[p] <= s[q]
    {
      assert s[p] <= pivot by {
        if p > i && p < i' {
        } else if p == i' {
          assert p == j';
        }
      }
    }
  }

  /** Swapping the two stopped cells re-establishes the loop state with the new
      indices as each other's sentinels. */
  lemma SwapStep(before: seq<int>, after: seq<int>, orig: seq<int>, low: int, high: int, pivot: int,
                 i: int, j: int, si: int, sj: int, i': int, j': int)
    requires Scanning(before, orig, low, high, pivot, i, j, si, sj)
    requires i < i' <= si && before[i'] >= pivot && forall k :: i < k < i' ==> before[k] < pivot
    requires sj <= j' < j && before[j'] <= pivot && forall k :: j' < k < j ==> before[k] > pivot
    requires i' < j'
    requires after == before[i' := before[j']][j' := before[i']]
    requires multiset(after) == multiset(before)
    ensures Scanning(after, orig, low, high, pivot, i', j', j', i')
  {
  }
}
