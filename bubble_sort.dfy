/** Bubble sort with the early exit on a pass that swaps nothing. */
module BubbleSort {
  import opened Sorting

  /** Sorts `a` in place. A pass that swaps nothing ends the sort early. */
  method BubbleSort(a: array<int>)
    modifies a
    ensures Sorted(a[..]) && multiset(a[..]) == multiset(old(a[..]))
  {
    var n := a.Length;
    var i := 0;
    while i < n - 1
      invariant 0 <= i <= n
      invariant SortedRange(a[..], n - i, n) && SplitAt(a[..], n - i)
      invariant multiset(a[..]) == multiset(old(a[..]))
    {
      ghost var before := a[..];
      var swapped := Pass(a, n - i);
      if !swapped {
        SortedJoin(a[..], n - i);
        break;
      }
      SplitAtPermutedPrefix(before, a[..], n - i);
      assert SortedRange(a[..], n - i - 1, n) && SplitAt(a[..], n - i - 1);
      i := i + 1;
    }
    if i >= n - 1 {
      SortedJoin(a[..], n - i);
    }
  }

  /** The inner loop over `a[0..bound)`: each adjacent pair out of order is
      swapped, which carries the largest value to `a[bound-1]`. When nothing was
      swapped the range was already sorted and the array is unchanged. */
  method Pass(a: array<int>, bound: int) returns (swapped: bool)
    requires 1 <= bound <= a.Length
    modifies a
    ensures multiset(a[..]) == multiset(old(a[..]))
    ensures forall k :: bound <= k < a.Length ==> a[k] == old(a[k])
    ensures forall k :: 0 <= k < bound ==> a[k] <= a[bound - 1]
    ensures multiset(a[..bound]) == multiset(old(a[..bound]))
    ensures !swapped ==> a[..] == old(a[..]) && SortedRange(a[..], 0, bound)
  {
    swapped := false;
    var j := 0;
    while j < bound - 1
      invariant 0 <= j <= bound - 1
      invariant forall k :: 0 <= k <= j ==> a[k] <= a[j]
      invariant !swapped ==> a[..] == old(a[..]) && SortedRange(a[..], 0, j + 1)
      invariant forall k :: bound <= k < a.Length ==> a[k] == old(a[k])
      invariant multiset(a[..]) == multiset(old(a[..]))
    {
      if a[j] > a[j + 1] {
        a[j], a[j + 1] := a[j + 1], a[j];
        swapped := true;
      }
      j := j + 1;
    }
    PrefixPermutation(old(a[..]), a[..], bound);
  }
}
