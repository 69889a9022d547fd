/** Selection sort: each outer step swaps the minimum of the unsorted suffix
    into place. */
module SelectionSort {
  import opened Sorting

  /** Sorts `a` in place with exactly one swap per outer step. */
  method SelectionSort(a: array<int>)
    modifies a
    ensures Sorted(a[..]) && multiset(a[..]) == multiset(old(a[..]))
  {
    var n := a.Length;
    var i := 0;
    while i < n - 1
      invariant 0 <= i <= n
      invariant SortedRange(a[..], 0, i) && SplitAt(a[..], i)
      invariant multiset(a[..]) == multiset(old(a[..]))
    {
      var minIndex := MinIndexFrom(a, i);
      a[minIndex], a[i] := a[i], a[minIndex];
      i := i + 1;
    }
    if n > 0 {
      SortedJoin(a[..], i);
    }
  }

  /** The inner loop: the index of the first minimum of `a[i..n)`. */
  method MinIndexFrom(a: array<int>, i: int) returns (minIndex: int)
    requires 0 <= i < a.Length
    ensures i <= minIndex < a.Length
    ensures forall k :: i <= k < a.Length ==> a[minIndex] <= a[k]
    ensures forall k :: i <= k < minIndex ==> a[minIndex] < a[k]
  {
    minIndex := i;
    for j := i + 1 to a.Length
      invariant i <= minIndex < j
      invariant forall k :: i <= k < j ==> a[minIndex] <= a[k]
      invariant forall k :: i <= k < minIndex ==> a[minIndex] < a[k]
    {
      if a[j] < a[minIndex] {
        minIndex := j;
      }
    }
  }
}
