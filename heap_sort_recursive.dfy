/** Heap sort whose sift-down swaps the cell with its larger child and recurses. */
module HeapSortRecursive {
  import opened Sorting
  import opened Heap

  /** Sorts `a` in place: build a max-heap, then repeatedly move its root behind
      the shrinking heap. */
  method Sort(a: array<int>)
    modifies a
    ensures Sorted(a[..]) && multiset(a[..]) == multiset(old(a[..]))
  {
    var n := a.Length;
    BuildHeap(a, n);
    var i := n - 1;
    while i > 0
      invariant Extracting(a[..], old(a[..]), i)
    {
      ghost var before := a[..];
      var root := a[0];
      a[0] := a[i];
      a[i] := root;
      ghost var swapped := a[..];
      SwapRootStep(before, swapped, i);
      Heapify(a, 0, 0, i);
      assert forall k :: 0 <= k < a.Length && !(0 <= k < i) ==> a[k] == swapped[k];
      ExtractStep(before, swapped, a[..], old(a[..]), i);
      i := i - 1;
    }
    SortedJoin(a[..], i + 1);
  }

  /** `buildHeap`: heapifies every inner node from `size / 2 - 1` down to the
      root, so `a[0..size)` becomes a max-heap holding the same values. */
  method BuildHeap(a: array<int>, size: int)
    requires 0 <= size <= a.Length
    modifies a
    ensures HeapAbove(a[..], 0, size)
    ensures multiset(a[..]) == multiset(old(a[..]))
    ensures forall k :: size <= k < a.Length ==> a[k] == old(a[k])
  {
    LeavesAreHeaps(a[..], size);
    var i := size / 2 - 1;
    while i >= 0
      invariant -1 <= i < size / 2
      invariant HeapAbove(a[..], i + 1, size)
      invariant multiset(a[..]) == multiset(old(a[..]))
      invariant forall k :: size <= k < a.Length ==> a[k] == old(a[k])
    {
      StartAlmostHeap(a[..], i, size);
      ghost var s := a[..];
      Heapify(a, i, i, size);
      assert forall k :: size <= k < a.Length ==> a[k] == s[k];
      i := i - 1;
    }
  }

  /** `heapify(array, i, size)`: if the larger child of `i` lies below `size`
      and exceeds `a[i]`, the two are swapped and the child's subtree is
      heapified. Given a heap from `lo` on that fails only at `i`, the result is
      a heap from `lo` on; the values are permuted and only cells in
      `[i..size)` change. The index grows on every call, which bounds the
      recursion. */
  method Heapify(a: array<int>, lo: int, i: int, size: int)
    requires 0 <= lo <= i < size <= a.Length && AlmostHeap(a[..], lo, i, size)
    modifies a
    ensures HeapAbove(a[..], lo, size)
    ensures multiset(a[..]) == multiset(old(a[..]))
    ensures SameOutside(a[..], old(a[..]), i, size)
    decreases size - i
  {
    ghost var before := a[..];
    var examined := a[i];
    var largestChildIndex := GetLargestChildIndex(a, i, size);
    if largestChildIndex < size && examined < a[largestChildIndex] {
      SiftStep(before, lo, i, largestChildIndex, size);
      a[i], a[largestChildIndex] := a[largestChildIndex], examined;
      ghost var swapped := a[..];
      Heapify(a, lo, largestChildIndex, size);
      FrameAfterSwap(before, swapped, a[..], i, largestChildIndex, size);
    } else {
      AlmostHeapDone(before, lo, i, size);
    }
  }

  /** A swap of cells `i < c` followed by changes in `[c..size)` permutes the
      array and changes only cells in `[i..size)`. */
  lemma FrameAfterSwap(before: seq<int>, swapped: seq<int>, after: seq<int>, i: int, c: int, size: int)
    requires 0 <= i < c < size <= |before| == |swapped| == |after|
    requires swapped == before[i := before[c]][c := before[i]]
    requires multiset(after) == multiset(swapped)
    requires SameOutside(after, swapped, c, size)
    ensures multiset(after) == multiset(before)
    ensures SameOutside(after, before, i, size)
  {
  }
}
