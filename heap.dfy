/** The array max-heap shared by both heap sorts: the children of cell `i` are
    `2i+1` and `2i+2`. */
module Heap {
  import opened Sorting

  function Parent(c: int): int
    requires c > 0
  {
    (c - 1) / 2
  }

  /** Every parent at index `lo` or above is at least each of its children
      below `size`. `HeapAbove(s, 0, size)` is a max-heap on `s[0..size)`. */
  ghost predicate HeapAbove(s: seq<int>, lo: int, size: int)
    requires size <= |s|
  {
    forall c :: 0 < c < size && lo <= Parent(c) ==> s[Parent(c)] >= s[c]
  }

  /** A heap from `lo` on except that cell `i` may be smaller than its children;
      its parent, if that is at `lo` or above, still dominates those children. */
  ghost predicate AlmostHeap(s: seq<int>, lo: int, i: int, size: int)
    requires size <= |s|
  {
    (forall c :: 0 < c < size && lo <= Parent(c) && Parent(c) != i ==> s[Parent(c)] >= s[c])
    && (0 < i && lo <= Parent(i) ==>
          forall c :: 0 < c < size && Parent(c) == i ==> s[Parent(i)] >= s[c])
  }

  /** The root of a max-heap is its largest value. */
  lemma {:induction false} RootIsMax(s: seq<int>, size: int, k: int)
    requires 0 <= k < size <= |s| && HeapAbove(s, 0, size)
    ensures s[0] >= s[k]
    decreases k
  {
    if k > 0 {
      RootIsMax(s, size, Parent(k));
    }
  }

  /** Cells from `size / 2` on have no children below `size`. */
  lemma LeavesAreHeaps(s: seq<int>, size: int)
    requires 0 <= size <= |s|
    ensures HeapAbove(s, size / 2, size)
  {
  }

  /** Once the cell that broke the heap is at least its children, the heap holds. */
  lemma AlmostHeapDone(s: seq<int>, lo: int, i: int, size: int)
    requires 0 <= lo <= i < size <= |s| && AlmostHeap(s, lo, i, size)
    requires forall c :: 0 < c < size && Parent(c) == i ==> s[i] >= s[c]
    ensures HeapAbove(s, lo, size)
  {
  }

  /** A heap below `lo + 1` is a heap from `lo` except at `lo`. */
  lemma StartAlmostHeap(s: seq<int>, lo: int, size: int)
    requires 0 <= lo && size <= |s| && HeapAbove(s, lo + 1, size)
    ensures AlmostHeap(s, lo, lo, size)
  {
  }

  /** `getLargestChildIndex`: the right child `2i+2` when it lies below `size`
      and holds more than the left child, the left child `2i+1` otherwise. The
      right child is read only when it is below `size`. */
  method GetLargestChildIndex(a: array<int>, index: int, size: int) returns (largest: int)
    requires 0 <= index && 0 <= size <= a.Length
    ensures 2 * index + 2 < size && a[2 * index + 1] < a[2 * index + 2] ==> largest == 2 * index + 2
    ensures !(2 * index + 2 < size && a[2 * index + 1] < a[2 * index + 2]) ==> largest == 2 * index + 1
    ensures largest < size ==> forall c :: 0 < c < size && Parent(c) == index ==> a[largest] >= a[c]
  {
    var leftIndex := 2 * index + 1;
    var rightIndex := leftIndex + 1;
    if rightIndex < size && a[leftIndex] < a[rightIndex] {
      return rightIndex;
    } else {
      return leftIndex;
    }
  }

  /** Exchanging `a[0]` and `a[i]` of a heap on `[0..i]`: the old root, the
      largest value, lands at `i`, and `[0..i)` is a heap except at its root. */
  lemma SwapRootStep(before: seq<int>, after: seq<int>, i: int)
    requires 0 < i < |before| == |after| && HeapAbove(before, 0, i + 1)
    requires after == before[0 := before[i]][i := before[0]]
    ensures AlmostHeap(after, 0, 0, i)
    ensures forall k :: 0 <= k < i ==> after[k] <= after[i]
  {
    forall k | 0 <= k < i
      ensures after[k] <= after[i]
    {
      if k == 0 {
        RootIsMax(before, i + 1, i);
      } else {
        RootIsMax(before, i + 1, k);
      }
    }
  }

  /** Moving the larger child `c` of the offending cell `h` up, and the cell's
      value down to `c`, moves the single violation from `h` to `c`. */
  lemma SiftStep(s: seq<int>, lo: int, h: int, c: int, size: int)
    requires 0 <= lo <= h < c < size <= |s| && Parent(c) == h
    requires AlmostHeap(s, lo, h, size)
    requires forall d :: 0 < d < size && Parent(d) == h ==> s[c] >= s[d]
    requires s[h] < s[c]
    ensures AlmostHeap(s[h := s[c]][c := s[h]], lo, c, size)
    ensures multiset(s[h := s[c]][c := s[h]]) == multiset(s)
  {
    var t := s[h := s[c]][c := s[h]];
    forall d | 0 < d < size && lo <= Parent(d) && Parent(d) != c
      ensures t[Parent(d)] >= t[d]
    {
      if Parent(d) == h {
      } else if 0 < h && Parent(d) == Parent(h) && d == h {
      }
    }
  }

  /** The state of the extraction loop of `sort` at index `i`: `s[0..i]` is a
      max-heap, `s[i+1..)` holds the largest values in ascending order, and `s`
      is a permutation of `orig`. */
  ghost predicate Extracting(s: seq<int>, orig: seq<int>, i: int)
  {
    -1 <= i < |s| == |orig|
    && (i >= 0 ==> HeapAbove(s, 0, i + 1))
    && SortedRange(s, i + 1, |s|) && SplitAt(s, i + 1)
    && multiset(s) == multiset(orig)
  }

  /** Swapping the root behind the heap and sifting the new root down moves the
      boundary of the sorted suffix one cell left. */
  lemma ExtractStep(before: seq<int>, swapped: seq<int>, after: seq<int>, orig: seq<int>, i: int)
    requires 0 < i && Extracting(before, orig, i)
    requires swapped == before[0 := before[i]][i := before[0]]
    requires |after| == |swapped| && HeapAbove(after, 0, i)
    requires multiset(after) == multiset(swapped)
    requires forall k :: 0 <= k < |after| && !(0 <= k < i) ==> after[k] == swapped[k]
    ensures Extracting(after, orig, i - 1)
  {
    SwapRootStep(before, swapped, i);
    assert SplitAt(swapped, i) && SortedRange(swapped, i, |swapped|);
    PrefixPermutation(swapped, after, i);
    SplitAtPermutedPrefix(swapped, after, i);
  }
}
