/** Heap sort whose sift-down is a loop that carries the examined value down a
    hole instead of swapping. */
module HeapSortIterative {
  import opened Sorting
  import opened Heap

  /** Sorts `a` in place: build a max-heap, then repeatedly move its root behind
      the shrinking heap. */
  method Sort(a: array<int>)
    modifies a
    ensures Sorted(a[..]) && multiset(a[..]) == multiset(old(a[..]))
  {
    var n := a.Length;
    BuildHeap(a, n);
    var i := n - 1;
    while i > 0
      invariant Extracting(a[..], old(a[..]), i)
    {
      ghost var before := a[..];
      var root := a[0];
      a[0] := a[i];
      a[i] := root;
      ghost var swapped := a[..];
      Heapify(a, 0, i);
      ExtractStep(before, swapped, a[..], old(a[..]), i);
      i := i - 1;
    }
    SortedJoin(a[..], i + 1);
  }

  /** `buildHeap`: heapifies every inner node from `size / 2 - 1` down to the
      root, so `a[0..size)` becomes a max-heap holding the same values. */
  method BuildHeap(a: array<int>, size: int)
    requires 0 <= size <= a.Length
    modifies a
    ensures HeapAbove(a[..], 0, size)
    ensures multiset(a[..]) == multiset(old(a[..]))
    ensures forall k :: size <= k < a.Length ==> a[k] == old(a[k])
  {
    LeavesAreHeaps(a[..], size);
    var i := size / 2 - 1;
    while i >= 0
      invariant -1 <= i < size / 2
      invariant HeapAbove(a[..], i + 1, size)
      invariant multiset(a[..]) == multiset(old(a[..]))
      invariant forall k :: size <= k < a.Length ==> a[k] == old(a[k])
    {
      StartAlmostHeap(a[..], i, size);
      Heapify(a, i, size);
      i := i - 1;
    }
  }

  /** Sift-down of `a[i]` within `a[0..size)`. Given a heap at `i` and above
      except at `i` itself, it restores the heap, permutes the values and
      writes only cells in `[i..size)`. */
  method Heapify(a: array<int>, i: int, size: int)
    requires 0 <= i < size <= a.Length && AlmostHeap(a[..], i, i, size)
    modifies a
    ensures HeapAbove(a[..], i, size)
    ensures multiset(a[..]) == multiset(old(a[..]))
    ensures forall k :: 0 <= k < a.Length && !(i <= k < size) ==> a[k] == old(a[k])
  {
    var examined := a[i];
    ghost var orig := a[..];
    var h, s := SiftHole(a, i, size, examined);
    a[h] := examined;
    assert a[..] == s;
    assert forall k :: 0 <= k < a.Length && !(i <= k < size) ==> s[k] == orig[k];
  }

  /** The state of the sift-down loop: `cur` is the array, `s` the array with
      `examined` put into the hole `h`, `orig` the array on entry. */
  ghost predicate Sifting(cur: seq<int>, s: seq<int>, orig: seq<int>, i: int, h: int, size: int, examined: int)
  {
    0 <= i <= h < size <= |cur| == |s| == |orig| && s[h] == examined
    && (forall k :: 0 <= k < |cur| && k != h ==> cur[k] == s[k])
    && AlmostHeap(s, i, h, size)
    && multiset(s) == multiset(orig)
    && (forall k :: 0 <= k < |s| && !(i <= k < size) ==> s[k] == orig[k])
  }

  /** One iteration of the sift-down loop preserves its state. */
  lemma SiftingStep(cur: seq<int>, s: seq<int>, orig: seq<int>, i: int, h: int, c: int, size: int, examined: int)
    requires Sifting(cur, s, orig, i, h, size, examined)
    requires h < c < size && Parent(c) == h
    requires forall d :: 0 < d < size && Parent(d) == h ==> cur[c] >= cur[d]
    requires examined < cur[c]
    ensures Sifting(cur[h := cur[c]], s[h := s[c]][c := s[h]], orig, i, c, size, examined)
  {
    SiftStep(s, i, h, c, size);
  }

  /** The `while` loop of `heapify`: walks the hole left by `examined` down
      from `i`, pulling up the larger child, until `examined` dominates the
      hole's children. `s` is the array with `examined` put into the hole; it
      is a heap from `i` on and a permutation of the array on entry. */
  method SiftHole(a: array<int>, i: int, size: int, examined: int) returns (h: int, ghost s: seq<int>)
    requires 0 <= i < size <= a.Length && AlmostHeap(a[..], i, i, size) && a[i] == examined
    modifies a
    ensures Sifting(a[..], s, old(a[..]), i, h, size, examined)
    ensures HeapAbove(s, i, size)
  {
    h := i;
    s := a[..];
    while h < size / 2
      invariant Sifting(a[..], s, old(a[..]), i, h, size, examined)
    {
      var c := GetLargestChildIndex(a, h, size);
      if examined >= a[c] {
        break;
      }
      SiftingStep(a[..], s, old(a[..]), i, h, c, size, examined);
      s := s[h := s[c]][c := s[h]];
      a[h] := a[c];
      h := c;
    }
    AlmostHeapDone(s, i, h, size);
  }
}
