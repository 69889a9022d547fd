/** Insertion sort: each element is dropped into the sorted prefix before it. */
module InsertionSort {
  import opened Sorting

  /** Sorts `a` in place; at the top of step `i` the prefix `a[0..i)` is sorted. */
  method InsertionSort(a: array<int>)
    modifies a
    ensures Sorted(a[..]) && multiset(a[..]) == multiset(old(a[..]))
  {
    var n := a.Length;
    var i := 1;
    while i < n
      invariant 1 <= i || n == 0
      invariant i <= n || n == 0
      invariant SortedRange(a[..], 0, i)
      invariant multiset(a[..]) == multiset(old(a[..]))
    {
      Insert(a, i);
      i := i + 1;
    }
  }

  /** `s` with its element `s[i]` moved to position `j <= i`. */
  function MoveBack(s: seq<int>, i: int, j: int): (r: seq<int>)
    requires 0 <= j <= i < |s|
    ensures |r| == |s|
  {
    s[..j] + [s[i]] + s[j..i] + s[i + 1..]
  }

  /** The cells of `MoveBack(s, i, j)`. */
  lemma MoveBackCells(s: seq<int>, i: int, j: int)
    requires 0 <= j <= i < |s|
    ensures forall k :: 0 <= k < j ==> MoveBack(s, i, j)[k] == s[k]
    ensures MoveBack(s, i, j)[j] == s[i]
    ensures forall k :: j < k <= i ==> MoveBack(s, i, j)[k] == s[k - 1]
    ensures forall k :: i < k < |s| ==> MoveBack(s, i, j)[k] == s[k]
  {
  }

  /** Moving an element keeps every element. */
  lemma MoveBackPermutation(s: seq<int>, i: int, j: int)
    requires 0 <= j <= i < |s|
    ensures multiset(MoveBack(s, i, j)) == multiset(s)
  {
    assert s == s[..j] + s[j..i] + [s[i]] + s[i + 1..];
  }

  /** Moving `s[i]` just after the last element of the sorted `s[0..i)` that is
      not greater than it leaves `s[0..i]` sorted. */
  lemma MoveBackSorted(s: seq<int>, i: int, j: int)
    requires 0 <= j <= i < |s| && SortedRange(s, 0, i)
    requires j > 0 ==> s[j - 1] <= s[i]
    requires forall k :: j <= k < i ==> s[k] > s[i]
    ensures SortedRange(MoveBack(s, i, j), 0, i + 1)
  {
    var r := MoveBack(s, i, j);
    forall p, q | 0 <= p < q <= i
      ensures r[p] <= r[q]
    {
      if q < j {
        assert r[p] == s[p] && r[q] == s[q];
      } else if q == j {
        assert r[p] == s[p] && r[q] == s[i];
        assert s[p] <= s[j - 1];
      } else if p < j {
        assert r[p] == s[p] && r[q] == s[q - 1];
      } else if p == j {
        assert r[p] == s[i] && r[q] == s[q - 1];
      } else {
        assert r[p] == s[p - 1] && r[q] == s[q - 1];
      }
    }
  }

  /** Shifts the elements of the sorted `a[0..i)` that are greater than `a[i]`
      one cell right and drops `a[i]` into the gap: `a[0..i]` becomes sorted, a
      permutation of what it was, and nothing beyond `i` moves. */
  method Insert(a: array<int>, i: int)
    requires 0 < i < a.Length && SortedRange(a[..], 0, i)
    modifies a
    ensures SortedRange(a[..], 0, i + 1)
    ensures multiset(a[..]) == multiset(old(a[..]))
    ensures forall k :: i < k < a.Length ==> a[k] == old(a[k])
  {
    ghost var s := a[..];
    var temp := a[i];
    var j := ShiftGreater(a, i, temp);
    a[j] := temp;
    MovedBack(s, a[..], i, j);
  }

  /** The cells `Insert` leaves spell out `MoveBack(s, i, j)`, which is
      sorted up to `i` and a permutation of `s`. */
  lemma MovedBack(s: seq<int>, t: seq<int>, i: int, j: int)
    requires 0 <= j <= i < |s| == |t| && SortedRange(s, 0, i)
    requires j > 0 ==> s[j - 1] <= s[i]
    requires forall k :: j <= k < i ==> s[k] > s[i]
    requires forall k :: 0 <= k < j ==> t[k] == s[k]
    requires t[j] == s[i]
    requires forall k :: j < k <= i ==> t[k] == s[k - 1]
    requires forall k :: i < k < |s| ==> t[k] == s[k]
    ensures SortedRange(t, 0, i + 1) && multiset(t) == multiset(s)
  {
    MoveBackCells(s, i, j);
    assert t == MoveBack(s, i, j);
    MoveBackPermutation(s, i, j);
    MoveBackSorted(s, i, j);
  }

  /** The inner `while` loop: moves each element of `a[0..i)` greater than
      `temp`, scanning down from `i - 1`, one cell right, and returns the gap
      `j` it leaves. */
  method ShiftGreater(a: array<int>, i: int, temp: int) returns (j: int)
    requires 0 < i < a.Length
    modifies a
    ensures 0 <= j <= i
    ensures j > 0 ==> old(a[j - 1]) <= temp
    ensures forall k :: j <= k < i ==> old(a[k]) > temp
    ensures forall k :: 0 <= k < j ==> a[k] == old(a[k])
    ensures forall k :: j < k <= i ==> a[k] == old(a[k - 1])
    ensures forall k :: i < k < a.Length ==> a[k] == old(a[k])
  {
    j := i;
    while j > 0 && a[j - 1] > temp
      invariant 0 <= j <= i
      invariant forall k :: 0 <= k < j ==> a[k] == old(a[k])
      invariant forall k :: j < k <= i ==> a[k] == old(a[k - 1])
      invariant forall k :: i < k < a.Length ==> a[k] == old(a[k])
      invariant forall k :: j <= k < i ==> old(a[k]) > temp
    {
      a[j] := a[j - 1];
      j := j - 1;
    }
  }
}
