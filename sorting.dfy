/** What every sort of the project promises: an ascending result that is a
    permutation of the input. */
module Sorting {

  /** Ascending (non-decreasing) order. */
  predicate Sorted(s: seq<int>)
  {
    forall i, j :: 0 <= i < j < |s| ==> s[i] <= s[j]
  }

  /** A sorted sequence determines its first element: the minimum of its bag. */
  lemma SortedHeadIsMin(s: seq<int>)
    requires Sorted(s) && s != []
    ensures forall x :: x in multiset(s) ==> s[0] <= x
  {
    forall x | x in multiset(s) ensures s[0] <= x {
      assert x in s;
    }
  }

  /** Two sorted permutations of the same values are equal, so every correct sort
      produces the same array. */
  lemma {:induction false} SortedPermutationUnique(a: seq<int>, b: seq<int>)
    requires Sorted(a) && Sorted(b) && multiset(a) == multiset(b)
    ensures a == b
    decreases |a|
  {
    if a != [] {
      SortedHeadsAgree(a, b);
      TailBag(a);
      TailBag(b);
      SortedPermutationUnique(a[1..], b[1..]);
      assert a == [a[0]] + a[1..] && b == [b[0]] + b[1..];
    }
  }

  /** Two sorted permutations of the same values start with the same
      value, their minimum. */
  lemma SortedHeadsAgree(a: seq<int>, b: seq<int>)
    requires Sorted(a) && Sorted(b) && multiset(a) == multiset(b) && a != []
    ensures b != [] && a[0] == b[0]
  {
    assert |b| == |multiset(b)| == |a|;
    SortedHeadIsMin(a);
    SortedHeadIsMin(b);
    assert a[0] in multiset(b) by { assert a[0] in a; }
    assert b[0] in multiset(a) by { assert b[0] in b; }
  }

  /** The bag of a tail is the bag without its head. */
  lemma TailBag(s: seq<int>)
    requires s != []
    ensures multiset(s[1..]) == multiset(s) - multiset{s[0]}
  {
    assert s == [s[0]] + s[1..];
  }

  /** `s[lo..hi)` is in ascending order. */
  ghost predicate SortedRange(s: seq<int>, lo: int, hi: int)
  {
    forall i, j :: lo <= i < j < hi && 0 <= i && j < |s| ==> s[i] <= s[j]
  }

  /** No element before position `k` exceeds an element from `k` on. */
  ghost predicate SplitAt(s: seq<int>, k: int)
  {
    forall i, j :: 0 <= i < k <= j < |s| ==> s[i] <= s[j]
  }

  /** A sorted prefix, a sorted suffix and a split between them make the whole
      sequence sorted. */
  lemma SortedJoin(s: seq<int>, k: int)
    requires 0 <= k <= |s|
    requires SortedRange(s, 0, k) && SortedRange(s, k, |s|) && SplitAt(s, k)
    ensures Sorted(s)
  {
  }

  /** Permuting the cells before a split point and keeping the rest keeps the
      split and the order of the rest. */
  lemma SplitAtPermutedPrefix(before: seq<int>, after: seq<int>, k: int)
    requires 0 <= k <= |before| == |after|
    requires SplitAt(before, k) && SortedRange(before, k, |before|)
    requires multiset(after[..k]) == multiset(before[..k])
    requires forall j :: k <= j < |after| ==> after[j] == before[j]
    ensures SplitAt(after, k) && SortedRange(after, k, |after|)
  {
    forall p, q | 0 <= p < k <= q < |after|
      ensures after[p] <= after[q]
    {
      assert after[p] in multiset(before[..k]) by {
        assert after[p] == after[..k][p];
      }
      var r :| 0 <= r < k && before[r] == after[p] by {
        assert after[p] in before[..k];
      }
      assert before[r] <= before[q];
    }
  }

  /** A permutation that keeps every cell from `k` on permutes `s[..k]`. */
  lemma PrefixPermutation(before: seq<int>, after: seq<int>, k: int)
    requires 0 <= k <= |before| == |after|
    requires multiset(after) == multiset(before)
    requires forall j :: k <= j < |after| ==> after[j] == before[j]
    ensures multiset(after[..k]) == multiset(before[..k])
  {
    assert before == before[..k] + before[k..];
    assert after == after[..k] + after[k..];
    assert after[k..] == before[k..];
    assert multiset(before) == multiset(before[..k]) + multiset(before[k..]);
    assert multiset(after) == multiset(after[..k]) + multiset(after[k..]);
    assert multiset(after[..k]) == multiset(after) - multiset(after[k..]);
    assert multiset(before[..k]) == multiset(before) - multiset(before[k..]);
  }

  /** `s` and `t` agree on every cell outside `[lo..hi)`. */
  ghost predicate SameOutside(s: seq<int>, t: seq<int>, lo: int, hi: int)
  {
    |s| == |t| && forall k :: 0 <= k < |s| && !(lo <= k < hi) ==> s[k] == t[k]
  }

  /** No element of `s[lo..mid)` exceeds an element of `s[mid..hi)`. */
  ghost predicate LeqAcross(s: seq<int>, lo: int, mid: int, hi: int)
  {
    forall p, q :: lo <= p < mid <= q < hi && 0 <= p && q < |s| ==> s[p] <= s[q]
  }

  /** Two adjacent sorted ranges with nothing out of order across them form one
      sorted range. */
  lemma JoinRanges(s: seq<int>, lo: int, mid: int, hi: int)
    requires 0 <= lo <= mid <= hi <= |s|
    requires SortedRange(s, lo, mid) && SortedRange(s, mid, hi) && LeqAcross(s, lo, mid, hi)
    ensures SortedRange(s, lo, hi)
  {
  }

  /** A permutation that keeps every cell outside `[lo..hi)` permutes `[lo..hi)`. */
  lemma RangePermutation(before: seq<int>, after: seq<int>, lo: int, hi: int)
    requires 0 <= lo <= hi <= |before|
    requires SameOutside(after, before, lo, hi) && multiset(after) == multiset(before)
    ensures multiset(after[lo..hi]) == multiset(before[lo..hi])
  {
    PrefixPermutation(before, after, hi);
    assert before[..hi] == before[..lo] + before[lo..hi];
    assert after[..hi] == after[..lo] + after[lo..hi];
    assert after[..lo] == before[..lo];
    assert multiset(before[..hi]) == multiset(before[..lo]) + multiset(before[lo..hi]);
    assert multiset(after[..hi]) == multiset(after[..lo]) + multiset(after[lo..hi]);
    assert multiset(after[lo..hi]) == multiset(after[..hi]) - multiset(after[..lo]);
    assert multiset(before[lo..hi]) == multiset(before[..hi]) - multiset(before[..lo]);
  }

  /** Permuting each side of a split keeps the split. */
  lemma LeqAcrossPermuted(before: seq<int>, after: seq<int>, lo: int, mid: int, hi: int)
    requires 0 <= lo <= mid <= hi <= |before| == |after|
    requires LeqAcross(before, lo, mid, hi)
    requires multiset(after[lo..mid]) == multiset(before[lo..mid])
    requires multiset(after[mid..hi]) == multiset(before[mid..hi])
    ensures LeqAcross(after, lo, mid, hi)
  {
    forall p, q | lo <= p < mid <= q < hi
      ensures after[p] <= after[q]
    {
      assert after[p] in multiset(before[lo..mid]) by {
        assert after[p] == after[lo..mid][p - lo];
      }
      assert after[q] in multiset(before[mid..hi]) by {
        assert after[q] == after[mid..hi][q - mid];
      }
      var p' :| lo <= p' < mid && before[p'] == after[p] by {
        assert after[p] in before[lo..mid];
      }
      var q' :| mid <= q' < hi && before[q'] == after[q] by {
        assert after[q] in before[mid..hi];
      }
    }
  }

  /** `swap`: exchanges the two given cells and nothing else. */
  method Swap(a: array<int>, index1: int, index2: int)
    requires 0 <= index1 < a.Length && 0 <= index2 < a.Length
    modifies a
    ensures a[..] == old(a[..])[index1 := old(a[index2])][index2 := old(a[index1])]
    ensures multiset(a[..]) == multiset(old(a[..]))
  {
    var temp := a[index1];
    a[index1] := a[index2];
    a[index2] := temp;
  }
}
