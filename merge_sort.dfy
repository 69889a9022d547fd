/** Top-down merge sort over an `int` array with one shared auxiliary buffer. */
module MergeSort {
  import opened Sorting

  /** The merge of two runs as `mergeBothParts` performs it: the smaller head
      goes first, and on a tie the head of the right run is taken. */
  function Merge(xs: seq<int>, ys: seq<int>): seq<int>
    decreases |xs| + |ys|
  {
    if xs == [] then ys
    else if ys == [] then xs
    else if xs[0] < ys[0] then [xs[0]] + Merge(xs[1..], ys)
    else [ys[0]] + Merge(xs, ys[1..])
  }

  /** The merge keeps every element of both runs. */
  lemma {:induction false} MergePermutation(xs: seq<int>, ys: seq<int>)
    ensures multiset(Merge(xs, ys)) == multiset(xs) + multiset(ys)
    decreases |xs| + |ys|
  {
    if xs != [] && ys != [] {
      if xs[0] < ys[0] {
        MergePermutation(xs[1..], ys);
        assert xs == [xs[0]] + xs[1..];
      } else {
        MergePermutation(xs, ys[1..]);
        assert ys == [ys[0]] + ys[1..];
      }
    }
  }

  /** Merging two sorted runs gives a sorted run whose first element is one of
      the two heads. */
  lemma {:induction false} MergeSorted(xs: seq<int>, ys: seq<int>)
    requires Sorted(xs) && Sorted(ys)
    ensures Sorted(Merge(xs, ys))
    ensures |Merge(xs, ys)| == |xs| + |ys|
    ensures Merge(xs, ys) != [] ==>
      (xs != [] && Merge(xs, ys)[0] == xs[0]) || (ys != [] && Merge(xs, ys)[0] == ys[0])
    decreases |xs| + |ys|
  {
    if xs != [] && ys != [] {
      if xs[0] < ys[0] {
        MergeSorted(xs[1..], ys);
        var m := Merge(xs[1..], ys);
        assert m != [] ==> xs[0] <= m[0];
        SortedCons(xs[0], m);
      } else {
        MergeSorted(xs, ys[1..]);
        var m := Merge(xs, ys[1..]);
        assert m != [] ==> ys[0] <= m[0];
        SortedCons(ys[0], m);
      }
    }
  }

  lemma SortedCons(x: int, s: seq<int>)
    requires Sorted(s) && (s != [] ==> x <= s[0])
    ensures Sorted([x] + s)
  {
    var t := [x] + s;
    forall i, j | 0 <= i < j < |t| ensures t[i] <= t[j] {
      if i > 0 {
        assert t[i] == s[i - 1] && t[j] == s[j - 1];
      } else {
        assert t[j] == s[j - 1];
        assert s[0] <= s[j - 1];
      }
    }
  }

  /** Sorts `a` in place; a null array or one with at most one element is left
      untouched. */
  method MergeSort(a: array?<int>)
    modifies a
    ensures a != null ==> Sorted(a[..]) && multiset(a[..]) == multiset(old(a[..]))
    ensures a != null && a.Length <= 1 ==> a[..] == old(a[..])
  {
    if a == null || a.Length <= 1 {
      return;
    }
    var aux := new int[a.Length];
    MergeSortRec(a, aux, 0, a.Length - 1);
    assert a[..] == a[0..a.Length];
    assert old(a[..]) == old(a[0..a.Length]);
  }

  /** Sorts `a[start..end]` (inclusive bounds) and leaves every other cell of
      `a` untouched. */
  method MergeSortRec(a: array<int>, aux: array<int>, start: int, end: int)
    requires a != aux && aux.Length == a.Length
    requires 0 <= start && end < a.Length && start <= end + 1
    modifies a, aux
    ensures Sorted(a[start..end + 1])
    ensures multiset(a[start..end + 1]) == multiset(old(a[start..end + 1]))
    ensures forall k :: 0 <= k < a.Length && !(start <= k <= end) ==> a[k] == old(a[k])
    decreases end - start
  {
    if start < end {
      var mid := (start + end) / 2;
      ghost var s0 := a[..];
      MergeSortRec(a, aux, start, mid);
      ghost var s1 := a[..];
      MergeSortRec(a, aux, mid + 1, end);
      ghost var s2 := a[..];
      MergeBothParts(a, aux, start, mid + 1, end);
      CombineHalves(s0, s1, s2, a[..], start, mid + 1, end + 1);
    }
  }

  /** Slices of two sequences that agree cell by cell on the range are equal. */
  lemma SameSlice(s: seq<int>, t: seq<int>, lo: int, hi: int)
    requires 0 <= lo <= hi <= |s| == |t|
    requires forall k :: lo <= k < hi ==> s[k] == t[k]
    ensures s[lo..hi] == t[lo..hi]
  {
  }

  /** The reasoning of `mergeSort` after its three calls: `s0` is the array on
      entry, `s1` after sorting `[lo, mid)`, `s2` after sorting `[mid, hi)`
      and `s3` after merging. */
  lemma CombineHalves(s0: seq<int>, s1: seq<int>, s2: seq<int>, s3: seq<int>, lo: int, mid: int, hi: int)
    requires 0 <= lo < mid < hi <= |s0| == |s1| == |s2| == |s3|
    requires Sorted(s1[lo..mid]) && multiset(s1[lo..mid]) == multiset(s0[lo..mid])
    requires forall k :: 0 <= k < |s0| && !(lo <= k < mid) ==> s1[k] == s0[k]
    requires Sorted(s2[mid..hi]) && multiset(s2[mid..hi]) == multiset(s1[mid..hi])
    requires forall k :: 0 <= k < |s1| && !(mid <= k < hi) ==> s2[k] == s1[k]
    requires s3[lo..hi] == Merge(s2[lo..mid], s2[mid..hi])
    requires forall k :: 0 <= k < |s2| && !(lo <= k < hi) ==> s3[k] == s2[k]
    ensures Sorted(s3[lo..hi])
    ensures multiset(s3[lo..hi]) == multiset(s0[lo..hi])
    ensures forall k :: 0 <= k < |s0| && !(lo <= k < hi) ==> s3[k] == s0[k]
  {
    var xs, ys := s2[lo..mid], s2[mid..hi];
    assert xs == s1[lo..mid] by { SameSlice(s1, s2, lo, mid); }
    assert s1[mid..hi] == s0[mid..hi] by { SameSlice(s0, s1, mid, hi); }
    assert Sorted(s3[lo..hi]) by { MergeSorted(xs, ys); }
    assert multiset(s3[lo..hi]) == multiset(xs) + multiset(ys) by { MergePermutation(xs, ys); }
    assert multiset(s0[lo..hi]) == multiset(s0[lo..mid]) + multiset(s0[mid..hi]) by {
      assert s0[lo..hi] == s0[lo..mid] + s0[mid..hi];
    }
  }

  lemma {:induction false} MergeLength(xs: seq<int>, ys: seq<int>)
    ensures |Merge(xs, ys)| == |xs| + |ys|
    decreases |xs| + |ys|
  {
    if xs != [] && ys != [] {
      if xs[0] < ys[0] {
        MergeLength(xs[1..], ys);
      } else {
        MergeLength(xs, ys[1..]);
      }
    }
  }

  /** The merge of `A[l..hi1)` and `A[r..hi2)`, indexed by the two read positions
      of the loops of `mergeBothParts`. */
  function MergeFrom(A: seq<int>, l: int, hi1: int, r: int, hi2: int): seq<int>
    requires 0 <= l <= hi1 <= |A| && 0 <= r <= hi2 <= |A|
    decreases (hi1 - l) + (hi2 - r)
  {
    if l == hi1 then A[r..hi2]
    else if r == hi2 then A[l..hi1]
    else if A[l] < A[r] then [A[l]] + MergeFrom(A, l + 1, hi1, r, hi2)
    else [A[r]] + MergeFrom(A, l, hi1, r + 1, hi2)
  }

  lemma {:induction false} MergeFromIsMerge(A: seq<int>, l: int, hi1: int, r: int, hi2: int)
    requires 0 <= l <= hi1 <= |A| && 0 <= r <= hi2 <= |A|
    ensures MergeFrom(A, l, hi1, r, hi2) == Merge(A[l..hi1], A[r..hi2])
    decreases (hi1 - l) + (hi2 - r)
  {
    if l < hi1 && r < hi2 {
      assert A[l..hi1][1..] == A[l + 1..hi1];
      assert A[r..hi2][1..] == A[r + 1..hi2];
      if A[l] < A[r] {
        MergeFromIsMerge(A, l + 1, hi1, r, hi2);
      } else {
        MergeFromIsMerge(A, l, hi1, r + 1, hi2);
      }
    }
  }

  /** Taking the head of the left run is the next merge step when the right run
      is exhausted or its head is larger. */
  lemma TakeLeft(merged: seq<int>, i: int, A: seq<int>, l: int, hi1: int, r: int, hi2: int)
    requires 0 <= l < hi1 <= |A| && 0 <= r <= hi2 <= |A| && 0 <= i <= |merged|
    requires r == hi2 || A[l] < A[r]
    requires merged[i..] == MergeFrom(A, l, hi1, r, hi2)
    ensures i < |merged| && merged[i] == A[l]
    ensures merged[i + 1..] == MergeFrom(A, l + 1, hi1, r, hi2)
  {
    assert merged[i + 1..] == merged[i..][1..];
    if r == hi2 {
      assert A[l..hi1][1..] == A[l + 1..hi1];
      if l + 1 == hi1 {
        assert A[r..hi2] == [];
      }
    }
  }

  /** Taking the head of the right run is the next merge step when the left run is
      exhausted or its head is not smaller (ties go right). */
  lemma TakeRight(merged: seq<int>, i: int, A: seq<int>, l: int, hi1: int, r: int, hi2: int)
    requires 0 <= l <= hi1 <= |A| && 0 <= r < hi2 <= |A| && 0 <= i <= |merged|
    requires l == hi1 || A[l] >= A[r]
    requires merged[i..] == MergeFrom(A, l, hi1, r, hi2)
    ensures i < |merged| && merged[i] == A[r]
    ensures merged[i + 1..] == MergeFrom(A, l, hi1, r + 1, hi2)
  {
    assert merged[i + 1..] == merged[i..][1..];
    if l == hi1 {
      assert A[r..hi2][1..] == A[r + 1..hi2];
    } else if r + 1 == hi2 {
      assert A[r + 1..hi2] == [];
    }
  }

  /** One of the two trailing `while` loops of `mergeBothParts`: copies the rest
      `a[from..to)` of a run into `aux` from position `i` on, where the merge
      `merged` holds that rest, so that `aux` holds the merge up to `next`. */
  method CopyRest(a: array<int>, aux: array<int>, from: int, to: int, i: int, ghost merged: seq<int>) returns (next: int)
    requires a != aux && 0 <= from <= to <= a.Length && 0 <= i && i + (to - from) <= aux.Length
    requires i + (to - from) <= |merged| && forall k :: i <= k < i + (to - from) ==> merged[k] == a[from + (k - i)]
    requires forall k :: 0 <= k < i ==> aux[k] == merged[k]
    modifies aux
    ensures next == i + (to - from)
    ensures forall k :: 0 <= k < next ==> aux[k] == merged[k]
    ensures forall k :: next <= k < aux.Length ==> aux[k] == old(aux[k])
  {
    next := i;
    var l := from;
    while l < to
      modifies aux
      invariant from <= l <= to && next == i + (l - from)
      invariant forall k :: 0 <= k < next ==> aux[k] == merged[k]
      invariant forall k :: next <= k < aux.Length ==> aux[k] == old(aux[k])
    {
      aux[next] := a[l];
      l := l + 1;
      next := next + 1;
    }
  }

  /** The first `while` loop of `mergeBothParts`: while both runs have elements,
      the smaller head (the right one on a tie) goes to `aux`. */
  method MergeHeads(a: array<int>, aux: array<int>, left: int, right: int, end: int, ghost merged: seq<int>)
      returns (l: int, r: int, i: int)
    requires a != aux && aux.Length == a.Length
    requires 0 <= left < right <= end < a.Length
    requires merged == MergeFrom(a[..], left, right, right, end + 1)
    requires |merged| == end + 1 - left
    modifies aux
    ensures left <= l <= right && right <= r <= end + 1 && (l == right || r == end + 1)
    ensures i == (l - left) + (r - right)
    ensures merged[i..] == MergeFrom(a[..], l, right, r, end + 1)
    ensures forall k :: 0 <= k < i ==> aux[k] == merged[k]
    ensures forall k :: i <= k < aux.Length ==> aux[k] == old(aux[k])
  {
    ghost var A := a[..];
    l, r, i := left, right, 0;
    while l < right && r <= end
      modifies aux
      invariant left <= l <= right && right <= r <= end + 1 && i == (l - left) + (r - right)
      invariant merged[i..] == MergeFrom(A, l, right, r, end + 1)
      invariant forall k :: 0 <= k < i ==> aux[k] == merged[k]
      invariant forall k :: i <= k < aux.Length ==> aux[k] == old(aux[k])
    {
      l, r := MergeOne(a, aux, left, right, end, merged, l, r, i);
      i := i + 1;
    }
  }

  /** One turn of the first loop of `mergeBothParts`: the smaller head
      (the right one on a tie) goes to `aux[i]`, the next cell of the
      merge, and its run moves on. */
  method MergeOne(a: array<int>, aux: array<int>, left: int, right: int, end: int, ghost merged: seq<int>,
                  l: int, r: int, i: int) returns (l': int, r': int)
    requires a != aux && aux.Length == a.Length
    requires 0 <= left <= l < right <= r <= end < a.Length && i == (l - left) + (r - right)
    requires |merged| == end + 1 - left && merged[i..] == MergeFrom(a[..], l, right, r, end + 1)
    modifies aux
    ensures l <= l' <= right && r <= r' <= end + 1 && l' + r' == l + r + 1
    ensures merged[i + 1..] == MergeFrom(a[..], l', right, r', end + 1)
    ensures aux[i] == merged[i]
    ensures forall k :: 0 <= k < aux.Length && k != i ==> aux[k] == old(aux[k])
  {
    if a[l] < a[r] {
      TakeLeft(merged, i, a[..], l, right, r, end + 1);
      aux[i] := a[l];
      l', r' := l + 1, r;
    } else {
      TakeRight(merged, i, a[..], l, right, r, end + 1);
      aux[i] := a[r];
      l', r' := l, r + 1;
    }
  }

  /** Once one run is exhausted, the rest of the merge is the rest of the other run. */
  lemma MergeFromExhausted(A: seq<int>, l: int, hi1: int, r: int, hi2: int)
    requires 0 <= l <= hi1 <= |A| && 0 <= r <= hi2 <= |A| && (l == hi1 || r == hi2)
    ensures MergeFrom(A, l, hi1, r, hi2) == A[l..hi1] + A[r..hi2]
  {
    if l == hi1 {
      assert A[l..hi1] + A[r..hi2] == A[r..hi2];
    } else {
      assert A[l..hi1] + A[r..hi2] == A[l..hi1];
    }
  }

  /** Once the head loop has written `merged[..i)`, the rest of the merge
      is the rest of the left run, then the rest of the right run. */
  lemma RestCells(merged: seq<int>, i: int, mid: int, A: seq<int>, l: int, hi1: int, r: int, hi2: int)
    requires 0 <= l <= hi1 <= |A| && 0 <= r <= hi2 <= |A| && 0 <= i <= |merged| && mid == i + (hi1 - l)
    requires merged[i..] == A[l..hi1] + A[r..hi2]
    ensures |merged| == mid + (hi2 - r)
    ensures forall k :: i <= k < mid ==> merged[k] == A[l + (k - i)]
    ensures forall k :: mid <= k < |merged| ==> merged[k] == A[r + (k - mid)]
  {
    forall k | i <= k < mid
      ensures merged[k] == A[l + (k - i)]
    {
      assert merged[k] == merged[i..][k - i];
    }
    forall k | mid <= k < |merged|
      ensures merged[k] == A[r + (k - mid)]
    {
      assert merged[k] == merged[i..][k - i];
    }
  }

  /** The two trailing `while` loops of `mergeBothParts`: once the head
      loop has written `merged[..i)`, the rest of each run completes the
      merge in `aux`. */
  method CopyTails(a: array<int>, aux: array<int>, l: int, right: int, r: int, end: int, i: int, ghost merged: seq<int>)
    requires a != aux && aux.Length == a.Length
    requires 0 <= l <= right <= r <= end + 1 <= a.Length && 0 <= i && (l == right || r == end + 1)
    requires i <= |merged| == i + (right - l) + (end + 1 - r) <= aux.Length
    requires merged[i..] == MergeFrom(a[..], l, right, r, end + 1)
    requires forall k :: 0 <= k < i ==> aux[k] == merged[k]
    modifies aux
    ensures forall k :: 0 <= k < |merged| ==> aux[k] == merged[k]
    ensures forall k :: |merged| <= k < aux.Length ==> aux[k] == old(aux[k])
  {
    var mid := i + (right - l);
    assert (forall k :: i <= k < mid ==> merged[k] == a[l + (k - i)]) &&
      (forall k :: mid <= k < |merged| ==> merged[k] == a[r + (k - mid)]) by {
      MergeFromExhausted(a[..], l, right, r, end + 1);
      RestCells(merged, i, mid, a[..], l, right, r, end + 1);
    }
    var i1 := CopyRest(a, aux, l, right, i, merged);
    var i2 := CopyRest(a, aux, r, end + 1, i1, merged);
  }

  /** The first half of `mergeBothParts`: its three `while` loops write the merge
      of `a[left..right)` and `a[right..end]` into `aux[0..itemsCount)` and touch
      no other cell. */
  method MergeIntoAux(a: array<int>, aux: array<int>, left: int, right: int, end: int)
    requires a != aux && aux.Length == a.Length
    requires 0 <= left < right <= end < a.Length
    modifies aux
    ensures aux[..end - left + 1] == Merge(a[left..right], a[right..end + 1])
    ensures forall j :: end - left + 1 <= j < aux.Length ==> aux[j] == old(aux[j])
  {
    ghost var A := a[..];
    ghost var merged := MergeFrom(A, left, right, right, end + 1);
    assert merged == Merge(A[left..right], A[right..end + 1]) && |merged| == end + 1 - left by {
      MergeFromIsMerge(A, left, right, right, end + 1);
      MergeLength(A[left..right], A[right..end + 1]);
    }
    var l, r, i := MergeHeads(a, aux, left, right, end, merged);
    CopyTails(a, aux, l, right, r, end, i, merged);
    assert aux[..end - left + 1] == merged;
  }

  /** Merges the sorted runs `a[left..right)` and `a[right..end]` through
      `aux[0..itemsCount)` and copies the merge back. */
  method MergeBothParts(a: array<int>, aux: array<int>, left: int, right: int, end: int)
    requires a != aux && aux.Length == a.Length
    requires 0 <= left < right <= end < a.Length
    modifies a, aux
    ensures a[left..end + 1] == Merge(old(a[left..right]), old(a[right..end + 1]))
    ensures forall k :: 0 <= k < a.Length && !(left <= k <= end) ==> a[k] == old(a[k])
  {
    var start := left;
    var itemsCount := end - left + 1;
    MergeIntoAux(a, aux, left, right, end);
    ghost var merged := aux[..itemsCount];
    for k := 0 to itemsCount
      modifies a
      invariant a[start..start + k] == aux[..k]
      invariant forall j :: 0 <= j < a.Length && !(left <= j < start + k) ==> a[j] == old(a[j])
    {
      a[start + k] := aux[k];
      assert a[start..start + k + 1] == a[start..start + k] + [aux[k]];
    }
  }
}
