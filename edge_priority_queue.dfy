/** Prim's priority queue of edges: a fixed array kept in non-increasing
    weight order, so the lightest edge sits in the last used slot. */
module EdgePriorityQueue {
  import opened Java
  import opened Graph

  /** Weights never increase along `s`. */
  ghost predicate Descending(s: seq<Edge>)
  {
    forall i, j :: 0 <= i < j < |s| ==> s[i].weight >= s[j].weight
  }

  /** The slot `add` chooses for `e`: the first entry no heavier than `e`,
      or the end. */
  function Slot(s: seq<Edge>, e: Edge): (i: int)
    ensures 0 <= i <= |s|
    ensures forall k :: 0 <= k < i ==> s[k].weight > e.weight
    ensures i < |s| ==> s[i].weight <= e.weight
  {
    if s == [] || s[0].weight <= e.weight then 0 else 1 + Slot(s[1..], e)
  }

  /** The entries after `add(e)`. */
  function Placed(s: seq<Edge>, e: Edge): seq<Edge>
  {
    s[..Slot(s, e)] + [e] + s[Slot(s, e)..]
  }

  /** The entries without the one at `i`. */
  function RemoveAt(s: seq<Edge>, i: int): seq<Edge>
    requires 0 <= i < |s|
  {
    s[..i] + s[i + 1..]
  }

  /** The first position of `x`, or -1 when it is absent. */
  function IndexOf(s: seq<Edge>, x: Edge): (i: int)
    ensures -1 <= i < |s|
    ensures i == -1 <==> x !in s
    ensures i >= 0 ==> s[i] == x && x !in s[..i]
  {
    if s == [] then -1
    else if s[0] == x then 0
    else var j := IndexOf(s[1..], x); if j == -1 then -1 else j + 1
  }

  /** The first entry whose destination is `v`, or `None` (null). */
  function FirstTo(s: seq<Edge>, v: Vertex): (r: Option<Edge>)
    ensures r.None? <==> forall e :: e in s ==> e.destination != v
    ensures r.Some? ==> r.value in s && r.value.destination == v
    ensures r.Some? ==> exists k :: 0 <= k < |s| && s[k] == r.value && forall j :: 0 <= j < k ==> s[j].destination != v
  {
    if s == [] then None
    else if s[0].destination == v then Some(s[0])
    else
      var r := FirstTo(s[1..], v);
      if r.Some? then
        var k :| 0 <= k < |s[1..]| && s[1..][k] == r.value && forall j :: 0 <= j < k ==> s[1..][j].destination != v;
        assert s[k + 1] == r.value;
        r
      else r
  }

  /** `add` keeps the order and adds just `e`. */
  lemma PlacedDescending(s: seq<Edge>, e: Edge)
    requires Descending(s)
    ensures Descending(Placed(s, e))
    ensures multiset(Placed(s, e)) == multiset(s) + multiset{e}
  {
    var i := Slot(s, e);
    var p := Placed(s, e);
    PlacedAt(s, e);
    forall j, k | 0 <= j < k < |p|
      ensures p[j].weight >= p[k].weight
    {
      if k < i || j > i {
      } else if j == i {
        assert p[k] == s[k - 1];
      } else if k == i {
        assert p[j] == s[j];
      } else {
        assert p[j] == s[j] && p[k] == s[k - 1];
      }
    }
    assert s == s[..i] + s[i..];
  }

  /** Where each entry lands after `add(e)`. */
  lemma PlacedAt(s: seq<Edge>, e: Edge)
    ensures |Placed(s, e)| == |s| + 1
    ensures forall k :: 0 <= k < |s| + 1 ==> Placed(s, e)[k] == if k < Slot(s, e) then s[k] else if k == Slot(s, e) then e else s[k - 1]
  {
  }

  /** Among entries of equal weight the newest comes first, so the oldest is
      polled first: every other entry as heavy as `e` lies behind it. */
  lemma PlacedTies(s: seq<Edge>, e: Edge)
    ensures Placed(s, e)[Slot(s, e)] == e
    ensures forall k :: 0 <= k < |Placed(s, e)| && k != Slot(s, e) && Placed(s, e)[k].weight == e.weight ==> k > Slot(s, e)
  {
    var i := Slot(s, e);
    var p := Placed(s, e);
    assert forall k :: 0 <= k < i ==> p[k] == s[k];
  }

  /** Removing an entry keeps the order. */
  lemma RemoveAtDescending(s: seq<Edge>, i: int)
    requires Descending(s) && 0 <= i < |s|
    ensures Descending(RemoveAt(s, i))
    ensures multiset(RemoveAt(s, i)) == multiset(s) - multiset{s[i]}
  {
    var r := RemoveAt(s, i);
    forall a, b | 0 <= a < b < |r|
      ensures r[a].weight >= r[b].weight
    {
      var a' := if a < i then a else a + 1;
      var b' := if b < i then b else b + 1;
      assert r[a] == s[a'] && r[b] == s[b'];
    }
    assert s == s[..i] + [s[i]] + s[i + 1..];
  }

  /** The array after `add` shifted the slots from `i` on one to the right
      and wrote `e` into slot `i` holds `Placed` in its first `n + 1`
      slots. */
  lemma ShiftedPlaced(a0: seq<Edge>, a1: seq<Edge>, n: int, i: int, e: Edge)
    requires |a1| == |a0| && 0 <= n < |a0| && i == Slot(a0[..n], e)
    requires forall k {:trigger a1[k]} :: 0 <= k < |a0| ==> a1[k] == if k == i then e else if i < k <= n then a0[k - 1] else a0[k]
    ensures a1[..n + 1] == Placed(a0[..n], e)
  {
    var s := a0[..n];
    var front := s[..i] + [e];
    var p := Placed(s, e);
    assert p == front + s[i..] && |front| == i + 1;
    forall k | 0 <= k <= n
      ensures a1[k] == p[k]
    {
      if k < i {
        assert a1[k] == a0[k];
        assert p[k] == front[k] == s[k];
      } else if k == i {
        assert a1[k] == e;
        assert p[k] == front[k] == e;
      } else {
        assert a1[k] == a0[k - 1];
        assert p[k] == s[i..][k - i - 1] == s[k - 1];
      }
    }
  }

  /** The last entry of an ordered sequence is a lightest one. */
  lemma LastIsLightest(s: seq<Edge>)
    requires Descending(s) && s != []
    ensures forall e :: e in s ==> s[|s| - 1].weight <= e.weight
  {
  }

  class EdgePriorityQueue {
    const maxSize: int
    const edges: array<Edge>
    var currentSize: int

    /** `currentSize <= maxSize == edges.length`, and the used slots are
        ordered by non-increasing weight. */
    ghost predicate Valid()
      reads this, edges
    {
      maxSize == edges.Length && 0 <= currentSize <= maxSize && Descending(edges[..currentSize])
    }

    /** The queued edges, heaviest first. */
    ghost function Contents(): seq<Edge>
      reads this, edges
      requires Valid()
    {
      edges[..currentSize]
    }

    /** The constructor once its check has passed: an empty queue of
        `maxSize` slots. */
    constructor (maxSize: int)
      requires maxSize > 0
      ensures Valid() && fresh(edges) && this.maxSize == maxSize && Contents() == []
    {
      this.maxSize := maxSize;
      edges := new Edge[maxSize](_ => Edge("", "", 0));
      currentSize := 0;
    }

    /** `isEmpty`. */
    function IsEmpty(): (b: bool)
      reads this, edges
      requires Valid()
      ensures b <==> Contents() == []
    {
      currentSize == 0
    }

    /** `isFull`. */
    function IsFull(): (b: bool)
      reads this, edges
      requires Valid()
      ensures b <==> |Contents()| == maxSize
    {
      currentSize == maxSize
    }

    /** `add`: throws `IllegalStateException` on a full queue, changing
        nothing; otherwise puts `edge` before the first entry no heavier than
        it, keeping the order. */
    method Add(edge: Edge) returns (o: Outcome)
      requires Valid()
      modifies this, edges
      ensures Valid()
      ensures o == if old(|Contents()|) == maxSize then Fail(IllegalState) else Pass
      ensures o.Pass? ==> Contents() == Placed(old(Contents()), edge)
      ensures o.Fail? ==> Contents() == old(Contents())
    {
      if IsFull() {
        return Fail(IllegalState);
      }
      ghost var s := edges[..currentSize];
      var i := 0;
      while i < currentSize && edges[i].weight > edge.weight
        invariant 0 <= i <= currentSize
        invariant forall k :: 0 <= k < i ==> edges[k].weight > edge.weight
      {
        i := i + 1;
      }
      InsertAt(i, edge);
      PlacedDescending(s, edge);
      return Pass;
    }

    /** The shift and the write of `add`, once the slot `i` is found. */
    method InsertAt(i: int, edge: Edge)
      requires 0 <= currentSize < edges.Length && i == Slot(edges[..currentSize], edge)
      modifies this, edges
      ensures currentSize == old(currentSize) + 1
      ensures edges[..currentSize] == Placed(old(edges[..currentSize]), edge)
    {
      ghost var a0 := edges[..];
      ShiftRight(i);
      edges[i] := edge;
      ShiftedPlaced(a0, edges[..], currentSize, i, edge);
      currentSize := currentSize + 1;
    }

    /** `System.arraycopy(edges, i, edges, i + 1, currentSize - i)`. */
    method ShiftRight(i: int)
      requires 0 <= i <= currentSize < edges.Length
      modifies edges
      ensures forall k :: 0 <= k < edges.Length ==> edges[k] == if i < k <= currentSize then old(edges[k - 1]) else old(edges[k])
    {
      var j := currentSize;
      while j > i
        invariant i <= j <= currentSize
        invariant forall k :: 0 <= k < edges.Length ==> edges[k] == if j < k <= currentSize then old(edges[k - 1]) else old(edges[k])
      {
        edges[j] := edges[j - 1];
        j := j - 1;
      }
    }

    /** `System.arraycopy(edges, index + 1, edges, index, currentSize - index - 1)`. */
    method ShiftLeft(index: int)
      requires 0 <= index < currentSize <= edges.Length
      modifies edges
      ensures forall k :: 0 <= k < edges.Length ==> edges[k] == if index <= k < currentSize - 1 then old(edges[k + 1]) else old(edges[k])
    {
      var j := index;
      while j < currentSize - 1
        invariant index <= j <= currentSize - 1
        invariant forall k :: 0 <= k < edges.Length ==> edges[k] == if index <= k < j then old(edges[k + 1]) else old(edges[k])
      {
        edges[j] := edges[j + 1];
        j := j + 1;
      }
    }

    /** `peekSmallest`: the last entry, a lightest edge, or `None` (null) on
        an empty queue. */
    function PeekSmallest(): (r: Option<Edge>)
      reads this, edges
      requires Valid()
      ensures r.None? <==> Contents() == []
      ensures r.Some? ==> r.value == Contents()[|Contents()| - 1]
      ensures r.Some? ==> forall e :: e in Contents() ==> r.value.weight <= e.weight
    {
      if currentSize == 0 then None
      else
        LastIsLightest(Contents());
        Some(edges[currentSize - 1])
    }

    /** `pollSmallest`: removes and returns what `peekSmallest` shows, or
        throws `NoSuchElementException` on an empty queue. */
    method PollSmallest() returns (r: Result<Edge>)
      requires Valid()
      modifies this
      ensures Valid()
      ensures r == if old(Contents()) == [] then Failure(NoSuchElement) else Success(old(PeekSmallest()).value)
      ensures r.Success? ==> Contents() == old(Contents())[..old(|Contents()|) - 1]
      ensures r.Failure? ==> Contents() == old(Contents())
    {
      if IsEmpty() {
        return Failure(NoSuchElement);
      }
      currentSize := currentSize - 1;
      return Success(edges[currentSize]);
    }

    /** `replace`: removes the first entry equal to `target` and adds
        `replacement` in order, or throws `NoSuchElementException` when
        `target` is not queued, changing nothing. */
    method Replace(target: Edge, replacement: Edge) returns (o: Outcome)
      requires Valid()
      modifies this, edges
      ensures Valid()
      ensures o == if target in old(Contents()) then Pass else Fail(NoSuchElement)
      ensures o.Pass? ==> Contents() == Placed(RemoveAt(old(Contents()), IndexOf(old(Contents()), target)), replacement)
      ensures o.Fail? ==> Contents() == old(Contents())
    {
      ghost var s := edges[..currentSize];
      var index := -1;
      var i := 0;
      while i < currentSize
        invariant 0 <= i <= currentSize
        invariant index == -1 ==> target !in s[..i]
        invariant index != -1 ==> index == IndexOf(s, target)
      {
        if edges[i] == target {
          assert s[..i + 1] == s[..i] + [target];
          index := i;
          break;
        }
        assert s[..i + 1] == s[..i] + [edges[i]];
        i := i + 1;
      }
      if index == -1 {
        assert s[..currentSize] == s;
        return Fail(NoSuchElement);
      }
      ShiftLeft(index);
      currentSize := currentSize - 1;
      assert edges[..currentSize] == RemoveAt(s, index);
      RemoveAtDescending(s, index);
      o := Add(replacement);
    }

    /** `findEdgeWithDestination`: the first queued edge into `destination`,
        or `None` (null); nothing changes. */
    method FindEdgeWithDestination(destination: Vertex) returns (r: Option<Edge>)
      requires Valid()
      ensures r == FirstTo(Contents(), destination)
    {
      ghost var s := edges[..currentSize];
      var i := 0;
      while i < currentSize
        invariant 0 <= i <= currentSize
        invariant FirstTo(s, destination) == FirstTo(s[i..], destination)
      {
        if edges[i].destination == destination {
          return Some(edges[i]);
        }
        assert s[i..][1..] == s[i + 1..];
        i := i + 1;
      }
      return None;
    }
  }

  /** `new EdgePriorityQueue(maxSize)`: `IllegalArgumentException` when
      `maxSize <= 0`, otherwise an empty queue of that size. */
  method Create(maxSize: int) returns (r: Result<EdgePriorityQueue>)
    ensures r.Failure? <==> maxSize <= 0
    ensures r.Failure? ==> r.error == IllegalArgument
    ensures r.Success? ==> fresh(r.value) && fresh(r.value.edges) && r.value.Valid()
    ensures r.Success? ==> r.value.maxSize == maxSize && r.value.Contents() == []
  {
    if maxSize <= 0 {
      return Failure(IllegalArgument);
    }
    var q := new EdgePriorityQueue(maxSize);
    return Success(q);
  }
}
