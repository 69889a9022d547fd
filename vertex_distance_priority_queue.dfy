/** Dijkstra's priority queue: a fixed array of (vertex, distance) entries
    kept in non-increasing distance order, so a nearest vertex sits in the
    last used slot. */
module VertexDistancePriorityQueue {
  import opened Java
  import opened Graph

  /** A queued vertex with its tentative distance. */
  datatype VertexDistance = VertexDistance(vertex: Vertex, distance: int)

  /** Distances never increase along `s`. */
  ghost predicate Descending(s: seq<VertexDistance>)
  {
    forall i, j :: 0 <= i < j < |s| ==> s[i].distance >= s[j].distance
  }

  /** The slot `add` chooses for `e`: the first entry no farther than `e`,
      or the end. */
  function Slot(s: seq<VertexDistance>, e: VertexDistance): (i: int)
    ensures 0 <= i <= |s|
    ensures forall k :: 0 <= k < i ==> s[k].distance > e.distance
    ensures i < |s| ==> s[i].distance <= e.distance
  {
    if s == [] || s[0].distance <= e.distance then 0 else 1 + Slot(s[1..], e)
  }

  /** The entries after `add(e.vertex, e.distance)`. */
  function Placed(s: seq<VertexDistance>, e: VertexDistance): seq<VertexDistance>
  {
    s[..Slot(s, e)] + [e] + s[Slot(s, e)..]
  }

  /** The entries without the one at `i`. */
  function RemoveAt(s: seq<VertexDistance>, i: int): seq<VertexDistance>
    requires 0 <= i < |s|
  {
    s[..i] + s[i + 1..]
  }

  /** The first position holding vertex `v`, or -1 when `v` is not queued. */
  function IndexOfVertex(s: seq<VertexDistance>, v: Vertex): (i: int)
    ensures -1 <= i < |s|
    ensures i == -1 <==> forall k :: 0 <= k < |s| ==> s[k].vertex != v
    ensures i >= 0 ==> s[i].vertex == v && forall k :: 0 <= k < i ==> s[k].vertex != v
  {
    if s == [] then -1
    else if s[0].vertex == v then 0
    else var j := IndexOfVertex(s[1..], v); if j == -1 then -1 else j + 1
  }

  /** Where each entry lands after `add`. */
  lemma PlacedAt(s: seq<VertexDistance>, e: VertexDistance)
    ensures |Placed(s, e)| == |s| + 1
    ensures forall k :: 0 <= k < |s| + 1 ==> Placed(s, e)[k] == if k < Slot(s, e) then s[k] else if k == Slot(s, e) then e else s[k - 1]
  {
  }

  /** `add` keeps the order and adds just `e`. */
  lemma PlacedDescending(s: seq<VertexDistance>, e: VertexDistance)
    requires Descending(s)
    ensures Descending(Placed(s, e))
    ensures multiset(Placed(s, e)) == multiset(s) + multiset{e}
  {
    var i := Slot(s, e);
    var p := Placed(s, e);
    PlacedAt(s, e);
    forall j, k | 0 <= j < k < |p|
      ensures p[j].distance >= p[k].distance
    {
      if k < i || j > i {
      } else if j == i {
        assert p[k] == s[k - 1];
      } else if k == i {
        assert p[j] == s[j];
      } else {
        assert p[j] == s[j] && p[k] == s[k - 1];
      }
    }
    assert s == s[..i] + s[i..];
  }

  /** A new entry goes before every entry at the same distance, so among
      equal distances the earliest added is polled first. */
  lemma PlacedTies(s: seq<VertexDistance>, e: VertexDistance)
    ensures Placed(s, e)[Slot(s, e)] == e
    ensures forall k :: 0 <= k < |Placed(s, e)| && k != Slot(s, e) && Placed(s, e)[k].distance == e.distance ==> k > Slot(s, e)
  {
    var i := Slot(s, e);
    var p := Placed(s, e);
    assert forall k :: 0 <= k < i ==> p[k] == s[k];
  }

  /** Removing an entry keeps the order. */
  lemma RemoveAtDescending(s: seq<VertexDistance>, i: int)
    requires Descending(s) && 0 <= i < |s|
    ensures Descending(RemoveAt(s, i))
    ensures multiset(RemoveAt(s, i)) == multiset(s) - multiset{s[i]}
  {
    var r := RemoveAt(s, i);
    forall a, b | 0 <= a < b < |r|
      ensures r[a].distance >= r[b].distance
    {
      assert r[a] == s[if a < i then a else a + 1];
      assert r[b] == s[if b < i then b else b + 1];
    }
    RemoveAtMultiset(s, i);
  }

  /** Removing the entry at `i` removes one copy of it. */
  lemma RemoveAtMultiset(s: seq<VertexDistance>, i: int)
    requires 0 <= i < |s|
    ensures multiset(RemoveAt(s, i)) == multiset(s) - multiset{s[i]}
  {
    assert s == s[..i] + [s[i]] + s[i + 1..];
  }

  /** The array after `update` shifted the slots after `i` one to the left
      holds the first `n` entries without the one at `i` in its first
      `n - 1` slots. */
  lemma ShiftedRemoved(a0: seq<VertexDistance>, a1: seq<VertexDistance>, n: int, i: int)
    requires |a1| == |a0| && 0 <= i < n <= |a0|
    requires forall k {:trigger a1[k]} :: 0 <= k < |a0| ==> a1[k] == if i <= k < n - 1 then a0[k + 1] else a0[k]
    ensures a1[..n - 1] == RemoveAt(a0[..n], i)
  {
    var r := RemoveAt(a0[..n], i);
    assert |r| == n - 1;
    forall k | 0 <= k < n - 1
      ensures a1[k] == r[k]
    {
      if k < i {
        assert r[k] == a0[k];
      } else {
        assert r[k] == a0[k + 1];
      }
    }
  }

  /** The array after `add` shifted the slots from `i` on one to the right
      and wrote `e` into slot `i` holds `Placed` in its first `n + 1`
      slots. */
  lemma ShiftedPlaced(a0: seq<VertexDistance>, a1: seq<VertexDistance>, n: int, i: int, e: VertexDistance)
    requires |a1| == |a0| && 0 <= n < |a0| && i == Slot(a0[..n], e)
    requires forall k {:trigger a1[k]} :: 0 <= k < |a0| ==> a1[k] == if k == i then e else if i < k <= n then a0[k - 1] else a0[k]
    ensures a1[..n + 1] == Placed(a0[..n], e)
  {
    var s := a0[..n];
    var front := s[..i] + [e];
    var p := Placed(s, e);
    assert p == front + s[i..] && |front| == i + 1;
    forall k | 0 <= k <= n
      ensures a1[k] == p[k]
    {
      if k < i {
        assert a1[k] == a0[k];
        assert p[k] == front[k] == s[k];
      } else if k == i {
        assert a1[k] == e;
        assert p[k] == front[k] == e;
      } else {
        assert a1[k] == a0[k - 1];
        assert p[k] == s[i..][k - i - 1] == s[k - 1];
      }
    }
  }

  /** The last entry of an ordered sequence is a nearest one. */
  lemma LastIsNearest(s: seq<VertexDistance>)
    requires Descending(s) && s != []
    ensures forall e :: e in s ==> s[|s| - 1].distance <= e.distance
  {
  }

  /** `s` queues every vertex of `q` exactly once, at the distance `q`
      gives it: the queue read as a map from vertex to distance. */
  ghost predicate Holds(s: seq<VertexDistance>, q: map<Vertex, int>)
  {
    (forall i, j :: 0 <= i < j < |s| ==> s[i].vertex != s[j].vertex) &&
    (forall k :: 0 <= k < |s| ==> s[k].vertex in q && q[s[k].vertex] == s[k].distance) &&
    (forall v {:trigger IndexOfVertex(s, v)} :: v in q ==> IndexOfVertex(s, v) >= 0)
  }

  /** Over such a queue, the search of `update` finds exactly the vertices
      of `q`, and the entry it finds carries `q`'s distance. */
  lemma HoldsIndex(s: seq<VertexDistance>, q: map<Vertex, int>, v: Vertex)
    requires Holds(s, q)
    ensures IndexOfVertex(s, v) >= 0 <==> v in q
    ensures v in q ==> s[IndexOfVertex(s, v)] == VertexDistance(v, q[v])
  {
    var i := IndexOfVertex(s, v);
    if i >= 0 {
      assert s[i].vertex in q;
    }
  }

  /** Adding a vertex that is not queued extends the map by it. */
  lemma HoldsAdd(s: seq<VertexDistance>, q: map<Vertex, int>, v: Vertex, d: int)
    requires Holds(s, q) && v !in q
    ensures Holds(Placed(s, VertexDistance(v, d)), q[v := d])
  {
    PlacedDistinct(s, q, v, d);
    PlacedMatches(s, q, v, d);
    PlacedCovers(s, q, v, d);
  }

  /** No vertex is queued twice after adding one that was not queued. */
  lemma PlacedDistinct(s: seq<VertexDistance>, q: map<Vertex, int>, v: Vertex, d: int)
    requires Holds(s, q) && v !in q
    ensures forall a, b :: 0 <= a < b < |Placed(s, VertexDistance(v, d))| ==> Placed(s, VertexDistance(v, d))[a].vertex != Placed(s, VertexDistance(v, d))[b].vertex
  {
    var e := VertexDistance(v, d);
    var p := Placed(s, e);
    var i := Slot(s, e);
    PlacedAt(s, e);
    forall a, b | 0 <= a < b < |p|
      ensures p[a].vertex != p[b].vertex
    {
      if a == i {
        assert p[b] == s[b - 1];
      } else if b == i {
        assert p[a] == s[a];
      }
    }
  }

  /** Every entry after the addition carries the extended map's
      distance. */
  lemma PlacedMatches(s: seq<VertexDistance>, q: map<Vertex, int>, v: Vertex, d: int)
    requires Holds(s, q) && v !in q
    ensures forall k :: 0 <= k < |Placed(s, VertexDistance(v, d))| ==> Placed(s, VertexDistance(v, d))[k].vertex in q[v := d] && q[v := d][Placed(s, VertexDistance(v, d))[k].vertex] == Placed(s, VertexDistance(v, d))[k].distance
  {
    var e := VertexDistance(v, d);
    var p := Placed(s, e);
    var i := Slot(s, e);
    var q' := q[v := d];
    PlacedAt(s, e);
    forall k | 0 <= k < |p|
      ensures p[k].vertex in q' && q'[p[k].vertex] == p[k].distance
    {
      if k < i {
        assert p[k] == s[k];
        assert s[k].vertex in q;
      } else if k > i {
        assert p[k] == s[k - 1];
        assert s[k - 1].vertex in q;
      }
    }
  }

  /** Every vertex of the extended map is queued after the addition. */
  lemma PlacedCovers(s: seq<VertexDistance>, q: map<Vertex, int>, v: Vertex, d: int)
    requires Holds(s, q) && v !in q
    ensures forall u {:trigger IndexOfVertex(Placed(s, VertexDistance(v, d)), u)} :: u in q[v := d] ==> IndexOfVertex(Placed(s, VertexDistance(v, d)), u) >= 0
  {
    var e := VertexDistance(v, d);
    var p := Placed(s, e);
    var i := Slot(s, e);
    PlacedAt(s, e);
    forall u | u in q[v := d]
      ensures IndexOfVertex(p, u) >= 0
    {
      if u == v {
        assert p[i].vertex == u;
      } else {
        var j := IndexOfVertex(s, u);
        if j < i {
          assert p[j].vertex == u;
        } else {
          assert p[j + 1].vertex == u;
        }
      }
    }
  }

  /** Taking off the last entry drops its vertex from the map; that vertex
      is a nearest one. */
  lemma HoldsPoll(s: seq<VertexDistance>, q: map<Vertex, int>)
    requires Holds(s, q) && Descending(s) && s != []
    ensures s[|s| - 1].vertex in q
    ensures Holds(s[..|s| - 1], q - {s[|s| - 1].vertex})
    ensures forall v :: v in q ==> q[s[|s| - 1].vertex] <= q[v]
  {
    var n := |s| - 1;
    var last := s[n].vertex;
    var r := s[..n];
    var q' := q - {last};
    forall u | u in q'
      ensures IndexOfVertex(r, u) >= 0
    {
      var j := IndexOfVertex(s, u);
      assert j != n;
      assert r[j].vertex == u;
    }
    forall v | v in q
      ensures q[last] <= q[v]
    {
      var j := IndexOfVertex(s, v);
      assert s[j].vertex == v;
    }
  }

  /** Removing the entry at `i` drops its vertex from the map. */
  lemma HoldsRemove(s: seq<VertexDistance>, q: map<Vertex, int>, i: int)
    requires Holds(s, q) && 0 <= i < |s|
    ensures Holds(RemoveAt(s, i), q - {s[i].vertex})
  {
    var r := RemoveAt(s, i);
    var q' := q - {s[i].vertex};
    assert |r| == |s| - 1;
    assert forall k :: 0 <= k < |r| ==> r[k] == if k < i then s[k] else s[k + 1];
    forall a, b | 0 <= a < b < |r|
      ensures r[a].vertex != r[b].vertex
    {
      if b < i {
        assert r[a] == s[a] && r[b] == s[b];
      } else if a < i {
        assert r[a] == s[a] && r[b] == s[b + 1];
      } else {
        assert r[a] == s[a + 1] && r[b] == s[b + 1];
      }
    }
    forall k | 0 <= k < |r|
      ensures r[k].vertex in q' && q'[r[k].vertex] == r[k].distance
    {
      if k < i {
        assert r[k] == s[k];
        assert s[k].vertex != s[i].vertex;
      } else {
        assert r[k] == s[k + 1];
        assert s[k + 1].vertex != s[i].vertex;
      }
    }
    forall u | u in q'
      ensures IndexOfVertex(r, u) >= 0
    {
      var j := IndexOfVertex(s, u);
      assert s[j].vertex == u;
      if j < i {
        assert r[j].vertex == u;
      } else {
        assert j != i;
        assert r[j - 1].vertex == u;
      }
    }
  }

  /** `update(v, d)` on a queued vertex sets its distance to `d` in the
      map. */
  lemma HoldsUpdate(s: seq<VertexDistance>, q: map<Vertex, int>, v: Vertex, d: int)
    requires Holds(s, q) && v in q
    ensures IndexOfVertex(s, v) >= 0
    ensures Holds(Placed(RemoveAt(s, IndexOfVertex(s, v)), VertexDistance(v, d)), q[v := d])
  {
    var i := IndexOfVertex(s, v);
    HoldsRemove(s, q, i);
    HoldsAdd(RemoveAt(s, i), q - {v}, v, d);
    assert (q - {v})[v := d] == q[v := d];
  }

  class VertexDistancePriorityQueue {
    const maxSize: int
    const vertexDistances: array<VertexDistance>
    var currentSize: int

    /** `currentSize <= maxSize == vertexDistances.length`, and the used
        slots are ordered by non-increasing distance. */
    ghost predicate Valid()
      reads this, vertexDistances
    {
      maxSize == vertexDistances.Length && 0 <= currentSize <= maxSize && Descending(vertexDistances[..currentSize])
    }

    /** The queued entries, farthest first. */
    ghost function Contents(): seq<VertexDistance>
      reads this, vertexDistances
      requires Valid()
    {
      vertexDistances[..currentSize]
    }

    /** The constructor once its check has passed: an empty queue of
        `maxSize` slots. */
    constructor (maxSize: int)
      requires maxSize > 0
      ensures Valid() && fresh(vertexDistances) && this.maxSize == maxSize && Contents() == []
    {
      this.maxSize := maxSize;
      vertexDistances := new VertexDistance[maxSize](_ => VertexDistance("", 0));
      currentSize := 0;
    }

    /** `isEmpty`. */
    function IsEmpty(): (b: bool)
      reads this, vertexDistances
      requires Valid()
      ensures b <==> Contents() == []
    {
      currentSize == 0
    }

    /** `isFull`. */
    function IsFull(): (b: bool)
      reads this, vertexDistances
      requires Valid()
      ensures b <==> |Contents()| == maxSize
    {
      currentSize == maxSize
    }

    /** `add`: throws `IllegalStateException` on a full queue, changing
        nothing; otherwise puts the entry before the first one no farther
        than it, keeping the order. */
    method Add(vertex: Vertex, distance: int) returns (o: Outcome)
      requires Valid()
      modifies this, vertexDistances
      ensures Valid()
      ensures o == if old(|Contents()|) == maxSize then Fail(IllegalState) else Pass
      ensures o.Pass? ==> Contents() == Placed(old(Contents()), VertexDistance(vertex, distance))
      ensures o.Fail? ==> Contents() == old(Contents())
    {
      if IsFull() {
        return Fail(IllegalState);
      }
      ghost var s := vertexDistances[..currentSize];
      var i := 0;
      while i < currentSize && vertexDistances[i].distance > distance
        invariant 0 <= i <= currentSize
        invariant forall k :: 0 <= k < i ==> vertexDistances[k].distance > distance
      {
        i := i + 1;
      }
      InsertAt(i, VertexDistance(vertex, distance));
      PlacedDescending(s, VertexDistance(vertex, distance));
      return Pass;
    }

    /** The shift and the write of `add`, once the slot `i` is found. */
    method InsertAt(i: int, e: VertexDistance)
      requires 0 <= currentSize < vertexDistances.Length && i == Slot(vertexDistances[..currentSize], e)
      modifies this, vertexDistances
      ensures currentSize == old(currentSize) + 1
      ensures vertexDistances[..currentSize] == Placed(old(vertexDistances[..currentSize]), e)
    {
      ghost var a0 := vertexDistances[..];
      ShiftRight(i);
      vertexDistances[i] := e;
      ShiftedPlaced(a0, vertexDistances[..], currentSize, i, e);
      currentSize := currentSize + 1;
    }

    /** `System.arraycopy(vertexDistances, i, vertexDistances, i + 1, currentSize - i)`. */
    method ShiftRight(i: int)
      requires 0 <= i <= currentSize < vertexDistances.Length
      modifies vertexDistances
      ensures forall k :: 0 <= k < vertexDistances.Length ==> vertexDistances[k] == if i < k <= currentSize then old(vertexDistances[k - 1]) else old(vertexDistances[k])
    {
      var j := currentSize;
      while j > i
        invariant i <= j <= currentSize
        invariant forall k :: 0 <= k < vertexDistances.Length ==> vertexDistances[k] == if j < k <= currentSize then old(vertexDistances[k - 1]) else old(vertexDistances[k])
      {
        vertexDistances[j] := vertexDistances[j - 1];
        j := j - 1;
      }
    }

    /** `System.arraycopy(vertexDistances, index + 1, vertexDistances, index, currentSize - index - 1)`. */
    method ShiftLeft(index: int)
      requires 0 <= index < currentSize <= vertexDistances.Length
      modifies vertexDistances
      ensures forall k :: 0 <= k < vertexDistances.Length ==> vertexDistances[k] == if index <= k < currentSize - 1 then old(vertexDistances[k + 1]) else old(vertexDistances[k])
    {
      var j := index;
      while j < currentSize - 1
        invariant index <= j <= currentSize - 1
        invariant forall k :: 0 <= k < vertexDistances.Length ==> vertexDistances[k] == if index <= k < j then old(vertexDistances[k + 1]) else old(vertexDistances[k])
      {
        vertexDistances[j] := vertexDistances[j + 1];
        j := j + 1;
      }
    }

    /** `pollSmallest`: removes the last entry and returns its vertex, a
        nearest one, or throws `NoSuchElementException` on an empty
        queue. */
    method PollSmallest() returns (r: Result<Vertex>)
      requires Valid()
      modifies this
      ensures Valid()
      ensures r == if old(Contents()) == [] then Failure(NoSuchElement) else Success(old(Contents())[old(|Contents()|) - 1].vertex)
      ensures r.Success? ==> Contents() == old(Contents())[..old(|Contents()|) - 1]
      ensures r.Success? ==> forall e :: e in old(Contents()) ==> old(Contents())[old(|Contents()|) - 1].distance <= e.distance
      ensures r.Failure? ==> Contents() == old(Contents())
    {
      if IsEmpty() {
        return Failure(NoSuchElement);
      }
      LastIsNearest(Contents());
      currentSize := currentSize - 1;
      return Success(vertexDistances[currentSize].vertex);
    }

    /** `update`: removes the first entry for `vertex` and adds it again at
        `newDistance`, or throws `NoSuchElementException` when `vertex` is
        not queued, changing nothing. The size is unchanged. */
    method Update(vertex: Vertex, newDistance: int) returns (o: Outcome)
      requires Valid()
      modifies this, vertexDistances
      ensures Valid() && |Contents()| == old(|Contents()|)
      ensures o == if IndexOfVertex(old(Contents()), vertex) >= 0 then Pass else Fail(NoSuchElement)
      ensures o.Pass? ==> Contents() == Placed(RemoveAt(old(Contents()), IndexOfVertex(old(Contents()), vertex)), VertexDistance(vertex, newDistance))
      ensures o.Fail? ==> Contents() == old(Contents())
    {
      ghost var s := vertexDistances[..currentSize];
      var index := IndexOf(vertex);
      if index == -1 {
        return Fail(NoSuchElement);
      }
      ShiftLeft(index);
      currentSize := currentSize - 1;
      ShiftedRemoved(old(vertexDistances[..]), vertexDistances[..], currentSize + 1, index);
      RemoveAtDescending(s, index);
      o := Add(vertex, newDistance);
    }

    /** The search loop of `update`: the first slot holding `vertex`, or -1
        when it is not queued. */
    method IndexOf(vertex: Vertex) returns (index: int)
      requires Valid()
      ensures index == IndexOfVertex(Contents(), vertex)
    {
      index := -1;
      var i := 0;
      while i < currentSize
        invariant 0 <= i <= currentSize
        invariant index == -1 ==> forall k :: 0 <= k < i ==> vertexDistances[k].vertex != vertex
        invariant index != -1 ==> index == IndexOfVertex(Contents(), vertex)
      {
        if vertexDistances[i].vertex == vertex {
          index := i;
          break;
        }
        i := i + 1;
      }
    }
  }

  /** `new VertexDistancePriorityQueue(maxSize)`:
      `IllegalArgumentException` when `maxSize <= 0`, otherwise an empty
      queue of that size. */
  method Create(maxSize: int) returns (r: Result<VertexDistancePriorityQueue>)
    ensures r.Failure? <==> maxSize <= 0
    ensures r.Failure? ==> r.error == IllegalArgument
    ensures r.Success? ==> fresh(r.value) && fresh(r.value.vertexDistances) && r.value.Valid()
    ensures r.Success? ==> r.value.maxSize == maxSize && r.value.Contents() == []
  {
    if maxSize <= 0 {
      return Failure(IllegalArgument);
    }
    var q := new VertexDistancePriorityQueue(maxSize);
    return Success(q);
  }
}
