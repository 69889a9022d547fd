/** Prim's algorithm of `PrimMstMain.buildMst`: the tree grows from the
    start vertex, each step by the lightest queued edge into a vertex
    outside it, while the queue keeps, per vertex outside the tree, the
    lightest edge seen into it. */
module PrimMst {
  import opened Java
  import opened Graph
  import opened PrimGraph
  import Q = EdgePriorityQueue

  /** The vertices a tree grown from `start` along `mst` spans: the start
      and the destination of each edge. */
  function Reached(start: Vertex, mst: seq<Edge>): (r: set<Vertex>)
    ensures start in r
    ensures forall i :: 0 <= i < |mst| ==> mst[i].destination in r
    decreases |mst|
  {
    if mst == [] then {start} else Reached(start, mst[..|mst| - 1]) + {mst[|mst| - 1].destination}
  }

  /** `e` is an edge of the graph from a vertex of `tree` into a vertex
      outside it. */
  ghost predicate Crossing(g: PrimView, tree: set<Vertex>, e: Edge)
  {
    e.source in tree && e.source in g.out && e in g.out[e.source] && e.destination !in tree
  }

  /** `e` is crossing, and no edge from `tree` into a vertex outside it is
      lighter. */
  ghost predicate LightestCrossing(g: PrimView, tree: set<Vertex>, e: Edge)
  {
    Crossing(g, tree, e) &&
    forall u, k :: u in tree && u in g.out && 0 <= k < |g.out[u]| && g.out[u][k].destination !in tree ==> e.weight <= g.out[u][k].weight
  }

  /** Every edge of `mst` is a lightest edge out of the vertices reached
      before it: the tree Prim's algorithm grows. */
  ghost predicate Grown(g: PrimView, start: Vertex, mst: seq<Edge>)
  {
    forall i :: 0 <= i < |mst| ==> LightestCrossing(g, Reached(start, mst[..i]), mst[i])
  }

  /** No edge leaves `tree`: the rest of the graph is disconnected from it. */
  ghost predicate Isolated(g: PrimView, tree: set<Vertex>)
  {
    forall u, k :: u in tree && u in g.out && 0 <= k < |g.out[u]| ==> g.out[u][k].destination in tree
  }

  /** A grown tree of `n` edges spans `n + 1` vertices of the graph, and
      each edge joins two of them: it is a spanning tree of what it
      reaches. */
  lemma {:induction false} GrownTree(g: PrimView, start: Vertex, mst: seq<Edge>)
    requires WellFormed(g) && start in g.out && Grown(g, start, mst)
    ensures |Reached(start, mst)| == |mst| + 1 && Reached(start, mst) <= g.out.Keys
    ensures forall i :: 0 <= i < |mst| ==> mst[i].source in Reached(start, mst) && mst[i].destination in Reached(start, mst)
    decreases |mst|
  {
    if mst != [] {
      var n := |mst| - 1;
      GrownPrefix(g, start, mst, n);
      GrownTree(g, start, mst[..n]);
      GrowStep(g, start, mst);
    }
  }

  /** A prefix of a grown tree is grown. */
  lemma GrownPrefix(g: PrimView, start: Vertex, mst: seq<Edge>, n: nat)
    requires Grown(g, start, mst) && n <= |mst|
    ensures Grown(g, start, mst[..n])
  {
    var p := mst[..n];
    forall i | 0 <= i < |p|
      ensures LightestCrossing(g, Reached(start, p[..i]), p[i])
    {
      assert p[..i] == mst[..i];
    }
  }

  /** Adding a crossing edge to a tree spanning its edges' ends gives a
      tree of one more edge over one more vertex. */
  lemma GrowStep(g: PrimView, start: Vertex, mst: seq<Edge>)
    requires WellFormed(g) && mst != [] && Crossing(g, Reached(start, mst[..|mst| - 1]), mst[|mst| - 1])
    requires var p := mst[..|mst| - 1];
      |Reached(start, p)| == |p| + 1 && Reached(start, p) <= g.out.Keys &&
      forall i :: 0 <= i < |p| ==> p[i].source in Reached(start, p) && p[i].destination in Reached(start, p)
    ensures |Reached(start, mst)| == |mst| + 1 && Reached(start, mst) <= g.out.Keys
    ensures forall i :: 0 <= i < |mst| ==> mst[i].source in Reached(start, mst) && mst[i].destination in Reached(start, mst)
  {
    var n := |mst| - 1;
    var p, e := mst[..n], mst[n];
    var before, after := Reached(start, p), Reached(start, mst);
    assert after == before + {e.destination};
    assert e.source in before && e.destination in g.out by {
      var j :| 0 <= j < |g.out[e.source]| && g.out[e.source][j] == e;
    }
    EndsGrow(mst, before, after);
  }

  /** The ends of the edges stay covered as the vertex set grows by the
      ends of one more edge. */
  lemma EndsGrow(mst: seq<Edge>, before: set<Vertex>, after: set<Vertex>)
    requires mst != [] && before <= after
    requires mst[|mst| - 1].source in after && mst[|mst| - 1].destination in after
    requires var p := mst[..|mst| - 1];
      forall i :: 0 <= i < |p| ==> p[i].source in before && p[i].destination in before
    ensures forall i :: 0 <= i < |mst| ==> mst[i].source in after && mst[i].destination in after
  {
    var p := mst[..|mst| - 1];
    forall i | 0 <= i < |mst|
      ensures mst[i].source in after && mst[i].destination in after
    {
      if i < |p| {
        assert mst[i] == p[i];
      }
    }
  }

  /** When the count is exact, a grown tree of `vertexCount - 1` edges
      spans every vertex. */
  lemma Spans(g: PrimView, start: Vertex, mst: seq<Edge>)
    requires WellFormed(g) && start in g.out && Grown(g, start, mst)
    requires |g.out.Keys| == g.vertexCount && |mst| == g.vertexCount - 1
    ensures Reached(start, mst) == g.out.Keys
  {
    GrownTree(g, start, mst);
    var r := Reached(start, mst);
    var keys := g.out.Keys;
    assert r * keys == r && r + keys == keys && r - keys == {};
    assert |keys - r| == 0;
  }

  /** Growing the tree by a lightest crossing edge keeps it grown, and
      reaches the edge's destination too. */
  lemma GrownSnoc(g: PrimView, start: Vertex, mst: seq<Edge>, e: Edge)
    requires Grown(g, start, mst) && LightestCrossing(g, Reached(start, mst), e)
    ensures Grown(g, start, mst + [e])
    ensures Reached(start, mst + [e]) == Reached(start, mst) + {e.destination}
  {
    var t := mst + [e];
    assert t[..|mst|] == mst;
    forall i | 0 <= i < |t|
      ensures LightestCrossing(g, Reached(start, t[..i]), t[i])
    {
      if i < |mst| {
        assert t[..i] == mst[..i] && t[i] == mst[i];
      }
    }
  }

  /** `m` maps each destination in the queue `s` to its one queued edge. */
  ghost predicate Keyed(s: seq<Edge>, m: map<Vertex, Edge>)
  {
    (forall k :: 0 <= k < |s| ==> s[k].destination in m && m[s[k].destination] == s[k]) &&
    (forall v :: v in m ==> m[v].destination == v && m[v] in s) &&
    (forall i, j :: 0 <= i < j < |s| ==> s[i].destination != s[j].destination)
  }

  /** `findEdgeWithDestination` on a keyed queue is the map lookup. */
  lemma KeyedFirstTo(s: seq<Edge>, m: map<Vertex, Edge>, v: Vertex)
    requires Keyed(s, m)
    ensures Q.FirstTo(s, v) == if v in m then Some(m[v]) else None
  {
    var r := Q.FirstTo(s, v);
    if r.Some? {
      var k :| 0 <= k < |s| && s[k] == r.value;
    }
    if v in m {
      assert m[v] in s;
    }
  }

  /** Removing the entry at `i` removes its destination from the map. */
  lemma KeyedRemove(s: seq<Edge>, m: map<Vertex, Edge>, i: int)
    requires Keyed(s, m) && 0 <= i < |s|
    ensures Keyed(Q.RemoveAt(s, i), m - {s[i].destination})
  {
    var r := Q.RemoveAt(s, i);
    var m' := m - {s[i].destination};
    RemovedAt(s, i);
    forall v | v in m'
      ensures m'[v] in r
    {
      var j :| 0 <= j < |s| && s[j] == m[v];
      if j < i {
        assert r[j] == m[v];
      } else {
        assert j != i && r[j - 1] == m[v];
      }
    }
  }

  /** Where each entry lands once the entry at `i` is removed. */
  lemma RemovedAt(s: seq<Edge>, i: int)
    requires 0 <= i < |s|
    ensures |Q.RemoveAt(s, i)| == |s| - 1
    ensures forall k {:trigger Q.RemoveAt(s, i)[k]} :: 0 <= k < |s| - 1 ==> Q.RemoveAt(s, i)[k] == if k < i then s[k] else s[k + 1]
  {
  }

  /** Adding an edge into a destination not yet queued adds it to the map. */
  lemma KeyedAdd(s: seq<Edge>, m: map<Vertex, Edge>, e: Edge)
    requires Keyed(s, m) && e.destination !in m
    ensures Keyed(Q.Placed(s, e), m[e.destination := e])
  {
    PlacedKeys(s, m, e);
    PlacedHolds(s, m, e);
    PlacedDistinct(s, e);
  }

  /** After adding `e`, every entry is the map's edge for its destination. */
  lemma PlacedKeys(s: seq<Edge>, m: map<Vertex, Edge>, e: Edge)
    requires Keyed(s, m) && e.destination !in m
    ensures forall k :: 0 <= k < |Q.Placed(s, e)| ==>
      Q.Placed(s, e)[k].destination in m[e.destination := e] && m[e.destination := e][Q.Placed(s, e)[k].destination] == Q.Placed(s, e)[k]
  {
    var p := Q.Placed(s, e);
    var i := Q.Slot(s, e);
    Q.PlacedAt(s, e);
    forall k | 0 <= k < |p|
      ensures p[k].destination in m[e.destination := e] && m[e.destination := e][p[k].destination] == p[k]
    {
      if k < i {
        assert p[k] == s[k];
      } else if k > i {
        assert p[k] == s[k - 1];
      }
    }
  }

  /** After adding `e`, every edge of the map is queued. */
  lemma PlacedHolds(s: seq<Edge>, m: map<Vertex, Edge>, e: Edge)
    requires Keyed(s, m) && e.destination !in m
    ensures e in Q.Placed(s, e)
    ensures forall v :: v in m ==> m[v] in Q.Placed(s, e)
  {
    var p := Q.Placed(s, e);
    var i := Q.Slot(s, e);
    Q.PlacedAt(s, e);
    assert p[i] == e;
    forall v | v in m
      ensures m[v] in p
    {
      {
        var j :| 0 <= j < |s| && s[j] == m[v];
        if j < i {
          assert p[j] == m[v];
        } else {
          assert p[j + 1] == m[v];
        }
      }
    }
  }

  /** Adding an edge into a new destination keeps the destinations
      distinct. */
  lemma PlacedDistinct(s: seq<Edge>, e: Edge)
    requires forall i, j :: 0 <= i < j < |s| ==> s[i].destination != s[j].destination
    requires forall k :: 0 <= k < |s| ==> s[k].destination != e.destination
    ensures forall a, b :: 0 <= a < b < |Q.Placed(s, e)| ==> Q.Placed(s, e)[a].destination != Q.Placed(s, e)[b].destination
  {
    var p := Q.Placed(s, e);
    var i := Q.Slot(s, e);
    Q.PlacedAt(s, e);
    forall a, b | 0 <= a < b < |p|
      ensures p[a].destination != p[b].destination
    {
      if a < i {
        if b > i {
          assert p[a] == s[a] && p[b] == s[b - 1];
        }
      } else if a > i {
        assert p[a] == s[a - 1] && p[b] == s[b - 1];
      }
    }
  }

  /** `replace(target, e)` for the queued edge `target` into `e`'s
      destination keeps the map in step, `e` now standing for the
      destination. */
  lemma KeyedReplace(s: seq<Edge>, m: map<Vertex, Edge>, target: Edge, e: Edge)
    requires Keyed(s, m) && target in s && target.destination == e.destination
    ensures Keyed(Q.Placed(Q.RemoveAt(s, Q.IndexOf(s, target)), e), m[e.destination := e])
  {
    var i := Q.IndexOf(s, target);
    KeyedRemove(s, m, i);
    var m' := m - {target.destination};
    KeyedAdd(Q.RemoveAt(s, i), m', e);
    assert m'[e.destination := e] == m[e.destination := e];
  }

  /** A keyed queue holds one edge per key. */
  lemma {:induction false} KeyedSize(s: seq<Edge>, m: map<Vertex, Edge>)
    requires Keyed(s, m)
    ensures |s| == |m.Keys|
    decreases |s|
  {
    if s == [] {
      assert m.Keys == {};
    } else {
      var n := |s| - 1;
      KeyedRemove(s, m, n);
      assert Q.RemoveAt(s, n) == s[..n];
      KeyedSize(s[..n], m - {s[n].destination});
      assert (m - {s[n].destination}).Keys == m.Keys - {s[n].destination};
    }
  }

  /** Every queued edge leaves `tree` into a vertex outside `excluded`. */
  ghost predicate Frontier(g: PrimView, tree: set<Vertex>, excluded: set<Vertex>, m: map<Vertex, Edge>)
  {
    forall v :: v in m ==> v !in excluded && m[v].destination == v && Crossing(g, tree, m[v])
  }

  /** Every edge from `from` into a vertex outside `excluded` has a queued
      edge into the same vertex, no heavier. */
  ghost predicate Covers(g: PrimView, from: set<Vertex>, excluded: set<Vertex>, m: map<Vertex, Edge>)
  {
    forall u, k :: u in from && u in g.out && 0 <= k < |g.out[u]| && g.out[u][k].destination !in excluded ==>
      g.out[u][k].destination in m && m[g.out[u][k].destination].weight <= g.out[u][k].weight
  }

  /** The same for the first `n` edges of `u`. */
  ghost predicate CoversUpTo(g: PrimView, u: Vertex, n: int, excluded: set<Vertex>, m: map<Vertex, Edge>)
    requires u in g.out
  {
    forall k :: 0 <= k < n && k < |g.out[u]| && g.out[u][k].destination !in excluded ==>
      g.out[u][k].destination in m && m[g.out[u][k].destination].weight <= g.out[u][k].weight
  }

  /** The queue at the head of the outer loop: `tree` is `inTreeSet` and
      `current` the vertex about to join it. */
  ghost predicate Waiting(g: PrimView, tree: set<Vertex>, current: Vertex, m: map<Vertex, Edge>)
  {
    Frontier(g, tree, tree + {current}, m) && Covers(g, tree, tree + {current}, m)
  }

  /** The queue after the first `n` edges of `current` have been scanned,
      `current` having joined the tree `before`. */
  ghost predicate Scanning(g: PrimView, before: set<Vertex>, current: Vertex, n: int, m: map<Vertex, Edge>)
    requires current in g.out
  {
    Frontier(g, before + {current}, before + {current}, m) && Covers(g, before, before + {current}, m) &&
    CoversUpTo(g, current, n, before + {current}, m)
  }

  /** Once `current` joins the tree, the queue covers the edges from the
      old tree and none of `current`'s yet. */
  lemma StartScan(g: PrimView, before: set<Vertex>, current: Vertex, m: map<Vertex, Edge>)
    requires current in g.out && Waiting(g, before, current, m)
    ensures Scanning(g, before, current, 0, m)
  {
    var tree := before + {current};
    forall v | v in m
      ensures v !in tree && m[v].destination == v && Crossing(g, tree, m[v])
    {
      assert Crossing(g, before, m[v]);
    }
  }

  /** Queuing edge `k` of `current` into a vertex outside the tree, when no
      edge into it is queued or the queued one is heavier, keeps the queue
      covering the scanned edges, edge `k` included. */
  lemma Improve(g: PrimView, before: set<Vertex>, current: Vertex, k: int, m: map<Vertex, Edge>, e: Edge)
    requires WellFormed(g) && current in g.out && 0 <= k < |g.out[current]| && e == g.out[current][k]
    requires e.destination !in before + {current} && (e.destination in m ==> m[e.destination].weight > e.weight)
    requires Scanning(g, before, current, k, m)
    ensures Scanning(g, before, current, k + 1, m[e.destination := e])
  {
    var tree := before + {current};
    var m' := m[e.destination := e];
    assert Crossing(g, tree, e);
    forall u, j | u in before && u in g.out && 0 <= j < |g.out[u]| && g.out[u][j].destination !in tree
      ensures g.out[u][j].destination in m' && m'[g.out[u][j].destination].weight <= g.out[u][j].weight
    {
      assert g.out[u][j].destination in m;
    }
    forall j | 0 <= j < k + 1 && j < |g.out[current]| && g.out[current][j].destination !in tree
      ensures g.out[current][j].destination in m' && m'[g.out[current][j].destination].weight <= g.out[current][j].weight
    {
      if j < k {
        assert g.out[current][j].destination in m;
      }
    }
  }

  /** Skipping edge `k` of `current`, into the tree or into a vertex whose
      queued edge is no heavier, keeps the queue covering the scanned
      edges. */
  lemma Keep(g: PrimView, before: set<Vertex>, current: Vertex, k: int, m: map<Vertex, Edge>)
    requires current in g.out && 0 <= k < |g.out[current]| && Scanning(g, before, current, k, m)
    requires var e := g.out[current][k]; e.destination in before + {current} || (e.destination in m && m[e.destination].weight <= e.weight)
    ensures Scanning(g, before, current, k + 1, m)
  {
    var tree := before + {current};
    forall j | 0 <= j < k + 1 && j < |g.out[current]| && g.out[current][j].destination !in tree
      ensures g.out[current][j].destination in m && m[g.out[current][j].destination].weight <= g.out[current][j].weight
    {
    }
  }

  /** Once all of `current`'s edges are scanned, the queue covers every
      edge leaving the grown tree. */
  lemma EndScan(g: PrimView, before: set<Vertex>, current: Vertex, m: map<Vertex, Edge>)
    requires current in g.out && Scanning(g, before, current, |g.out[current]|, m)
    ensures Covers(g, before + {current}, before + {current}, m)
  {
    var tree := before + {current};
    forall u, k | u in tree && u in g.out && 0 <= k < |g.out[u]| && g.out[u][k].destination !in tree
      ensures g.out[u][k].destination in m && m[g.out[u][k].destination].weight <= g.out[u][k].weight
    {
      if u != current {
        assert u in before;
      }
    }
  }

  /** With a vertex of the graph not yet queued, fewer edges are queued
      than the graph has vertices. */
  lemma Room(g: PrimView, tree: set<Vertex>, m: map<Vertex, Edge>, n: Vertex)
    requires WellFormed(g) && Frontier(g, tree, tree, m) && n in g.out && n !in m
    ensures |m.Keys| < |g.out.Keys|
  {
    var a := m.Keys + {n};
    var keys := g.out.Keys;
    forall v | v in m
      ensures v in keys
    {
      var e := m[v];
      var j :| 0 <= j < |g.out[e.source]| && g.out[e.source][j] == e;
    }
    assert a * keys == a && a + keys == keys && a - keys == {};
  }

  /** Polling the lightest queued edge: it is a lightest edge leaving the
      tree, and the rest of the queue waits for its destination to join. */
  lemma PollStep(g: PrimView, tree: set<Vertex>, s: seq<Edge>, m: map<Vertex, Edge>)
    requires Keyed(s, m) && Q.Descending(s) && s != []
    requires Frontier(g, tree, tree, m) && Covers(g, tree, tree, m)
    ensures LightestCrossing(g, tree, s[|s| - 1])
    ensures Keyed(s[..|s| - 1], m - {s[|s| - 1].destination})
    ensures Waiting(g, tree, s[|s| - 1].destination, m - {s[|s| - 1].destination})
  {
    var n := |s| - 1;
    var e := s[n];
    KeyedRemove(s, m, n);
    assert Q.RemoveAt(s, n) == s[..n];
    Q.LastIsLightest(s);
    assert Crossing(g, tree, m[e.destination]);
    forall u, k | u in tree && u in g.out && 0 <= k < |g.out[u]| && g.out[u][k].destination !in tree
      ensures e.weight <= g.out[u][k].weight
    {
      assert m[g.out[u][k].destination] in s;
    }
  }

  /** An empty queue covering every edge out of the tree means no edge
      leaves it. */
  lemma NoneLeaves(g: PrimView, tree: set<Vertex>, m: map<Vertex, Edge>)
    requires Keyed([], m) && Covers(g, tree, tree, m)
    ensures Isolated(g, tree)
  {
    forall u, k | u in tree && u in g.out && 0 <= k < |g.out[u]|
      ensures g.out[u][k].destination in tree
    {
    }
  }

  /** The scan of `currentVertex`'s edges: an edge into a vertex outside
      the tree is queued when no edge into that vertex is, and replaces the
      queued one when lighter; `add` on a full queue throws
      `IllegalStateException`, which only a capacity below the vertex
      count allows. */
  method ScanEdges(g: PrimView, pQueue: Q.EdgePriorityQueue, tree: set<Vertex>, current: Vertex, ghost before: set<Vertex>, ghost m: map<Vertex, Edge>)
    returns (o: Outcome, ghost m': map<Vertex, Edge>)
    requires WellFormed(g) && current in g.out && tree == before + {current}
    requires pQueue.Valid() && Keyed(pQueue.Contents(), m) && Scanning(g, before, current, 0, m)
    modifies pQueue, pQueue.edges
    ensures pQueue.Valid()
    ensures o.Pass? ==> Keyed(pQueue.Contents(), m') && Frontier(g, tree, tree, m') && Covers(g, tree, tree, m')
    ensures o.Fail? ==> o.error == IllegalState && pQueue.maxSize < |g.out.Keys|
  {
    var edges := g.out[current];
    m' := m;
    for k := 0 to |edges|
      invariant pQueue.Valid() && Keyed(pQueue.Contents(), m') && Scanning(g, before, current, k, m')
    {
      var currentEdge := edges[k];
      var neighbour := currentEdge.destination;
      if neighbour !in tree {
        var pqEdge := pQueue.FindEdgeWithDestination(neighbour);
        KeyedFirstTo(pQueue.Contents(), m', neighbour);
        if pqEdge.Some? {
          if pqEdge.value.weight > currentEdge.weight {
            ghost var s := pQueue.Contents();
            var replaced := pQueue.Replace(pqEdge.value, currentEdge);
            KeyedReplace(s, m', pqEdge.value, currentEdge);
            Improve(g, before, current, k, m', currentEdge);
            m' := m'[neighbour := currentEdge];
          } else {
            Keep(g, before, current, k, m');
          }
        } else {
          ghost var s := pQueue.Contents();
          KeyedSize(s, m');
          Room(g, tree, m', neighbour);
          var added := pQueue.Add(currentEdge);
          if added.Fail? {
            return added, m';
          }
          KeyedAdd(s, m', currentEdge);
          Improve(g, before, current, k, m', currentEdge);
          m' := m'[neighbour := currentEdge];
        }
      } else {
        Keep(g, before, current, k, m');
      }
    }
    EndScan(g, before, current, m');
    return Pass, m';
  }

  /** One round of `buildMst`'s loop: `currentVertex` joins the tree, its
      edges are scanned, and the lightest queued edge is polled; an empty
      queue afterwards throws `IllegalStateException`, as does an
      overflowing `add`. */
  method Grow(g: PrimView, pQueue: Q.EdgePriorityQueue, inTreeSet: set<Vertex>, currentVertex: Vertex, ghost m: map<Vertex, Edge>)
    returns (o: Outcome, inTreeSet': set<Vertex>, edge: Edge, ghost m': map<Vertex, Edge>)
    requires WellFormed(g) && pQueue.Valid() && currentVertex in g.out
    requires Keyed(pQueue.Contents(), m) && Waiting(g, inTreeSet, currentVertex, m)
    modifies pQueue, pQueue.edges
    ensures pQueue.Valid() && inTreeSet' == inTreeSet + {currentVertex}
    ensures o.Fail? ==> o.error == IllegalState && (pQueue.maxSize < |g.out.Keys| || Isolated(g, inTreeSet'))
    ensures o.Pass? ==> LightestCrossing(g, inTreeSet', edge) && edge.destination in g.out
    ensures o.Pass? ==> Keyed(pQueue.Contents(), m') && Waiting(g, inTreeSet', edge.destination, m')
  {
    inTreeSet' := inTreeSet + {currentVertex};
    StartScan(g, inTreeSet, currentVertex, m);
    o, m' := ScanEdges(g, pQueue, inTreeSet', currentVertex, inTreeSet, m);
    if o.Fail? {
      return o, inTreeSet', Edge(currentVertex, currentVertex, 0), m';
    }
    if pQueue.IsEmpty() {
      NoneLeaves(g, inTreeSet', m');
      return Fail(IllegalState), inTreeSet', Edge(currentVertex, currentVertex, 0), m';
    }
    ghost var s := pQueue.Contents();
    var polled := pQueue.PollSmallest();
    edge := polled.value;
    PollStep(g, inTreeSet', s, m');
    m' := m' - {edge.destination};
  }

  /** `buildMst`: `IllegalArgumentException` for a start vertex outside the
      graph, `IllegalStateException` for a vertex count below one;
      otherwise `vertexCount - 1` edges, each a lightest edge out of the
      vertices reached before it. `IllegalStateException` otherwise means
      that, when the count covers the vertices, a set of fewer than
      `vertexCount` vertices around the start has no edge leaving it: the
      graph is disconnected (or, for the matrix graph, overcounted); the
      queue never overflows. */
  method BuildMst(g: PrimView, startVertex: Vertex) returns (r: Result<seq<Edge>>, ghost tree: set<Vertex>)
    requires WellFormed(g)
    ensures r == Failure(IllegalArgument) <==> startVertex !in g.out
    ensures startVertex in g.out && g.vertexCount < 1 ==> r == Failure(IllegalState)
    ensures r.Success? || r == Failure(IllegalArgument) || r == Failure(IllegalState)
    ensures r.Success? ==> |r.value| == g.vertexCount - 1 && Grown(g, startVertex, r.value)
    ensures r == Failure(IllegalState) && startVertex in g.out && 1 <= g.vertexCount && Counted(g) ==>
      startVertex in tree && tree <= g.out.Keys && |tree| < g.vertexCount && Isolated(g, tree)
  {
    if startVertex !in g.out {
      return Failure(IllegalArgument), {};
    }
    var inTreeSet: set<Vertex> := {};
    var mst: seq<Edge> := [];
    var vertexCount := g.vertexCount;
    if vertexCount < 1 {
      return Failure(IllegalState), {};
    }
    var pQueue := new Q.EdgePriorityQueue(vertexCount);
    var currentVertex := startVertex;
    ghost var m: map<Vertex, Edge> := map[];
    while |inTreeSet| < vertexCount - 1
      invariant fresh(pQueue) && fresh(pQueue.edges) && pQueue.Valid() && pQueue.maxSize == vertexCount
      invariant currentVertex in g.out && currentVertex !in inTreeSet && inTreeSet <= g.out.Keys
      invariant Reached(startVertex, mst) == inTreeSet + {currentVertex} && |inTreeSet| == |mst| <= vertexCount - 1
      invariant Grown(g, startVertex, mst)
      invariant Keyed(pQueue.Contents(), m) && Waiting(g, inTreeSet, currentVertex, m)
      decreases vertexCount - |inTreeSet|
    {
      var o: Outcome;
      var edge: Edge;
      o, inTreeSet, edge, m := Grow(g, pQueue, inTreeSet, currentVertex, m);
      if o.Fail? {
        return Failure(IllegalState), inTreeSet;
      }
      GrownSnoc(g, startVertex, mst, edge);
      currentVertex := edge.destination;
      mst := mst + [edge];
    }
    return Success(mst), inTreeSet;
  }
}
