/** Breadth-first traversal: the vertex at the head of the queue is
    removed, and its unvisited neighbours are visited and queued, in list
    order, until none is left. */
module BfsTraversal {
  import opened Java
  import opened Graph
  import opened ExplorableGraph
  import opened BaseGraphTraversal

  /** The outcome of running the search with `head` (when present) being
      expanded and `queue` waiting behind it, with `visited` and `path` so
      far: the final path, or the exception raised when an expanded vertex
      is outside the graph. */
  function Bfs(g: Explorable, head: Option<Vertex>, queue: seq<Vertex>, visited: set<Vertex>, path: seq<Vertex>): Result<seq<Vertex>>
    requires Closed(g)
    decreases Unseen(g, visited), |queue|, if head.Some? then 1 else 0
  {
    match head
    case None =>
      if queue == [] then Success(path) else Bfs(g, Some(queue[0]), queue[1..], visited, path)
    case Some(h) =>
      if h !in g.adj then Failure(g.missing)
      else match FirstUnvisited(g.adj[h], visited)
        case None => Bfs(g, None, queue, visited, path)
        case Some(n) => SeeNew(g, visited, n); Bfs(g, head, queue + [n], visited + {n}, path + [n])
  }

  /** `traverse(graph, startVertex)` from the state `visited`, `path`:
      `startVertex` is visited and queued, then the loop runs. */
  function Traversal(g: Explorable, startVertex: Vertex, visited: set<Vertex>, path: seq<Vertex>): Result<seq<Vertex>>
    requires Closed(g)
  {
    Bfs(g, None, [startVertex], visited + {startVertex}, path + [startVertex])
  }

  /** With every pending vertex in the graph the search ends normally. */
  lemma {:induction false} BfsSucceeds(g: Explorable, head: Option<Vertex>, queue: seq<Vertex>, visited: set<Vertex>, path: seq<Vertex>)
    requires Closed(g) && (head.Some? ==> head.value in g.adj) && forall k :: 0 <= k < |queue| ==> queue[k] in g.adj
    ensures Bfs(g, head, queue, visited, path).Success?
    decreases Unseen(g, visited), |queue|, if head.Some? then 1 else 0
  {
    match head
    case None =>
      if queue != [] {
        BfsSucceeds(g, Some(queue[0]), queue[1..], visited, path);
      }
    case Some(h) =>
      match FirstUnvisited(g.adj[h], visited)
      case None =>
        BfsSucceeds(g, None, queue, visited, path);
      case Some(n) =>
        SeeNew(g, visited, n);
        BfsSucceeds(g, head, queue + [n], visited + {n}, path + [n]);
  }

  /** The search only appends to the path. */
  lemma {:induction false} BfsExtends(g: Explorable, head: Option<Vertex>, queue: seq<Vertex>, visited: set<Vertex>, path: seq<Vertex>)
    requires Closed(g) && Bfs(g, head, queue, visited, path).Success?
    ensures |path| <= |Bfs(g, head, queue, visited, path).value| && Bfs(g, head, queue, visited, path).value[..|path|] == path
    decreases Unseen(g, visited), |queue|, if head.Some? then 1 else 0
  {
    match head
    case None =>
      if queue != [] {
        BfsExtends(g, Some(queue[0]), queue[1..], visited, path);
      }
    case Some(h) =>
      match FirstUnvisited(g.adj[h], visited)
      case None =>
        BfsExtends(g, None, queue, visited, path);
      case Some(n) =>
        SeeNew(g, visited, n);
        BfsExtends(g, head, queue + [n], visited + {n}, path + [n]);
        assert (path + [n])[..|path|] == path;
  }

  /** The search queues and visits only unvisited vertices, so a path
      without repeats stays without repeats. */
  lemma {:induction false} BfsDistinct(g: Explorable, head: Option<Vertex>, queue: seq<Vertex>, visited: set<Vertex>, path: seq<Vertex>)
    requires Closed(g) && Tracks(visited, path) && Distinct(path) && Bfs(g, head, queue, visited, path).Success?
    ensures Distinct(Bfs(g, head, queue, visited, path).value)
    decreases Unseen(g, visited), |queue|, if head.Some? then 1 else 0
  {
    match head
    case None =>
      if queue != [] {
        BfsDistinct(g, Some(queue[0]), queue[1..], visited, path);
      }
    case Some(h) =>
      match FirstUnvisited(g.adj[h], visited)
      case None =>
        BfsDistinct(g, None, queue, visited, path);
      case Some(n) =>
        SeeNew(g, visited, n);
        VisitDistinct(visited, path, n);
        BfsDistinct(g, head, queue + [n], visited + {n}, path + [n]);
  }

  /** Every pending vertex is reachable from `s`, so every vertex the
      search appends is too. */
  lemma {:induction false} BfsSound(g: Explorable, s: Vertex, head: Option<Vertex>, queue: seq<Vertex>, visited: set<Vertex>, path: seq<Vertex>, from: int)
    requires Closed(g) && 0 <= from <= |path| && Bfs(g, head, queue, visited, path).Success?
    requires (head.Some? ==> Reaches(g, s, head.value)) && forall k :: 0 <= k < |queue| ==> Reaches(g, s, queue[k])
    requires forall i :: from <= i < |path| ==> Reaches(g, s, path[i])
    ensures forall i :: from <= i < |Bfs(g, head, queue, visited, path).value| ==> Reaches(g, s, Bfs(g, head, queue, visited, path).value[i])
    decreases Unseen(g, visited), |queue|, if head.Some? then 1 else 0
  {
    match head
    case None =>
      if queue != [] {
        BfsSound(g, s, Some(queue[0]), queue[1..], visited, path, from);
      }
    case Some(h) =>
      match FirstUnvisited(g.adj[h], visited)
      case None =>
        BfsSound(g, s, None, queue, visited, path, from);
      case Some(n) =>
        SeeNew(g, visited, n);
        ReachesNext(g, s, h, n);
        BfsSound(g, s, head, queue + [n], visited + {n}, path + [n], from);
  }

  /** Every visited vertex that is not pending is in the graph and has all
      its neighbours visited. */
  ghost predicate Explored(g: Explorable, head: Option<Vertex>, queue: seq<Vertex>, visited: set<Vertex>)
  {
    forall v :: v in visited && v !in queue && head != Some(v) ==>
      v in g.adj && forall k :: 0 <= k < |g.adj[v]| ==> g.adj[v][k] in visited
  }

  /** Every queued vertex is visited, and a vertex stops being pending only
      once its neighbours are all visited, so when nothing is pending every
      neighbour of a path vertex is on the path. */
  lemma {:induction false} BfsComplete(g: Explorable, head: Option<Vertex>, queue: seq<Vertex>, visited: set<Vertex>, path: seq<Vertex>)
    requires Closed(g) && Tracks(visited, path) && Bfs(g, head, queue, visited, path).Success?
    requires (head.Some? ==> head.value in visited) && (forall k :: 0 <= k < |queue| ==> queue[k] in visited)
    requires Explored(g, head, queue, visited)
    ensures Saturated(g, set v | v in Bfs(g, head, queue, visited, path).value)
    decreases Unseen(g, visited), |queue|, if head.Some? then 1 else 0
  {
    match head
    case None =>
      if queue == [] {
        assert forall v :: v in path <==> v in visited;
      } else {
        var queue' := queue[1..];
        assert forall k :: 0 <= k < |queue'| ==> queue'[k] == queue[k + 1];
        assert forall v :: v in queue && v !in queue' ==> v == queue[0];
        BfsComplete(g, Some(queue[0]), queue', visited, path);
      }
    case Some(h) =>
      match FirstUnvisited(g.adj[h], visited)
      case None =>
        BfsComplete(g, None, queue, visited, path);
      case Some(n) =>
        SeeNew(g, visited, n);
        var queue' := queue + [n];
        assert forall k :: 0 <= k < |queue| ==> queue'[k] == queue[k];
        assert forall v :: v in queue ==> v in queue';
        BfsComplete(g, head, queue', visited + {n}, path + [n]);
  }

  /** The vertices at most `k` edges away from `s`. */
  ghost function Ball(g: Explorable, s: Vertex, k: nat): set<Vertex>
  {
    if k == 0 then {s} else Ball(g, s, k - 1) + NextTo(g, Ball(g, s, k - 1))
  }

  /** The neighbours of the vertices of `S`. */
  ghost function NextTo(g: Explorable, S: set<Vertex>): set<Vertex>
  {
    set u, v | u in S && u in g.adj && v in g.adj[u] :: v
  }

  /** `u` is no farther from `s` than `v`: every ball around `s` that
      holds `v` holds `u`. */
  ghost predicate NoFarther(g: Explorable, s: Vertex, u: Vertex, v: Vertex)
  {
    forall k: nat :: v in Ball(g, s, k) ==> u in Ball(g, s, k)
  }

  /** `x` is at most one edge farther from `s` than `f`. */
  ghost predicate OneMore(g: Explorable, s: Vertex, f: Vertex, x: Vertex)
  {
    forall k: nat :: f in Ball(g, s, k) ==> x in Ball(g, s, k + 1)
  }

  /** The hop distances from `s` along `p` never decrease. */
  ghost predicate HopOrdered(g: Explorable, s: Vertex, p: seq<Vertex>)
  {
    forall i, j :: 0 <= i < j < |p| ==> NoFarther(g, s, p[i], p[j])
  }

  /** The vertex being expanded, then the queue. */
  function Pending(head: Option<Vertex>, queue: seq<Vertex>): seq<Vertex>
  {
    (if head.Some? then [head.value] else []) + queue
  }

  /** The layers of the search from `s`: the path and the pending
      vertices are in hop order, every visited vertex is at most one edge
      farther than the front `f` of the pending ones, and every vertex
      nearer than `f` is visited and no longer pending. */
  ghost predicate Layered(g: Explorable, s: Vertex, head: Option<Vertex>, queue: seq<Vertex>, visited: set<Vertex>,
                          path: seq<Vertex>)
  {
    var pend := Pending(head, queue);
    s in visited && HopOrdered(g, s, path) && HopOrdered(g, s, pend) &&
    (forall v :: v in pend ==> v in visited) &&
    (pend != [] ==> forall x :: x in visited ==> OneMore(g, s, pend[0], x)) &&
    (pend != [] ==> forall v, k: nat :: v in Ball(g, s, k) && pend[0] !in Ball(g, s, k) ==> v in visited && v !in pend)
  }

  /** `s` is in every ball around it. */
  lemma {:induction false} CentreIn(g: Explorable, s: Vertex, k: nat)
    ensures s in Ball(g, s, k)
  {
    if k > 0 {
      CentreIn(g, s, k - 1);
    }
  }

  /** A neighbour of a vertex of a ball is in the next ball. */
  lemma BallEdge(g: Explorable, s: Vertex, k: nat, u: Vertex, v: Vertex)
    requires u in Ball(g, s, k) && u in g.adj && v in g.adj[u]
    ensures v in Ball(g, s, k + 1)
  {
    assert v in NextTo(g, Ball(g, s, k));
  }

  /** A vertex of a ball other than `s` is a neighbour of a vertex of
      the ball just inside it. */
  lemma {:induction false} BallBack(g: Explorable, s: Vertex, k: nat, v: Vertex) returns (u: Vertex)
    requires k > 0 && v in Ball(g, s, k)
    ensures v == s || (u in Ball(g, s, k - 1) && u in g.adj && v in g.adj[u])
  {
    u := v;
    if v in NextTo(g, Ball(g, s, k - 1)) {
      var w, x :| w in Ball(g, s, k - 1) && w in g.adj && x in g.adj[w] && x == v;
      u := w;
    } else if k > 1 {
      u := BallBack(g, s, k - 1, v);
      assert Ball(g, s, k - 2) <= Ball(g, s, k - 1);
    }
  }

  /** A visited vertex that is no longer pending has all its neighbours
      visited. */
  lemma ExploredNeighbour(g: Explorable, head: Option<Vertex>, queue: seq<Vertex>, visited: set<Vertex>, u: Vertex, v: Vertex)
    requires Explored(g, head, queue, visited) && u in visited && u !in Pending(head, queue)
    requires u in g.adj && v in g.adj[u]
    ensures v in visited
  {
    assert u !in queue && head != Some(u);
    var i :| 0 <= i < |g.adj[u]| && g.adj[u][i] == v;
  }

  /** The search starts in layer order. */
  lemma LayeredStart(g: Explorable, s: Vertex)
    ensures Layered(g, s, None, [s], {s}, [s])
  {
    assert Pending(None, [s]) == [s];
    forall k: nat | s in Ball(g, s, k) ensures s in Ball(g, s, k + 1) {
      CentreIn(g, s, k + 1);
    }
    forall v, k: nat | v in Ball(g, s, k) && s !in Ball(g, s, k) ensures false {
      CentreIn(g, s, k);
    }
  }

  /** Taking the head of the queue keeps the pending vertices. */
  lemma LayeredPop(g: Explorable, s: Vertex, queue: seq<Vertex>, visited: set<Vertex>, path: seq<Vertex>)
    requires queue != [] && Layered(g, s, None, queue, visited, path) && Explored(g, None, queue, visited)
    ensures Layered(g, s, Some(queue[0]), queue[1..], visited, path) && Explored(g, Some(queue[0]), queue[1..], visited)
  {
    PopSplits(queue);
  }

  /** The head and the rest of a queue are the queue. */
  lemma PopSplits(queue: seq<Vertex>)
    requires queue != []
    ensures Pending(Some(queue[0]), queue[1..]) == queue == Pending(None, queue)
    ensures forall v :: v in queue && v != queue[0] ==> v in queue[1..]
  {
    assert [queue[0]] + queue[1..] == queue;
  }

  /** A neighbour `n` of the head `h` that is not visited yet lies one
      edge farther than `h`: every ball holding it holds `h` one layer
      inside. */
  lemma NewIsFarther(g: Explorable, s: Vertex, h: Vertex, queue: seq<Vertex>, visited: set<Vertex>, path: seq<Vertex>,
                     n: Vertex, k: nat)
    requires Layered(g, s, Some(h), queue, visited, path) && Explored(g, Some(h), queue, visited)
    requires n !in visited && n in Ball(g, s, k)
    ensures k > 0 && h in Ball(g, s, k - 1)
  {
    var pend := Pending(Some(h), queue);
    assert pend[0] == h;
    if k == 0 {
      assert false;
    } else if h !in Ball(g, s, k - 1) {
      var u := BallBack(g, s, k, n);
      if n != s {
        assert u in visited && u !in pend;
        ExploredNeighbour(g, Some(h), queue, visited, u, n);
      }
    }
  }

  /** Visiting and queueing the unvisited neighbour `n` of the head `h`
      keeps the layers. */
  lemma LayeredSee(g: Explorable, s: Vertex, h: Vertex, queue: seq<Vertex>, visited: set<Vertex>, path: seq<Vertex>,
                   n: Vertex)
    requires Tracks(visited, path) && Layered(g, s, Some(h), queue, visited, path) && Explored(g, Some(h), queue, visited)
    requires h in g.adj && n in g.adj[h] && n !in visited
    ensures Layered(g, s, Some(h), queue + [n], visited + {n}, path + [n])
    ensures Explored(g, Some(h), queue + [n], visited + {n}) && Tracks(visited + {n}, path + [n])
  {
    var queue' := queue + [n];
    assert forall k :: 0 <= k < |queue| ==> queue'[k] == queue[k];
    assert forall v :: v in queue ==> v in queue';
    var pend := Pending(Some(h), queue);
    var pend' := Pending(Some(h), queue + [n]);
    assert pend' == pend + [n];
    forall x | x in visited
      ensures NoFarther(g, s, x, n)
    {
      forall k: nat | n in Ball(g, s, k)
        ensures x in Ball(g, s, k)
      {
        NewIsFarther(g, s, h, queue, visited, path, n, k);
        assert OneMore(g, s, pend[0], x);
        assert x in Ball(g, s, k - 1 + 1);
      }
    }
    var path' := path + [n];
    forall i, j | 0 <= i < j < |path'|
      ensures NoFarther(g, s, path'[i], path'[j])
    {
      if j == |path| {
        assert path'[i] == path[i] && path[i] in visited;
      } else {
        assert path'[i] == path[i] && path'[j] == path[j];
      }
    }
    forall i, j | 0 <= i < j < |pend'|
      ensures NoFarther(g, s, pend'[i], pend'[j])
    {
      if j == |pend| {
        assert pend'[i] == pend[i] && pend[i] in visited;
      } else {
        assert pend'[i] == pend[i] && pend'[j] == pend[j];
      }
    }
    forall x | x in visited + {n}
      ensures OneMore(g, s, pend'[0], x)
    {
      if x == n {
        forall k: nat | h in Ball(g, s, k) ensures n in Ball(g, s, k + 1) {
          BallEdge(g, s, k, h, n);
        }
      } else {
        assert OneMore(g, s, pend[0], x);
      }
    }
  }

  /** Once the head `h` has no unvisited neighbour, the queue alone is in
      layer order. */
  lemma LayeredDone(g: Explorable, s: Vertex, h: Vertex, queue: seq<Vertex>, visited: set<Vertex>, path: seq<Vertex>)
    requires Layered(g, s, Some(h), queue, visited, path) && Explored(g, Some(h), queue, visited)
    requires h in g.adj && forall k :: 0 <= k < |g.adj[h]| ==> g.adj[h][k] in visited
    ensures Layered(g, s, None, queue, visited, path) && Explored(g, None, queue, visited)
  {
    var pend := Pending(Some(h), queue);
    assert pend == [h] + queue && Pending(None, queue) == queue;
    forall i, j | 0 <= i < j < |queue|
      ensures NoFarther(g, s, queue[i], queue[j])
    {
      assert queue[i] == pend[i + 1] && queue[j] == pend[j + 1];
    }
    if queue != [] {
      var f := queue[0];
      assert NoFarther(g, s, h, f) by {
        assert pend[0] == h && pend[1] == f;
      }
      forall x | x in visited
        ensures OneMore(g, s, f, x)
      {
        assert OneMore(g, s, pend[0], x);
      }
      forall v, k: nat | v in Ball(g, s, k) && f !in Ball(g, s, k)
        ensures v in visited && v !in queue
      {
        LayerBelow(g, s, h, queue, visited, path, v, k);
      }
    }
  }

  /** The step of `LayeredDone` for one vertex `v` nearer than the new
      front `queue[0]`. */
  lemma LayerBelow(g: Explorable, s: Vertex, h: Vertex, queue: seq<Vertex>, visited: set<Vertex>, path: seq<Vertex>,
                   v: Vertex, k: nat)
    requires Layered(g, s, Some(h), queue, visited, path) && Explored(g, None, queue, visited)
    requires queue != [] && v in Ball(g, s, k) && queue[0] !in Ball(g, s, k)
    requires NoFarther(g, s, h, queue[0]) && forall i, j :: 0 <= i < j < |queue| ==> NoFarther(g, s, queue[i], queue[j])
    ensures v in visited && v !in queue
  {
    var pend := Pending(Some(h), queue);
    assert pend[0] == h && pend == [h] + queue;
    if h !in Ball(g, s, k) {
      assert v in visited && v !in pend;
    } else {
      if k > 0 && v != s {
        var u := BallBack(g, s, k, v);
        assert OneMore(g, s, pend[0], queue[0]);
        assert h !in Ball(g, s, k - 1);
        assert u in visited && u !in pend;
        assert u !in queue;
        ExploredNeighbour(g, None, queue, visited, u, v);
      }
    }
  }

  /** The search keeps its layers, so the path it returns is in hop
      order. */
  lemma {:induction false} BfsLayered(g: Explorable, s: Vertex, head: Option<Vertex>, queue: seq<Vertex>,
                                      visited: set<Vertex>, path: seq<Vertex>)
    requires Closed(g) && Tracks(visited, path) && Bfs(g, head, queue, visited, path).Success?
    requires Explored(g, head, queue, visited) && Layered(g, s, head, queue, visited, path)
    ensures HopOrdered(g, s, Bfs(g, head, queue, visited, path).value)
    decreases Unseen(g, visited), |queue|, if head.Some? then 1 else 0
  {
    match head
    case None =>
      if queue != [] {
        LayeredPop(g, s, queue, visited, path);
        BfsLayered(g, s, Some(queue[0]), queue[1..], visited, path);
      }
    case Some(h) =>
      match FirstUnvisited(g.adj[h], visited)
      case None =>
        LayeredDone(g, s, h, queue, visited, path);
        BfsLayered(g, s, None, queue, visited, path);
      case Some(n) =>
        SeeNew(g, visited, n);
        LayeredSee(g, s, h, queue, visited, path, n);
        BfsLayered(g, s, head, queue + [n], visited + {n}, path + [n]);
  }

  /** From a fresh state the traversal ends normally exactly when the start
      vertex is in the graph; the path then starts with the start vertex,
      has no repeats, and holds exactly the vertices reachable from it. */
  lemma TraversalFromFresh(g: Explorable, startVertex: Vertex)
    requires Closed(g)
    ensures Traversal(g, startVertex, {}, []).Success? <==> startVertex in g.adj
    ensures Traversal(g, startVertex, {}, []).Success? ==>
      var p := Traversal(g, startVertex, {}, []).value;
      |p| > 0 && p[0] == startVertex && Distinct(p) && (forall v :: v in p <==> Reaches(g, startVertex, v)) &&
      HopOrdered(g, startVertex, p)
  {
    assert Traversal(g, startVertex, {}, []) == Bfs(g, None, [startVertex], {startVertex}, [startVertex]) by {
      var none: set<Vertex> := {};
      var nothing: seq<Vertex> := [];
      assert none + {startVertex} == {startVertex} && nothing + [startVertex] == [startVertex];
    }
    if startVertex in g.adj {
      BfsSucceeds(g, None, [startVertex], {startVertex}, [startVertex]);
      var p := Traversal(g, startVertex, {}, []).value;
      BfsExtends(g, None, [startVertex], {startVertex}, [startVertex]);
      BfsDistinct(g, None, [startVertex], {startVertex}, [startVertex]);
      ReachesSelf(g, startVertex);
      BfsSound(g, startVertex, None, [startVertex], {startVertex}, [startVertex], 0);
      BfsComplete(g, None, [startVertex], {startVertex}, [startVertex]);
      LayeredStart(g, startVertex);
      assert Pending(None, [startVertex]) == [startVertex];
      BfsLayered(g, startVertex, None, [startVertex], {startVertex}, [startVertex]);
      assert p[0] == [startVertex][0];
      SaturatedReaches(g, startVertex, set v | v in p);
      assert forall i :: 0 <= i < |p| ==> Reaches(g, startVertex, p[i]);
    } else {
      assert [startVertex][1..] == [];
      assert Bfs(g, None, [startVertex], {startVertex}, [startVertex]) == Bfs(g, Some(startVertex), [], {startVertex}, [startVertex]);
    }
  }

  /** `traverse`: visits and queues `startVertex`, then runs the loop; for
      a start vertex outside the graph the first neighbour lookup raises
      the graph's exception, after the start vertex was visited. Every
      queued vertex is visited. */
  method Traverse(t: GraphTraversal, g: Explorable, startVertex: Vertex) returns (o: Outcome)
    requires Closed(g) && t.Valid()
    modifies t
    ensures t.Valid()
    ensures o.Pass? <==> startVertex in g.adj
    ensures o.Pass? ==> Traversal(g, startVertex, old(t.visitedStatusSet), old(t.traversalPath)) == Success(t.traversalPath)
    ensures o.Fail? ==> o.error == g.missing && t.traversalPath == old(t.traversalPath) + [startVertex]
  {
    ghost var p0 := t.traversalPath;
    ghost var spec := Traversal(g, startVertex, t.visitedStatusSet, t.traversalPath);
    t.Visit(startVertex);
    var queue: seq<Vertex> := [startVertex];
    while queue != []
      invariant t.Valid()
      invariant Bfs(g, None, queue, t.visitedStatusSet, t.traversalPath) == spec
      invariant startVertex in g.adj ==> forall k :: 0 <= k < |queue| ==> queue[k] in g.adj
      invariant startVertex !in g.adj ==> queue == [startVertex] && t.traversalPath == p0 + [startVertex]
      decreases Unseen(g, t.visitedStatusSet), |queue|
    {
      ghost var unseen, waiting := Unseen(g, t.visitedStatusSet), |queue|;
      var head := queue[0];
      queue := queue[1..];
      while true
        invariant t.Valid()
        invariant Bfs(g, Some(head), queue, t.visitedStatusSet, t.traversalPath) == spec
        invariant startVertex in g.adj ==> head in g.adj && forall k :: 0 <= k < |queue| ==> queue[k] in g.adj
        invariant startVertex !in g.adj ==> head == startVertex && queue == [] && t.traversalPath == p0 + [startVertex]
        invariant Unseen(g, t.visitedStatusSet) <= unseen && (Unseen(g, t.visitedStatusSet) == unseen ==> |queue| < waiting)
        decreases Unseen(g, t.visitedStatusSet)
      {
        var r := t.FindUnvisitedNeighbor(g, head);
        if r.Failure? {
          return Fail(r.error);
        }
        var unvisitedNeighbor := r.value;
        if unvisitedNeighbor.None? {
          break;
        }
        SeeNew(g, t.visitedStatusSet, unvisitedNeighbor.value);
        t.Visit(unvisitedNeighbor.value);
        queue := queue + [unvisitedNeighbor.value];
      }
    }
    return Pass;
  }
}
