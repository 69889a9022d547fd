/** Depth-first traversal with an explicit stack: the top vertex's first
    unvisited neighbour is visited and pushed, and a top vertex with none
    is popped. */
module DfsTraversal {
  import opened Java
  import opened Graph
  import opened ExplorableGraph
  import opened BaseGraphTraversal

  /** The outcome of running the search loop on `stack` (top first) with
      `visited` and `path` so far: the final path, or the exception raised
      when the top vertex is outside the graph. */
  function Dfs(g: Explorable, stack: seq<Vertex>, visited: set<Vertex>, path: seq<Vertex>): Result<seq<Vertex>>
    requires Closed(g)
    decreases Unseen(g, visited), |stack|
  {
    if stack == [] then Success(path)
    else if stack[0] !in g.adj then Failure(g.missing)
    else match FirstUnvisited(g.adj[stack[0]], visited)
      case None => Dfs(g, stack[1..], visited, path)
      case Some(n) => SeeNew(g, visited, n); Dfs(g, [n] + stack, visited + {n}, path + [n])
  }

  /** `traverse(graph, startVertex)` from the state `visited`, `path`:
      `startVertex` is visited and pushed, then the loop runs. */
  function Traversal(g: Explorable, startVertex: Vertex, visited: set<Vertex>, path: seq<Vertex>): Result<seq<Vertex>>
    requires Closed(g)
  {
    Dfs(g, [startVertex], visited + {startVertex}, path + [startVertex])
  }

  /** With every stacked vertex in the graph the search ends normally. */
  lemma {:induction false} DfsSucceeds(g: Explorable, stack: seq<Vertex>, visited: set<Vertex>, path: seq<Vertex>)
    requires Closed(g) && forall k :: 0 <= k < |stack| ==> stack[k] in g.adj
    ensures Dfs(g, stack, visited, path).Success?
    decreases Unseen(g, visited), |stack|
  {
    if stack != [] {
      match FirstUnvisited(g.adj[stack[0]], visited)
      case None =>
        DfsSucceeds(g, stack[1..], visited, path);
      case Some(n) =>
        SeeNew(g, visited, n);
        DfsSucceeds(g, [n] + stack, visited + {n}, path + [n]);
    }
  }

  /** The search only appends to the path. */
  lemma {:induction false} DfsExtends(g: Explorable, stack: seq<Vertex>, visited: set<Vertex>, path: seq<Vertex>)
    requires Closed(g) && Dfs(g, stack, visited, path).Success?
    ensures |path| <= |Dfs(g, stack, visited, path).value| && Dfs(g, stack, visited, path).value[..|path|] == path
    decreases Unseen(g, visited), |stack|
  {
    if stack != [] {
      match FirstUnvisited(g.adj[stack[0]], visited)
      case None =>
        DfsExtends(g, stack[1..], visited, path);
      case Some(n) =>
        SeeNew(g, visited, n);
        DfsExtends(g, [n] + stack, visited + {n}, path + [n]);
        assert (path + [n])[..|path|] == path;
    }
  }

  /** The search visits only unvisited vertices, so a path without repeats
      stays without repeats. */
  lemma {:induction false} DfsDistinct(g: Explorable, stack: seq<Vertex>, visited: set<Vertex>, path: seq<Vertex>)
    requires Closed(g) && Tracks(visited, path) && Distinct(path) && Dfs(g, stack, visited, path).Success?
    ensures Distinct(Dfs(g, stack, visited, path).value)
    decreases Unseen(g, visited), |stack|
  {
    if stack != [] {
      match FirstUnvisited(g.adj[stack[0]], visited)
      case None =>
        DfsDistinct(g, stack[1..], visited, path);
      case Some(n) =>
        SeeNew(g, visited, n);
        VisitDistinct(visited, path, n);
        DfsDistinct(g, [n] + stack, visited + {n}, path + [n]);
    }
  }

  /** Every stacked vertex is reachable from `s`, so every vertex the
      search appends is too. */
  lemma {:induction false} DfsSound(g: Explorable, s: Vertex, stack: seq<Vertex>, visited: set<Vertex>, path: seq<Vertex>, from: int)
    requires Closed(g) && 0 <= from <= |path| && Dfs(g, stack, visited, path).Success?
    requires forall k :: 0 <= k < |stack| ==> Reaches(g, s, stack[k])
    requires forall i :: from <= i < |path| ==> Reaches(g, s, path[i])
    ensures forall i :: from <= i < |Dfs(g, stack, visited, path).value| ==> Reaches(g, s, Dfs(g, stack, visited, path).value[i])
    decreases Unseen(g, visited), |stack|
  {
    if stack != [] {
      match FirstUnvisited(g.adj[stack[0]], visited)
      case None =>
        DfsSound(g, s, stack[1..], visited, path, from);
      case Some(n) =>
        SeeNew(g, visited, n);
        ReachesNext(g, s, stack[0], n);
        var stack' := [n] + stack;
        assert forall k :: 1 <= k < |stack'| ==> stack'[k] == stack[k - 1];
        DfsSound(g, s, stack', visited + {n}, path + [n], from);
    }
  }

  /** Every visited vertex off the stack is in the graph and has all its
      neighbours visited. */
  ghost predicate Explored(g: Explorable, stack: seq<Vertex>, visited: set<Vertex>)
  {
    forall v :: v in visited && v !in stack ==> v in g.adj && forall k :: 0 <= k < |g.adj[v]| ==> g.adj[v][k] in visited
  }

  /** A vertex leaves the stack only once its neighbours are all visited,
      so when the stack is empty every neighbour of a path vertex is on the
      path. */
  lemma {:induction false} DfsComplete(g: Explorable, stack: seq<Vertex>, visited: set<Vertex>, path: seq<Vertex>)
    requires Closed(g) && Tracks(visited, path) && Dfs(g, stack, visited, path).Success?
    requires (forall k :: 0 <= k < |stack| ==> stack[k] in visited) && Explored(g, stack, visited)
    ensures Saturated(g, set v | v in Dfs(g, stack, visited, path).value)
    decreases Unseen(g, visited), |stack|
  {
    if stack == [] {
      assert forall v :: v in path <==> v in visited;
    } else {
      match FirstUnvisited(g.adj[stack[0]], visited)
      case None =>
        var stack' := stack[1..];
        assert forall k :: 0 <= k < |stack'| ==> stack'[k] == stack[k + 1];
        assert forall v :: v in stack && v !in stack' ==> v == stack[0];
        DfsComplete(g, stack', visited, path);
      case Some(n) =>
        SeeNew(g, visited, n);
        var stack' := [n] + stack;
        assert forall k :: 1 <= k < |stack'| ==> stack'[k] == stack[k - 1];
        assert forall v :: v in stack ==> v in stack';
        DfsComplete(g, stack', visited + {n}, path + [n]);
    }
  }

  /** From a fresh state the traversal ends normally exactly when the start
      vertex is in the graph; the path then starts with the start vertex,
      has no repeats, and holds exactly the vertices reachable from it. */
  lemma TraversalFromFresh(g: Explorable, startVertex: Vertex)
    requires Closed(g)
    ensures Traversal(g, startVertex, {}, []).Success? <==> startVertex in g.adj
    ensures Traversal(g, startVertex, {}, []).Success? ==>
      var p := Traversal(g, startVertex, {}, []).value;
      |p| > 0 && p[0] == startVertex && Distinct(p) && forall v :: v in p <==> Reaches(g, startVertex, v)
  {
    assert Traversal(g, startVertex, {}, []) == Dfs(g, [startVertex], {startVertex}, [startVertex]) by {
      var none: set<Vertex> := {};
      var nothing: seq<Vertex> := [];
      assert none + {startVertex} == {startVertex} && nothing + [startVertex] == [startVertex];
    }
    if startVertex in g.adj {
      DfsSucceeds(g, [startVertex], {startVertex}, [startVertex]);
      var p := Traversal(g, startVertex, {}, []).value;
      DfsExtends(g, [startVertex], {startVertex}, [startVertex]);
      DfsDistinct(g, [startVertex], {startVertex}, [startVertex]);
      ReachesSelf(g, startVertex);
      DfsSound(g, startVertex, [startVertex], {startVertex}, [startVertex], 0);
      DfsComplete(g, [startVertex], {startVertex}, [startVertex]);
      assert p[0] == [startVertex][0];
      SaturatedReaches(g, startVertex, set v | v in p);
      assert forall i :: 0 <= i < |p| ==> Reaches(g, startVertex, p[i]);
    }
  }

  /** `traverse`: visits `startVertex`, then runs the loop; for a start
      vertex outside the graph the first neighbour lookup raises the
      graph's exception, after the start vertex was visited. */
  method Traverse(t: GraphTraversal, g: Explorable, startVertex: Vertex) returns (o: Outcome)
    requires Closed(g) && t.Valid()
    modifies t
    ensures t.Valid()
    ensures o.Pass? <==> startVertex in g.adj
    ensures o.Pass? ==> Traversal(g, startVertex, old(t.visitedStatusSet), old(t.traversalPath)) == Success(t.traversalPath)
    ensures o.Fail? ==> o.error == g.missing && t.traversalPath == old(t.traversalPath) + [startVertex]
  {
    ghost var p0 := t.traversalPath;
    ghost var spec := Traversal(g, startVertex, t.visitedStatusSet, t.traversalPath);
    t.Visit(startVertex);
    var stack: seq<Vertex> := [startVertex];
    while stack != []
      invariant t.Valid()
      invariant Dfs(g, stack, t.visitedStatusSet, t.traversalPath) == spec
      invariant startVertex in g.adj ==> forall k :: 0 <= k < |stack| ==> stack[k] in g.adj
      invariant startVertex !in g.adj ==> stack == [startVertex] && t.traversalPath == p0 + [startVertex]
      decreases Unseen(g, t.visitedStatusSet), |stack|
    {
      var r := t.FindUnvisitedNeighbor(g, stack[0]);
      if r.Failure? {
        return Fail(r.error);
      }
      var unvisitedNeighbor := r.value;
      if unvisitedNeighbor.None? {
        stack := stack[1..];
      } else {
        SeeNew(g, t.visitedStatusSet, unvisitedNeighbor.value);
        t.Visit(unvisitedNeighbor.value);
        stack := [unvisitedNeighbor.value] + stack;
      }
    }
    return Pass;
  }
}
