/** Depth-first traversal by recursion: a vertex is visited, then each of
    its neighbours still unvisited, in list order, is searched in turn. The
    call stack plays the part of the explicit stack, so the path is the one
    the explicit-stack search produces. */
module DfsRecursiveTraversal {
  import opened Java
  import opened Graph
  import opened ExplorableGraph
  import opened BaseGraphTraversal
  import D = DfsTraversal

  /** `traverse`: the recursive search from `startVertex`, ending with the
      same path, or raising the same exception, as the explicit-stack
      traversal from the same state. */
  method Traverse(t: GraphTraversal, g: Explorable, startVertex: Vertex) returns (o: Outcome)
    requires Closed(g) && t.Valid()
    modifies t
    ensures t.Valid()
    ensures o.Pass? <==> startVertex in g.adj
    ensures o.Pass? ==> D.Traversal(g, startVertex, old(t.visitedStatusSet), old(t.traversalPath)) == Success(t.traversalPath)
    ensures o.Fail? ==> o.error == g.missing && t.traversalPath == old(t.traversalPath) + [startVertex]
  {
    ghost var v0, p0 := t.visitedStatusSet, t.traversalPath;
    o := RecursiveDfs(t, g, startVertex, []);
    assert [startVertex] + [] == [startVertex];
    if startVertex in g.adj {
      D.DfsSucceeds(g, [startVertex], v0 + {startVertex}, p0 + [startVertex]);
    }
  }

  /** `recursiveDfs(graph, vertex)` called with the vertices `below` still
      waiting on the call stack (innermost first): it ends in the state the
      explicit-stack search reaches from the stack `[vertex] + below` once
      `vertex` is popped, or raises the exception that search raises. */
  method RecursiveDfs(t: GraphTraversal, g: Explorable, vertex: Vertex, ghost below: seq<Vertex>) returns (o: Outcome)
    requires Closed(g) && t.Valid()
    modifies t
    ensures t.Valid() && old(t.visitedStatusSet) + {vertex} <= t.visitedStatusSet
    ensures o.Pass? ==>
      D.Dfs(g, [vertex] + below, old(t.visitedStatusSet) + {vertex}, old(t.traversalPath) + [vertex]) == D.Dfs(g, below, t.visitedStatusSet, t.traversalPath)
    ensures o.Fail? ==> D.Dfs(g, [vertex] + below, old(t.visitedStatusSet) + {vertex}, old(t.traversalPath) + [vertex]) == Failure(o.error)
    ensures vertex !in g.adj ==> o == Fail(g.missing) && t.traversalPath == old(t.traversalPath) + [vertex]
    decreases Unseen(g, t.visitedStatusSet + {vertex})
  {
    ghost var entry := t.visitedStatusSet + {vertex};
    ghost var spec := D.Dfs(g, [vertex] + below, t.visitedStatusSet + {vertex}, t.traversalPath + [vertex]);
    t.Visit(vertex);
    assert ([vertex] + below)[0] == vertex && ([vertex] + below)[1..] == below;
    while true
      invariant t.Valid() && entry <= t.visitedStatusSet
      invariant D.Dfs(g, [vertex] + below, t.visitedStatusSet, t.traversalPath) == spec
      invariant vertex !in g.adj ==> t.traversalPath == old(t.traversalPath) + [vertex]
      decreases Unseen(g, t.visitedStatusSet)
    {
      var r := t.FindUnvisitedNeighbor(g, vertex);
      if r.Failure? {
        return Fail(r.error);
      }
      var unvisitedNeighbor := r.value;
      if unvisitedNeighbor.None? {
        return Pass;
      }
      ghost var before := t.visitedStatusSet;
      SeeNew(g, before, unvisitedNeighbor.value);
      SeeMore(g, entry, before);
      o := RecursiveDfs(t, g, unvisitedNeighbor.value, [vertex] + below);
      SeeNew(g, before, unvisitedNeighbor.value);
      SeeMore(g, before + {unvisitedNeighbor.value}, t.visitedStatusSet);
      if o.Fail? {
        return o;
      }
    }
  }
}
