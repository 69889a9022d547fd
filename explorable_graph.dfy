/** What the traversals read of an `ExplorableGraph`: the neighbour list
    `getNeighbors` returns for each known vertex, and what asking about an
    unknown vertex raises. */
module ExplorableGraph {
  import opened Java
  import opened Graph

  /** The neighbour lists, and the exception a traversal meets when it asks
      for the neighbours of a vertex outside the graph: the list graph
      returns `null`, so iterating over it raises `NullPointerException`;
      the matrix graph throws `IllegalArgumentException`. */
  datatype Explorable = Explorable(adj: map<Vertex, seq<Vertex>>, missing: Exception)

  /** Every neighbour of a vertex is itself a vertex of the graph. */
  ghost predicate Closed(g: Explorable)
  {
    forall u, k :: u in g.adj && 0 <= k < |g.adj[u]| ==> g.adj[u][k] in g.adj
  }

  /** Every neighbour `v` of `u` lists `u` as often as `u` lists `v`, and no
      vertex is its own neighbour: the graph is undirected. */
  ghost predicate Symmetric(adj: map<Vertex, seq<Vertex>>)
  {
    (forall u, v :: u in adj && v in adj ==> multiset(adj[u])[v] == multiset(adj[v])[u]) &&
    forall u :: u in adj ==> u !in adj[u]
  }

  /** The first vertex of `ns` outside `visited`, or `None` (null) when all
      of them are visited. */
  function FirstUnvisited(ns: seq<Vertex>, visited: set<Vertex>): (r: Option<Vertex>)
    ensures r.None? <==> forall k :: 0 <= k < |ns| ==> ns[k] in visited
    ensures r.Some? ==> r.value in ns && r.value !in visited
    ensures r.Some? ==> exists i :: 0 <= i < |ns| && ns[i] == r.value && forall k :: 0 <= k < i ==> ns[k] in visited
  {
    if ns == [] then None
    else if ns[0] !in visited then Some(ns[0])
    else
      var r := FirstUnvisited(ns[1..], visited);
      assert r.Some? ==> exists i :: 0 <= i < |ns| && ns[i] == r.value && forall k :: 0 <= k < i ==> ns[k] in visited by {
        if r.Some? {
          var i :| 0 <= i < |ns[1..]| && ns[1..][i] == r.value && forall k :: 0 <= k < i ==> ns[1..][k] in visited;
          assert ns[i + 1] == r.value && forall k :: 0 <= k < i + 1 ==> ns[k] in visited;
        }
      }
      r
  }
}
