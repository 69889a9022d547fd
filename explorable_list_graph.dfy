/** The undirected, unweighted adjacency-list graph the traversals explore:
    a map from each vertex to its neighbours in the order the edges were
    set. */
module ExplorableListGraph {
  import opened Java
  import opened Graph
  import opened ExplorableGraph

  /** The neighbour lists of an undirected graph whose neighbours are all
      vertices. */
  ghost predicate Lists(adj: map<Vertex, seq<Vertex>>)
  {
    Closed(Explorable(adj, NullPointer)) && Symmetric(adj)
  }

  /** The lists once the edge between `s` and `d` is set: `d` appended to
      `s`'s list and `s` to `d`'s, duplicates kept. */
  function Joined(adj: map<Vertex, seq<Vertex>>, s: Vertex, d: Vertex): map<Vertex, seq<Vertex>>
    requires s in adj && d in adj
  {
    adj[s := adj[s] + [d]][d := adj[d] + [s]]
  }

  /** Setting an edge between two distinct vertices keeps the lists closed
      and undirected. */
  lemma JoinedLists(adj: map<Vertex, seq<Vertex>>, s: Vertex, d: Vertex)
    requires Lists(adj) && s in adj && d in adj && s != d
    ensures Lists(Joined(adj, s, d))
  {
    JoinedClosed(adj, s, d);
    JoinedSymmetric(adj, s, d);
  }

  /** After setting an edge every neighbour is still a vertex. */
  lemma JoinedClosed(adj: map<Vertex, seq<Vertex>>, s: Vertex, d: Vertex)
    requires Closed(Explorable(adj, NullPointer)) && s in adj && d in adj
    ensures Closed(Explorable(Joined(adj, s, d), NullPointer))
  {
    var adj' := Joined(adj, s, d);
    forall u, k | u in adj' && 0 <= k < |adj'[u]|
      ensures adj'[u][k] in adj'
    {
      if u == s || u == d {
        if k < |adj[u]| {
          assert adj'[u][k] == adj[u][k];
        }
      } else {
        assert adj'[u] == adj[u];
      }
    }
  }

  /** After setting an edge between distinct vertices each endpoint lists
      the other once more, and every other count is unchanged. */
  lemma JoinedSymmetric(adj: map<Vertex, seq<Vertex>>, s: Vertex, d: Vertex)
    requires Symmetric(adj) && s in adj && d in adj && s != d
    ensures Symmetric(Joined(adj, s, d))
  {
    var adj' := Joined(adj, s, d);
    assert multiset(adj'[s]) == multiset(adj[s]) + multiset{d};
    assert multiset(adj'[d]) == multiset(adj[d]) + multiset{s};
    forall u, v | u in adj' && v in adj'
      ensures multiset(adj'[u])[v] == multiset(adj'[v])[u]
    {
      assert multiset(adj[u])[v] == multiset(adj[v])[u];
    }
    forall u | u in adj'
      ensures u !in adj'[u]
    {
      assert multiset(adj'[u])[u] == 0;
    }
  }

  class ExplorableListGraph {
    var adjacencyList: map<Vertex, seq<Vertex>>

    /** The lists are those of an undirected graph. */
    ghost predicate Valid()
      reads this
    {
      Lists(adjacencyList)
    }

    /** The view the traversals read. */
    function AsView(): Explorable
      reads this
    {
      Explorable(adjacencyList, NullPointer)
    }

    /** An empty graph. */
    constructor ()
      ensures Valid() && adjacencyList == map[]
    {
      adjacencyList := map[];
    }

    /** `addVertex`: a new vertex gets an empty list (`putIfAbsent`); a
        present one keeps its list. */
    method AddVertex(vertex: Vertex)
      requires Valid()
      modifies this
      ensures Valid()
      ensures old(vertex in adjacencyList) ==> adjacencyList == old(adjacencyList)
      ensures old(vertex !in adjacencyList) ==> adjacencyList == old(adjacencyList)[vertex := []]
    {
      if vertex !in adjacencyList {
        adjacencyList := adjacencyList[vertex := []];
      }
    }

    /** `setEdge`: `IllegalArgumentException` for identical endpoints or an
        unknown endpoint, changing nothing; otherwise each endpoint is
        appended to the other's list. */
    method SetEdge(source: Vertex, destination: Vertex) returns (o: Outcome)
      requires Valid()
      modifies this
      ensures Valid()
      ensures o == if source == destination || source !in old(adjacencyList) || destination !in old(adjacencyList) then Fail(IllegalArgument) else Pass
      ensures o.Fail? ==> adjacencyList == old(adjacencyList)
      ensures o.Pass? ==> adjacencyList == Joined(old(adjacencyList), source, destination)
    {
      if source == destination {
        return Fail(IllegalArgument);
      }
      if source !in adjacencyList || destination !in adjacencyList {
        return Fail(IllegalArgument);
      }
      JoinedLists(adjacencyList, source, destination);
      adjacencyList := Joined(adjacencyList, source, destination);
      return Pass;
    }

    /** `getNeighbors`: the stored list, whose vertices are all in the graph
        and never the vertex itself, or `None` (null) for an unknown
        vertex. */
    function GetNeighbors(vertex: Vertex): (r: Option<seq<Vertex>>)
      reads this
      requires Valid()
      ensures r.None? <==> vertex !in AsView().adj
      ensures r.Some? ==> r.value == AsView().adj[vertex]
      ensures r.Some? ==> vertex !in r.value && forall k :: 0 <= k < |r.value| ==> r.value[k] in adjacencyList
    {
      if vertex in adjacencyList then Some(adjacencyList[vertex]) else None
    }

    /** The view is closed and undirected. */
    lemma ViewClosed()
      requires Valid()
      ensures Closed(AsView()) && Symmetric(AsView().adj)
    {
    }
  }
}
