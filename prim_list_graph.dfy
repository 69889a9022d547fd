/** The adjacency-list graph for Prim's algorithm: a map from each vertex to
    its edges, where `setEdge` stores every edge in both directions. */
module PrimListGraph {
  import opened Java
  import opened Graph
  import opened PrimGraph
  import L = DijkstraListGraph

  /** Adjacency lists of an undirected graph with at most one edge per
      ordered pair of vertices. */
  ghost predicate Lists(adj: map<Vertex, seq<Edge>>)
  {
    Outgoing(adj) && Undirected(adj) && forall u :: u in adj ==> L.OneEach(adj[u])
  }

  /** The lists once `setEdge(s, d, w)` has replaced the edge into `d` in
      `s`'s list and the edge into `s` in `d`'s list. */
  function Linked(adj: map<Vertex, seq<Edge>>, s: Vertex, d: Vertex, w: int): map<Vertex, seq<Edge>>
    requires s in adj && d in adj
  {
    adj[s := L.Without(adj[s], d) + [Edge(s, d, w)]][d := L.Without(adj[d], s) + [Edge(d, s, w)]]
  }

  /** `setEdge` keeps the lists undirected, loop-free and with one edge per
      ordered pair. */
  lemma LinkedLists(adj: map<Vertex, seq<Edge>>, s: Vertex, d: Vertex, w: int)
    requires Lists(adj) && s in adj && d in adj && s != d
    ensures Lists(Linked(adj, s, d, w))
  {
    var adj': map<Vertex, seq<Edge>> := Linked(adj, s, d, w);
    LinkedOutgoing(adj, s, d, w);
    L.ReplacedEdges(adj[s], s, d, w);
    L.ReplacedEdges(adj[d], d, s, w);
    forall u: Vertex, k: int | u in adj' && 0 <= k < |adj'[u]|
      ensures adj'[u][k].destination != u && Edge(adj'[u][k].destination, u, adj'[u][k].weight) in adj'[adj'[u][k].destination]
    {
      MirrorKept(adj, s, d, w, u, adj'[u][k]);
    }
  }

  /** Every list after `setEdge(s, d, w)` still leaves its vertex and enters
      vertices of the graph. */
  lemma LinkedOutgoing(adj: map<Vertex, seq<Edge>>, s: Vertex, d: Vertex, w: int)
    requires Outgoing(adj) && s in adj && d in adj && s != d
    ensures Outgoing(Linked(adj, s, d, w))
  {
    var adj': map<Vertex, seq<Edge>> := Linked(adj, s, d, w);
    forall u: Vertex, k: int | u in adj' && 0 <= k < |adj'[u]|
      ensures adj'[u][k].source == u && adj'[u][k].destination in adj'
    {
      var e := adj'[u][k];
      if u == d {
        assert e in L.Without(adj[d], s) + [Edge(d, s, w)];
        if e != Edge(d, s, w) {
          assert e in adj[d];
        }
      } else if u == s {
        assert e in L.Without(adj[s], d) + [Edge(s, d, w)];
        if e != Edge(s, d, w) {
          assert e in adj[s];
        }
      } else {
        assert e == adj[u][k];
      }
    }
  }

  /** The mirror of an edge of `u`'s list after `setEdge(s, d, w)` is in its
      destination's list. */
  lemma MirrorKept(adj: map<Vertex, seq<Edge>>, s: Vertex, d: Vertex, w: int, u: Vertex, e: Edge)
    requires Lists(adj) && s in adj && d in adj && s != d && u in adj && e in Linked(adj, s, d, w)[u]
    ensures e.destination != u && e.destination in adj && Edge(e.destination, u, e.weight) in Linked(adj, s, d, w)[e.destination]
  {
    var adj': map<Vertex, seq<Edge>> := Linked(adj, s, d, w);
    var m := Edge(e.destination, u, e.weight);
    if (u == s && e == Edge(s, d, w)) || (u == d && e == Edge(d, s, w)) {
    } else {
      assert e in adj[u];
      var j :| 0 <= j < |adj[u]| && adj[u][j] == e;
      assert m in adj[e.destination] && e.destination != u;
      if e.destination == s || e.destination == d {
        assert m.destination == u;
      } else {
        assert adj'[e.destination] == adj[e.destination];
      }
    }
  }

  /** After `setEdge(s, d, w)` the only edge from `s` into `d` and the only
      edge from `d` into `s` have weight `w`; the other edges of both lists
      stay, and every other list is unchanged. */
  lemma LinkedEffect(adj: map<Vertex, seq<Edge>>, s: Vertex, d: Vertex, w: int, x: Vertex)
    requires s in adj && d in adj && s != d
    ensures Linked(adj, s, d, w).Keys == adj.Keys
    ensures Edge(s, d, w) in Linked(adj, s, d, w)[s] && Edge(d, s, w) in Linked(adj, s, d, w)[d]
    ensures forall e :: e in Linked(adj, s, d, w)[s] && e.destination == d ==> e == Edge(s, d, w)
    ensures forall e :: e in Linked(adj, s, d, w)[d] && e.destination == s ==> e == Edge(d, s, w)
    ensures forall e: Edge :: e.destination != d ==> (e in Linked(adj, s, d, w)[s] <==> e in adj[s])
    ensures forall e: Edge :: e.destination != s ==> (e in Linked(adj, s, d, w)[d] <==> e in adj[d])
    ensures x in adj && x != s && x != d ==> Linked(adj, s, d, w)[x] == adj[x]
  {
  }

  class PrimListGraph {
    var adjacencyList: map<Vertex, seq<Edge>>

    /** The lists are those of an undirected graph. */
    ghost predicate Valid()
      reads this
    {
      Lists(adjacencyList)
    }

    /** The view Prim's algorithm reads. */
    function AsView(): PrimView
      reads this
    {
      PrimView(|adjacencyList.Keys|, adjacencyList)
    }

    /** An empty graph. */
    constructor ()
      ensures Valid() && adjacencyList == map[]
    {
      adjacencyList := map[];
    }

    /** `addVertex`: a new vertex gets an empty list; a present one changes
        nothing. */
    method AddVertex(vertex: Vertex)
      requires Valid()
      modifies this
      ensures Valid()
      ensures old(vertex in adjacencyList) ==> adjacencyList == old(adjacencyList)
      ensures old(vertex !in adjacencyList) ==> adjacencyList == old(adjacencyList)[vertex := []]
    {
      if vertex !in adjacencyList {
        adjacencyList := adjacencyList[vertex := []];
      }
    }

    /** `setEdge`: `IllegalArgumentException` for identical endpoints or an
        unknown endpoint, changing nothing; any weight is accepted, and the
        edge is stored in both lists. */
    method SetEdge(source: Vertex, destination: Vertex, weight: int) returns (o: Outcome)
      requires Valid()
      modifies this
      ensures Valid()
      ensures o == if source == destination || source !in old(adjacencyList) || destination !in old(adjacencyList) then Fail(IllegalArgument) else Pass
      ensures o.Fail? ==> adjacencyList == old(adjacencyList)
      ensures o.Pass? ==> adjacencyList == Linked(old(adjacencyList), source, destination, weight)
    {
      if source == destination {
        return Fail(IllegalArgument);
      }
      if source !in adjacencyList || destination !in adjacencyList {
        return Fail(IllegalArgument);
      }
      var edges := adjacencyList[source];
      var reverseEdges := adjacencyList[destination];
      var edges' := ReplaceOrUpdateEdge(edges, source, destination, weight);
      var reverseEdges' := ReplaceOrUpdateEdge(reverseEdges, destination, source, weight);
      LinkedLists(adjacencyList, source, destination, weight);
      adjacencyList := adjacencyList[source := edges'][destination := reverseEdges'];
      return Pass;
    }

    /** `replaceOrUpdateEdge`: the list without the edge `findEdge` finds,
        if any, and with the new edge appended. */
    method ReplaceOrUpdateEdge(edgeList: seq<Edge>, source: Vertex, destination: Vertex, weight: int) returns (r: seq<Edge>)
      requires L.OneEach(edgeList) && forall k :: 0 <= k < |edgeList| ==> edgeList[k].source == source
      ensures r == L.Without(edgeList, destination) + [Edge(source, destination, weight)]
    {
      L.ReplacedEdges(edgeList, source, destination, weight);
      var existingEdge := FindEdge(edgeList, source, destination);
      r := edgeList;
      if existingEdge.Some? {
        r := L.RemoveFirst(r, existingEdge.value);
      }
      r := r + [Edge(source, destination, weight)];
    }

    /** `findEdge`: the first edge from `source` to `destination`, or
        `None` (null). */
    method FindEdge(edges: seq<Edge>, source: Vertex, destination: Vertex) returns (r: Option<Edge>)
      ensures r == L.FindIn(edges, source, destination)
    {
      for i := 0 to |edges|
        invariant L.FindIn(edges, source, destination) == L.FindIn(edges[i..], source, destination)
      {
        if edges[i].source == source && edges[i].destination == destination {
          return Some(edges[i]);
        }
        assert edges[i..][1..] == edges[i + 1..];
      }
      return None;
    }

    /** `getEdgesForSource`: the stored list, whose edges all leave
        `source`, or `None` (null) for an unknown vertex. */
    function GetEdgesForSource(source: Vertex): (r: Option<seq<Edge>>)
      reads this
      requires Valid()
      ensures r.None? <==> source !in AsView().out
      ensures r.Some? ==> r.value == AsView().out[source]
      ensures r.Some? ==> forall k :: 0 <= k < |r.value| ==> r.value[k].source == source && r.value[k].destination in adjacencyList
    {
      if source in adjacencyList then Some(adjacencyList[source]) else None
    }

    /** `getVertexCount`: the number of distinct vertices added. */
    function GetVertexCount(): (n: int)
      reads this
      ensures n == |adjacencyList.Keys| && n == AsView().vertexCount
    {
      |adjacencyList|
    }

    /** `containsVertex`: whether the vertex was added. */
    function ContainsVertex(vertex: Vertex): (b: bool)
      reads this
      ensures b <==> vertex in AsView().out
    {
      vertex in adjacencyList
    }

    /** The view is well-formed and undirected, and its count is exact. */
    lemma ViewWellFormed()
      requires Valid()
      ensures WellFormed(AsView()) && Undirected(AsView().out) && Counted(AsView())
      ensures |AsView().out.Keys| == AsView().vertexCount
    {
    }
  }
}
