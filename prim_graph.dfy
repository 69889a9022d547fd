/** What Prim's algorithm reads of a `PrimGraph`: the count
    `getVertexCount` reports, and the edge list `getEdgesForSource` returns
    for each vertex `containsVertex` accepts. */
module PrimGraph {
  import opened Graph

  /** The vertex count and the outgoing edges of every vertex. */
  datatype PrimView = PrimView(vertexCount: int, out: map<Vertex, seq<Edge>>)

  /** Every edge in `u`'s list leaves `u` and enters a vertex of the graph. */
  ghost predicate Outgoing(out: map<Vertex, seq<Edge>>)
  {
    forall u, k :: u in out && 0 <= k < |out[u]| ==> out[u][k].source == u && out[u][k].destination in out
  }

  /** No edge is a loop, and every edge `u`→`v` of weight `w` has its mirror
      `v`→`u` of weight `w`: the graph is undirected. */
  ghost predicate Undirected(out: map<Vertex, seq<Edge>>)
    requires Outgoing(out)
  {
    forall u, k :: u in out && 0 <= k < |out[u]| ==>
      out[u][k].destination != u && Edge(out[u][k].destination, u, out[u][k].weight) in out[out[u][k].destination]
  }

  /** The edge lists of a view are well-formed. */
  ghost predicate WellFormed(g: PrimView)
  {
    Outgoing(g.out)
  }

  /** The reported count covers every vertex. */
  ghost predicate Counted(g: PrimView)
  {
    |g.out.Keys| <= g.vertexCount
  }
}
