/** What Dijkstra's algorithm sees of a graph: its vertex list, and for each
    vertex the outgoing edges whose destinations `getNeighbors` lists and
    whose weights `getEdgeWeightBetween` reports. Both graph
    representations produce such a view. */
module DijkstraGraph {
  import opened Java
  import opened Graph

  /** `DijkstraGraph.INFINITY`, half of `Integer.MAX_VALUE`: the distance
      of a vertex not (yet) reached, and the weight of a missing edge. */
  const INFINITY: int := INT_MAX / 2

  /** `vertices` is `getVertices()`; `out[u]` lists `u`'s edges in the order
      `getNeighbors(u)` reports their destinations. */
  datatype View = View(vertices: seq<Vertex>, out: map<Vertex, seq<Edge>>)

  /** `getNeighbors(u)`: the destinations of `u`'s edges, in order. */
  function Neighbors(g: View, u: Vertex): (r: seq<Vertex>)
    requires u in g.out
    ensures |r| == |g.out[u]|
    ensures forall i :: 0 <= i < |r| ==> r[i] == g.out[u][i].destination
  {
    Destinations(g.out[u])
  }

  /** The destinations of `edges`, in order. */
  function Destinations(edges: seq<Edge>): (r: seq<Vertex>)
    ensures |r| == |edges|
    ensures forall i :: 0 <= i < |r| ==> r[i] == edges[i].destination
  {
    if edges == [] then [] else [edges[0].destination] + Destinations(edges[1..])
  }

  /** The weight of the first edge into `v` in `edges`, or `INFINITY` when
      there is none. */
  function WeightTo(edges: seq<Edge>, v: Vertex): int
  {
    if edges == [] then INFINITY
    else if edges[0].destination == v then edges[0].weight
    else WeightTo(edges[1..], v)
  }

  /** `WeightTo` answers with the first edge into `v`, and with `INFINITY`
      when no edge enters `v`. */
  lemma {:induction false} WeightToFirst(edges: seq<Edge>, v: Vertex)
    ensures (forall k :: 0 <= k < |edges| ==> edges[k].destination != v) ==> WeightTo(edges, v) == INFINITY
    ensures forall k :: 0 <= k < |edges| && edges[k].destination == v && (forall j :: 0 <= j < k ==> edges[j].destination != v) ==>
      WeightTo(edges, v) == edges[k].weight
    decreases |edges|
  {
    if edges != [] && edges[0].destination != v {
      WeightToFirst(edges[1..], v);
      assert forall k :: 1 <= k < |edges| ==> edges[1..][k - 1] == edges[k];
    }
  }

  /** `getEdgeWeightBetween(u, v)`. */
  function Weight(g: View, u: Vertex, v: Vertex): int
    requires u in g.out
  {
    WeightTo(g.out[u], v)
  }

  /** What both graph classes guarantee: the vertices are distinct and are
      exactly the keys of `out`, every edge leaves its own key for a known
      vertex, and no weight is negative. */
  ghost predicate WellFormed(g: View)
  {
    (forall i, j :: 0 <= i < j < |g.vertices| ==> g.vertices[i] != g.vertices[j]) &&
    (forall v :: v in g.out <==> v in g.vertices) &&
    (forall u, k :: u in g.out && 0 <= k < |g.out[u]| ==>
       g.out[u][k].source == u && g.out[u][k].destination in g.out && 0 <= g.out[u][k].weight)
  }

  /** No weight exceeds `INFINITY`, so a distance plus a weight stays within
      `int`. */
  ghost predicate Bounded(g: View)
  {
    forall u, k :: u in g.out && 0 <= k < |g.out[u]| ==> g.out[u][k].weight <= INFINITY
  }

  /** Every weight `getEdgeWeightBetween` reports lies in `[0, INFINITY]`. */
  lemma WeightBounds(g: View, u: Vertex, v: Vertex)
    requires WellFormed(g) && Bounded(g) && u in g.out
    ensures 0 <= Weight(g, u, v) <= INFINITY
  {
    WeightToBounds(g.out[u], v);
  }

  /** The weight found lies in the range of the edges' weights. */
  lemma {:induction false} WeightToBounds(edges: seq<Edge>, v: Vertex)
    requires forall k :: 0 <= k < |edges| ==> 0 <= edges[k].weight <= INFINITY
    ensures 0 <= WeightTo(edges, v) <= INFINITY
    decreases |edges|
  {
    if edges != [] && edges[0].destination != v {
      WeightToBounds(edges[1..], v);
    }
  }

  /** Every weight `getEdgeWeightBetween` reports on a well-formed view is
      non-negative. */
  lemma {:induction false} WeightNonNegative(edges: seq<Edge>, v: Vertex)
    requires forall k :: 0 <= k < |edges| ==> 0 <= edges[k].weight
    ensures 0 <= WeightTo(edges, v)
    decreases |edges|
  {
    if edges != [] && edges[0].destination != v {
      WeightNonNegative(edges[1..], v);
    }
  }

  /** `p` walks along edges of `g`. */
  ghost predicate IsPath(g: View, p: seq<Vertex>)
  {
    |p| >= 1 && (forall i :: 0 <= i < |p| ==> p[i] in g.out) &&
    forall i :: 0 < i < |p| ==> p[i] in Neighbors(g, p[i - 1])
  }

  /** The total weight of the walk `p`, edge by edge as
      `getEdgeWeightBetween` reports it. */
  ghost function PathWeight(g: View, p: seq<Vertex>): int
    requires IsPath(g, p)
    decreases |p|
  {
    if |p| == 1 then 0
    else
      assert IsPath(g, p[..|p| - 1]);
      PathWeight(g, p[..|p| - 1]) + Weight(g, p[|p| - 2], p[|p| - 1])
  }
}
