/** The adjacency-list graph for Dijkstra's algorithm: a map from each
    vertex to its outgoing edges, and the vertices in insertion order. */
module DijkstraListGraph {
  import opened Java
  import opened Graph
  import opened DijkstraGraph

  /** The first edge of `edges` from `s` to `d`, or `None` (null). */
  function FindIn(edges: seq<Edge>, s: Vertex, d: Vertex): (r: Option<Edge>)
    ensures r.None? ==> forall k :: 0 <= k < |edges| ==> !(edges[k].source == s && edges[k].destination == d)
    ensures r.Some? ==> exists k :: 0 <= k < |edges| && edges[k] == r.value && r.value.source == s && r.value.destination == d
  {
    if edges == [] then None
    else if edges[0].source == s && edges[0].destination == d then Some(edges[0])
    else
      var r := FindIn(edges[1..], s, d);
      if r.Some? then
        var k :| 0 <= k < |edges[1..]| && edges[1..][k] == r.value && r.value.source == s && r.value.destination == d;
        assert edges[k + 1] == r.value;
        r
      else r
  }

  /** `List.remove(x)`: the list without its first element equal to `x`;
      unchanged when there is none. */
  function RemoveFirst(edges: seq<Edge>, x: Edge): seq<Edge>
  {
    if edges == [] then []
    else if edges[0] == x then edges[1..]
    else [edges[0]] + RemoveFirst(edges[1..], x)
  }

  /** The edges of `edges` not into `d`, in order. */
  function Without(edges: seq<Edge>, d: Vertex): (r: seq<Edge>)
    ensures forall e :: e in r <==> e in edges && e.destination != d
  {
    if edges == [] then []
    else if edges[0].destination == d then Without(edges[1..], d)
    else [edges[0]] + Without(edges[1..], d)
  }

  /** No two edges of `edges` share a destination. */
  ghost predicate OneEach(edges: seq<Edge>)
  {
    forall i, j :: 0 <= i < j < |edges| ==> edges[i].destination != edges[j].destination
  }

  /** In a list of edges leaving `s` with one edge per destination,
      `replaceOrUpdateEdge` drops the old edge into `d`, if any, and appends
      the new one: the list keeps one edge per destination. */
  lemma {:induction false} ReplacedEdges(edges: seq<Edge>, s: Vertex, d: Vertex, w: int)
    requires OneEach(edges) && forall k :: 0 <= k < |edges| ==> edges[k].source == s
    ensures FindIn(edges, s, d).Some? ==> RemoveFirst(edges, FindIn(edges, s, d).value) == Without(edges, d)
    ensures FindIn(edges, s, d).None? ==> edges == Without(edges, d)
    ensures OneEach(Without(edges, d) + [Edge(s, d, w)])
    decreases |edges|
  {
    if edges != [] {
      assert OneEach(edges[1..]) by {
        forall i, j | 0 <= i < j < |edges[1..]|
          ensures edges[1..][i].destination != edges[1..][j].destination
        {
          assert edges[1..][i] == edges[i + 1] && edges[1..][j] == edges[j + 1];
        }
      }
      ReplacedEdges(edges[1..], s, d, w);
      if edges[0].destination == d {
        assert forall k :: 0 <= k < |edges[1..]| ==> edges[1..][k].destination != d by {
          forall k | 0 <= k < |edges[1..]|
            ensures edges[1..][k].destination != d
          {
            assert edges[1..][k] == edges[k + 1];
          }
        }
        assert edges[1..] == Without(edges[1..], d) by {
          NoneInto(edges[1..], d);
        }
      }
    }
    var r := Without(edges, d) + [Edge(s, d, w)];
    forall i, j | 0 <= i < j < |r|
      ensures r[i].destination != r[j].destination
    {
      assert r[i] in Without(edges, d);
      if j < |r| - 1 {
        assert r[j] in Without(edges, d);
        WithoutOneEach(edges, d);
      }
    }
  }

  /** Dropping edges from a list with one edge per destination keeps it so. */
  lemma {:induction false} WithoutOneEach(edges: seq<Edge>, d: Vertex)
    requires OneEach(edges)
    ensures OneEach(Without(edges, d))
    decreases |edges|
  {
    if edges != [] {
      assert OneEach(edges[1..]) by {
        forall i, j | 0 <= i < j < |edges[1..]|
          ensures edges[1..][i].destination != edges[1..][j].destination
        {
          assert edges[1..][i] == edges[i + 1] && edges[1..][j] == edges[j + 1];
        }
      }
      WithoutOneEach(edges[1..], d);
      if edges[0].destination != d {
        var r := Without(edges, d);
        forall j | 0 < j < |r|
          ensures r[0].destination != r[j].destination
        {
          assert r[j] in Without(edges[1..], d);
          assert r[j] in edges[1..];
        }
      }
    }
  }

  /** A list with no edge into `d` is its own `Without`. */
  lemma {:induction false} NoneInto(edges: seq<Edge>, d: Vertex)
    requires forall k :: 0 <= k < |edges| ==> edges[k].destination != d
    ensures Without(edges, d) == edges
    decreases |edges|
  {
    if edges != [] {
      NoneInto(edges[1..], d);
    }
  }

  /** After the replacement the weight into `d` is `w`, and the weight into
      every other vertex is what it was. */
  lemma {:induction false} ReplacedWeights(edges: seq<Edge>, s: Vertex, d: Vertex, w: int, v: Vertex)
    ensures WeightTo(Without(edges, d) + [Edge(s, d, w)], d) == w
    ensures v != d ==> WeightTo(Without(edges, d) + [Edge(s, d, w)], v) == WeightTo(edges, v)
    decreases |edges|
  {
    if edges == [] {
      assert Without(edges, d) + [Edge(s, d, w)] == [Edge(s, d, w)];
    } else {
      ReplacedWeights(edges[1..], s, d, w, v);
      if edges[0].destination != d {
        assert Without(edges, d) + [Edge(s, d, w)] == [edges[0]] + (Without(edges[1..], d) + [Edge(s, d, w)]);
      }
    }
  }

  /** The destinations after the replacement: `d` moves to the end. */
  lemma {:induction false} ReplacedNeighbors(edges: seq<Edge>, s: Vertex, d: Vertex, w: int)
    ensures Destinations(Without(edges, d) + [Edge(s, d, w)]) == DropVertex(Destinations(edges), d) + [d]
    decreases |edges|
  {
    if edges == [] {
      assert Without(edges, d) + [Edge(s, d, w)] == [Edge(s, d, w)];
    } else {
      ReplacedNeighbors(edges[1..], s, d, w);
      assert Destinations(edges)[1..] == Destinations(edges[1..]);
      if edges[0].destination != d {
        assert Without(edges, d) + [Edge(s, d, w)] == [edges[0]] + (Without(edges[1..], d) + [Edge(s, d, w)]);
      }
    }
  }

  /** `vs` without the occurrences of `d`, in order. */
  function DropVertex(vs: seq<Vertex>, d: Vertex): (r: seq<Vertex>)
    ensures forall v :: v in r <==> v in vs && v != d
  {
    if vs == [] then []
    else if vs[0] == d then DropVertex(vs[1..], d)
    else [vs[0]] + DropVertex(vs[1..], d)
  }

  class DijkstraListGraph {
    var adjacencyList: map<Vertex, seq<Edge>>
    var vertices: seq<Vertex>

    /** The view the algorithm reads. */
    function AsView(): View
      reads this
    {
      DijkstraGraph.View(vertices, adjacencyList)
    }

    /** A well-formed view, with at most one edge per ordered pair. */
    ghost predicate Valid()
      reads this
    {
      WellFormed(AsView()) && forall u :: u in adjacencyList ==> OneEach(adjacencyList[u])
    }

    /** An empty graph. */
    constructor ()
      ensures Valid() && adjacencyList == map[] && vertices == []
    {
      adjacencyList := map[];
      vertices := [];
    }

    /** `addVertex`: a new vertex gets an empty edge list and goes to the
        end of the vertex list; a present one changes nothing. */
    method AddVertex(vertex: Vertex)
      requires Valid()
      modifies this
      ensures Valid()
      ensures old(vertex in adjacencyList) ==> adjacencyList == old(adjacencyList) && vertices == old(vertices)
      ensures old(vertex !in adjacencyList) ==> adjacencyList == old(adjacencyList)[vertex := []] && vertices == old(vertices) + [vertex]
    {
      if vertex !in adjacencyList {
        adjacencyList := adjacencyList[vertex := []];
        vertices := vertices + [vertex];
      }
    }

    /** `setEdge`: `IllegalArgumentException` for identical endpoints, an
        unknown endpoint or a negative weight, changing nothing; otherwise
        `source`'s list loses its edge into `destination`, if any, and gains
        the new one at its end. */
    method SetEdge(source: Vertex, destination: Vertex, weight: int) returns (o: Outcome)
      requires Valid()
      modifies this
      ensures Valid()
      ensures o == if source == destination || source !in old(adjacencyList) || destination !in old(adjacencyList) || weight < 0 then Fail(IllegalArgument) else Pass
      ensures o.Fail? ==> adjacencyList == old(adjacencyList) && vertices == old(vertices)
      ensures o.Pass? ==> vertices == old(vertices) && adjacencyList == old(adjacencyList)[source := Without(old(adjacencyList)[source], destination) + [Edge(source, destination, weight)]]
    {
      if source == destination {
        return Fail(IllegalArgument);
      }
      if source !in adjacencyList || destination !in adjacencyList {
        return Fail(IllegalArgument);
      }
      if weight < 0 {
        return Fail(IllegalArgument);
      }
      var edges := adjacencyList[source];
      var edges' := ReplaceOrUpdateEdge(edges, source, destination, weight);
      ReplacedEdges(edges, source, destination, weight);
      ReplacedWellFormed(AsView(), source, destination, weight);
      adjacencyList := adjacencyList[source := edges'];
      return Pass;
    }

    /** `replaceOrUpdateEdge`: the list without the edge `findEdge` finds,
        if any, and with the new edge appended. */
    method ReplaceOrUpdateEdge(edgeList: seq<Edge>, source: Vertex, destination: Vertex, weight: int) returns (r: seq<Edge>)
      requires OneEach(edgeList) && forall k :: 0 <= k < |edgeList| ==> edgeList[k].source == source
      ensures r == Without(edgeList, destination) + [Edge(source, destination, weight)]
    {
      ReplacedEdges(edgeList, source, destination, weight);
      var existingEdge := FindEdge(edgeList, source, destination);
      r := edgeList;
      if existingEdge.Some? {
        r := RemoveFirst(r, existingEdge.value);
      }
      r := r + [Edge(source, destination, weight)];
    }

    /** `findEdge`: the first edge from `source` to `destination`, or
        `None` (null). */
    method FindEdge(edges: seq<Edge>, source: Vertex, destination: Vertex) returns (r: Option<Edge>)
      ensures r == FindIn(edges, source, destination)
    {
      var i := 0;
      while i < |edges|
        invariant 0 <= i <= |edges|
        invariant FindIn(edges, source, destination) == FindIn(edges[i..], source, destination)
      {
        if edges[i].source == source && edges[i].destination == destination {
          return Some(edges[i]);
        }
        assert edges[i..][1..] == edges[i + 1..];
        i := i + 1;
      }
      return None;
    }

    /** `getVertices`: each vertex once, in insertion order. */
    function GetVertices(): (r: seq<Vertex>)
      reads this
      requires Valid()
      ensures forall v :: v in r <==> v in adjacencyList
      ensures forall i, j :: 0 <= i < j < |r| ==> r[i] != r[j]
    {
      vertices
    }

    /** `getNeighbors`: the destinations of `vertex`'s edges in list order;
        a null list, so `NullPointerException`, for an unknown vertex. */
    method GetNeighbors(vertex: Vertex) returns (r: Result<seq<Vertex>>)
      requires Valid()
      ensures vertex !in adjacencyList ==> r == Failure(NullPointer)
      ensures vertex in adjacencyList ==> r == Success(Neighbors(AsView(), vertex))
    {
      if vertex !in adjacencyList {
        return Failure(NullPointer);
      }
      var edges := adjacencyList[vertex];
      var neighbors := [];
      var i := 0;
      while i < |edges|
        invariant 0 <= i <= |edges|
        invariant neighbors == Destinations(edges[..i])
      {
        assert edges[..i + 1] == edges[..i] + [edges[i]];
        DestinationsSnoc(edges[..i], edges[i]);
        neighbors := neighbors + [edges[i].destination];
        i := i + 1;
      }
      assert edges[..i] == edges;
      return Success(neighbors);
    }

    /** `getEdgeWeightBetween`: the weight of the first edge into
        `destination`, or `INFINITY`; `NullPointerException` for an
        unknown source. */
    method GetEdgeWeightBetween(source: Vertex, destination: Vertex) returns (r: Result<int>)
      requires Valid()
      ensures source !in adjacencyList ==> r == Failure(NullPointer)
      ensures source in adjacencyList ==> r == Success(Weight(AsView(), source, destination))
    {
      if source !in adjacencyList {
        return Failure(NullPointer);
      }
      var edges := adjacencyList[source];
      var i := 0;
      while i < |edges|
        invariant 0 <= i <= |edges|
        invariant WeightTo(edges, destination) == WeightTo(edges[i..], destination)
      {
        if edges[i].destination == destination {
          return Success(edges[i].weight);
        }
        assert edges[i..][1..] == edges[i + 1..];
        i := i + 1;
      }
      return Success(INFINITY);
    }

    /** `getVertexCount`: the number of distinct vertices added. */
    function GetVertexCount(): (n: int)
      reads this
      requires Valid()
      ensures n == |adjacencyList.Keys|
    {
      DistinctCount(vertices);
      assert adjacencyList.Keys == set v | v in vertices;
      |vertices|
    }
  }

  /** The destinations of a list grown by one edge. */
  lemma DestinationsSnoc(edges: seq<Edge>, e: Edge)
    ensures Destinations(edges + [e]) == Destinations(edges) + [e.destination]
  {
  }

  /** Replacing `s`'s list keeps the view well-formed. */
  lemma ReplacedWellFormed(g: View, s: Vertex, d: Vertex, w: int)
    requires WellFormed(g) && s in g.out && d in g.out && w >= 0
    ensures WellFormed(View(g.vertices, g.out[s := Without(g.out[s], d) + [Edge(s, d, w)]]))
  {
    var r := Without(g.out[s], d) + [Edge(s, d, w)];
    forall k | 0 <= k < |r|
      ensures r[k].source == s && r[k].destination in g.out && 0 <= r[k].weight
    {
      if k < |r| - 1 {
        assert r[k] in Without(g.out[s], d);
      }
    }
  }

  /** `setEdge(s, d, w)` in the view: the weight from `s` to `d` becomes
      `w`, every other weight stays, `d` becomes `s`'s last neighbour, and
      no edge leaves any other vertex, so in particular no `d`→`s` edge
      appears. */
  lemma SetEdgeEffect(g: View, s: Vertex, d: Vertex, w: int, x: Vertex, y: Vertex)
    requires s in g.out && x in g.out
    ensures var g' := View(g.vertices, g.out[s := Without(g.out[s], d) + [Edge(s, d, w)]]);
      Weight(g', s, d) == w &&
      ((x, y) != (s, d) ==> Weight(g', x, y) == Weight(g, x, y)) &&
      Neighbors(g', s) == DropVertex(Neighbors(g, s), d) + [d] &&
      (x != s ==> g'.out[x] == g.out[x])
  {
    ReplacedWeights(g.out[s], s, d, w, y);
    ReplacedNeighbors(g.out[s], s, d, w);
  }
}
