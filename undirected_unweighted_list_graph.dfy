/** The adjacency-list graph of the traversal demo, built from a fixed
    array of vertices; each vertex carries its own visited flag, given here
    as the set of vertices whose flag is set. */
module UndirectedUnweightedListGraph {
  import opened Java
  import opened Graph
  import opened ExplorableGraph
  import L = ExplorableListGraph

  class UndirectedUnweightedListGraph {
    var adjacencyList: map<Vertex, seq<Vertex>>

    /** The lists are those of an undirected graph. */
    ghost predicate Valid()
      reads this
    {
      L.Lists(adjacencyList)
    }

    /** The constructor once the array is known to be non-empty: every
        vertex of the array, and no other, starts with an empty list. */
    constructor (vertices: seq<Vertex>)
      requires |vertices| > 0
      ensures Valid()
      ensures adjacencyList.Keys == set v | v in vertices
      ensures forall v :: v in adjacencyList ==> adjacencyList[v] == []
    {
      var lists: map<Vertex, seq<Vertex>> := map[];
      for i := 0 to |vertices|
        invariant lists.Keys == set k | 0 <= k < i :: vertices[k]
        invariant forall v :: v in lists ==> lists[v] == []
      {
        lists := lists[vertices[i] := []];
      }
      assert (set k | 0 <= k < |vertices| :: vertices[k]) == set v | v in vertices;
      adjacencyList := lists;
    }

    /** `setEdge`: `IllegalArgumentException` for identical endpoints or an
        unknown endpoint, changing nothing; otherwise each endpoint is
        appended to the other's list. */
    method SetEdge(source: Vertex, destination: Vertex) returns (o: Outcome)
      requires Valid()
      modifies this
      ensures Valid()
      ensures o == if source == destination || source !in old(adjacencyList) || destination !in old(adjacencyList) then Fail(IllegalArgument) else Pass
      ensures o.Fail? ==> adjacencyList == old(adjacencyList)
      ensures o.Pass? ==> adjacencyList == L.Joined(old(adjacencyList), source, destination)
    {
      if source == destination {
        return Fail(IllegalArgument);
      }
      if source !in adjacencyList || destination !in adjacencyList {
        return Fail(IllegalArgument);
      }
      L.JoinedLists(adjacencyList, source, destination);
      adjacencyList := L.Joined(adjacencyList, source, destination);
      return Pass;
    }

    /** `findUnvisitedAdjacent`: `IllegalArgumentException` for an unknown
        vertex; otherwise the first neighbour in list order whose flag is
        not set, or `None` (null). */
    method FindUnvisitedAdjacent(vertex: Vertex, visited: set<Vertex>) returns (r: Result<Option<Vertex>>)
      ensures vertex !in adjacencyList ==> r == Failure(IllegalArgument)
      ensures vertex in adjacencyList ==> r == Success(FirstUnvisited(adjacencyList[vertex], visited))
    {
      if vertex !in adjacencyList {
        return Failure(IllegalArgument);
      }
      var neighbors := adjacencyList[vertex];
      for i := 0 to |neighbors|
        invariant FirstUnvisited(neighbors, visited) == FirstUnvisited(neighbors[i..], visited)
      {
        if neighbors[i] !in visited {
          return Success(Some(neighbors[i]));
        }
        assert neighbors[i..][1..] == neighbors[i + 1..];
      }
      return Success(None);
    }
  }

  /** `new UndirectedUnweightedListGraph(vertices)`:
      `IllegalArgumentException` for an empty array, otherwise the graph
      of the array's vertices with no edges. */
  method Create(vertices: seq<Vertex>) returns (r: Result<UndirectedUnweightedListGraph>)
    ensures r.Failure? <==> vertices == []
    ensures r.Failure? ==> r.error == IllegalArgument
    ensures r.Success? ==> fresh(r.value) && r.value.Valid() && r.value.adjacencyList.Keys == set v | v in vertices
    ensures r.Success? ==> forall v :: v in r.value.adjacencyList ==> r.value.adjacencyList[v] == []
  {
    if |vertices| == 0 {
      return Failure(IllegalArgument);
    }
    var g := new UndirectedUnweightedListGraph(vertices);
    return Success(g);
  }
}
