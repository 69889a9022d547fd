/** The adjacency-matrix graph of the traversal demo, built from a fixed
    array of vertices: vertex `vertices[i]` gets index `i` (the last one,
    for a vertex listed twice), and a cell is 1 between adjacent vertices.
    Each vertex carries its own visited flag, given here as the set of
    vertices whose flag is set. */
module UndirectedUnweightedMatrixGraph {
  import opened Java
  import opened Graph
  import opened ExplorableGraph
  import M = ExplorableMatrixGraph

  /** The index map after `put(vertices[i], i)` for every `i < n`, in
      order: a vertex listed more than once keeps its last index. */
  function Indexed(vertices: seq<Vertex>, n: int): map<Vertex, int>
    requires 0 <= n <= |vertices|
  {
    if n == 0 then map[] else Indexed(vertices, n - 1)[vertices[n - 1] := n - 1]
  }

  /** The map holds exactly the first `n` vertices, each at the position of
      its last occurrence among them. */
  lemma {:induction false} IndexedLast(vertices: seq<Vertex>, n: int)
    requires 0 <= n <= |vertices|
    ensures forall v :: v in Indexed(vertices, n) <==> exists k :: 0 <= k < n && vertices[k] == v
    ensures forall v :: v in Indexed(vertices, n) ==>
      0 <= Indexed(vertices, n)[v] < n && vertices[Indexed(vertices, n)[v]] == v &&
      forall k :: Indexed(vertices, n)[v] < k < n ==> vertices[k] != v
  {
    if n > 0 {
      IndexedLast(vertices, n - 1);
    }
  }

  /** The class's private `getVertexByIndex`, an entry-set search for a vertex mapped to
      `value`: a vertex the map sends to `value`, or `None` (null) when
      there is none; for an injective map, the only such vertex. */
  method FindVertexByIndex(indices: map<Vertex, int>, value: int) returns (r: Option<Vertex>)
    ensures r.Some? ==> r.value in indices && indices[r.value] == value
    ensures r.None? ==> forall v :: v in indices ==> indices[v] != value
    ensures Injective(indices) && r.Some? ==> forall v :: v in indices && indices[v] == value ==> v == r.value
  {
    var entries := indices.Keys;
    while entries != {}
      invariant entries <= indices.Keys
      invariant forall v :: v in indices && v !in entries ==> indices[v] != value
      decreases |entries|
    {
      var v :| v in entries;
      if indices[v] == value {
        return Some(v);
      }
      entries := entries - {v};
    }
    return None;
  }

  class UndirectedUnweightedMatrixGraph {
    var indicesMap: map<Vertex, int>
    const adjacencyMatrix: array2<int>
    /** The vertex holding each index in use: the inverse of `indicesMap`. */
    ghost var owner: map<int, Vertex>

    /** The matrix is square, symmetric and 0/1, one row per array slot;
        `owner` inverts `indicesMap`; a cell that is 1 lies between two
        distinct vertices. */
    ghost predicate Valid()
      reads this, adjacencyMatrix
    {
      adjacencyMatrix.Length0 == adjacencyMatrix.Length1 &&
      (forall v :: v in indicesMap ==> 0 <= indicesMap[v] < adjacencyMatrix.Length0) &&
      M.Inverse(indicesMap, owner) &&
      forall i, j :: 0 <= i < adjacencyMatrix.Length0 && 0 <= j < adjacencyMatrix.Length0 ==>
        adjacencyMatrix[i, j] == adjacencyMatrix[j, i] && (adjacencyMatrix[i, j] == 0 || adjacencyMatrix[i, j] == 1) &&
        (adjacencyMatrix[i, j] == 1 ==> i != j && i in owner && j in owner)
    }

    /** The constructor once the array is known to be non-empty: each
        vertex at the index of its last occurrence, every cell 0. */
    constructor (vertices: seq<Vertex>)
      requires |vertices| > 0
      ensures Valid() && fresh(adjacencyMatrix)
      ensures indicesMap == Indexed(vertices, |vertices|)
      ensures adjacencyMatrix.Length0 == |vertices|
      ensures forall i, j :: 0 <= i < |vertices| && 0 <= j < |vertices| ==> adjacencyMatrix[i, j] == 0
    {
      var indices: map<Vertex, int> := map[];
      ghost var owners: map<int, Vertex> := map[];
      var count := |vertices|;
      for i := 0 to count
        invariant indices == Indexed(vertices, i)
        invariant forall v :: v in indices ==> 0 <= indices[v] < i
        invariant M.Inverse(indices, owners)
      {
        if vertices[i] in indices {
          owners := owners - {indices[vertices[i]]};
        }
        indices := indices[vertices[i] := i];
        owners := owners[i := vertices[i]];
      }
      indicesMap := indices;
      owner := owners;
      adjacencyMatrix := new int[count, count]((i, j) => 0);
    }

    /** Row `i` of the matrix. */
    function Row(i: int): (cells: seq<int>)
      reads this, adjacencyMatrix
      requires 0 <= i < adjacencyMatrix.Length0
      ensures |cells| == adjacencyMatrix.Length1
      ensures forall j :: 0 <= j < |cells| ==> cells[j] == adjacencyMatrix[i, j]
    {
      seq(adjacencyMatrix.Length1, j requires 0 <= j < adjacencyMatrix.Length1 reads adjacencyMatrix => adjacencyMatrix[i, j])
    }

    /** The neighbours of a vertex, in ascending column order. */
    ghost function Neighbors(u: Vertex): seq<Vertex>
      reads this, adjacencyMatrix
      requires Valid() && u in indicesMap
    {
      M.RowNeighbors(Row(indicesMap[u]), owner, 0)
    }

    /** `setEdge`: `IllegalArgumentException` for identical endpoints or an
        unknown endpoint, changing nothing; otherwise cells
        `[source][destination]` and `[destination][source]` both become 1,
        and no other cell changes. */
    method SetEdge(source: Vertex, destination: Vertex) returns (o: Outcome)
      requires Valid()
      modifies adjacencyMatrix
      ensures Valid()
      ensures o == if source == destination || source !in indicesMap || destination !in indicesMap then Fail(IllegalArgument) else Pass
      ensures forall i, j :: 0 <= i < adjacencyMatrix.Length0 && 0 <= j < adjacencyMatrix.Length0 ==>
        adjacencyMatrix[i, j] ==
          if o.Pass? && ((i == indicesMap[source] && j == indicesMap[destination]) || (i == indicesMap[destination] && j == indicesMap[source]))
          then 1 else old(adjacencyMatrix[i, j])
    {
      if source == destination {
        return Fail(IllegalArgument);
      }
      if source !in indicesMap {
        return Fail(IllegalArgument);
      }
      if destination !in indicesMap {
        return Fail(IllegalArgument);
      }
      var sourceIndex := indicesMap[source];
      var destinationIndex := indicesMap[destination];
      assert owner[sourceIndex] == source && owner[destinationIndex] == destination;
      adjacencyMatrix[sourceIndex, destinationIndex] := 1;
      adjacencyMatrix[destinationIndex, sourceIndex] := 1;
      return Pass;
    }

    /** `findUnvisitedAdjacent`: `IllegalArgumentException` for an unknown
        vertex; otherwise the adjacent vertex of lowest index whose flag is
        not set, or `None` (null). */
    method FindUnvisitedAdjacent(vertex: Vertex, visited: set<Vertex>) returns (r: Result<Option<Vertex>>)
      requires Valid()
      ensures vertex !in indicesMap ==> r == Failure(IllegalArgument)
      ensures vertex in indicesMap ==> r == Success(FirstUnvisited(Neighbors(vertex), visited))
    {
      if vertex !in indicesMap {
        return Failure(IllegalArgument);
      }
      var index := indicesMap[vertex];
      ghost var cells := Row(index);
      for i := 0 to adjacencyMatrix.Length1
        invariant FirstUnvisited(Neighbors(vertex), visited) == FirstUnvisited(M.RowNeighbors(cells, owner, i), visited)
      {
        if adjacencyMatrix[index, i] == 1 {
          assert Injective(indicesMap) by {
            forall u, v | u in indicesMap && v in indicesMap && indicesMap[u] == indicesMap[v]
              ensures u == v
            {
              assert owner[indicesMap[u]] == u && owner[indicesMap[v]] == v;
            }
          }
          var adjacentVertex := FindVertexByIndex(indicesMap, i);
          assert M.RowNeighbors(cells, owner, i) == [owner[i]] + M.RowNeighbors(cells, owner, i + 1);
          assert adjacentVertex == Some(owner[i]);
          if adjacentVertex.Some? && adjacentVertex.value !in visited {
            return Success(adjacentVertex);
          }
          assert ([owner[i]] + M.RowNeighbors(cells, owner, i + 1))[1..] == M.RowNeighbors(cells, owner, i + 1);
        }
      }
      return Success(None);
    }

    /** A vertex lists `v` once when the cell between them is 1, and
        otherwise not at all, so the neighbour relation is symmetric. */
    lemma NeighborCount(u: Vertex, v: Vertex)
      requires Valid() && u in indicesMap
      ensures multiset(Neighbors(u))[v] ==
        if v in indicesMap && adjacencyMatrix[indicesMap[u], indicesMap[v]] == 1 then 1 else 0
    {
      M.RowCount(Row(indicesMap[u]), indicesMap, owner, 0, v);
    }
  }

  /** `new UndirectedUnweightedMatrixGraph(vertices)`:
      `IllegalArgumentException` for an empty array, otherwise the graph
      of the array's vertices with no edges. */
  method Create(vertices: seq<Vertex>) returns (r: Result<UndirectedUnweightedMatrixGraph>)
    ensures r.Failure? <==> vertices == []
    ensures r.Failure? ==> r.error == IllegalArgument
    ensures r.Success? ==> fresh(r.value) && r.value.Valid() && r.value.indicesMap == Indexed(vertices, |vertices|)
  {
    if |vertices| == 0 {
      return Failure(IllegalArgument);
    }
    var g := new UndirectedUnweightedMatrixGraph(vertices);
    return Success(g);
  }
}
