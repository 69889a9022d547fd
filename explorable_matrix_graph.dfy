/** The undirected, unweighted adjacency-matrix graph the traversals
    explore: each vertex owns the row and column of its index, and a cell
    is 1 when the two vertices are adjacent, 0 otherwise. */
module ExplorableMatrixGraph {
  import opened Java
  import opened Graph
  import opened ExplorableGraph

  /** `owner` maps each index in use back to its vertex, and `indices`
      maps each vertex to an index in use. */
  ghost predicate Inverse(indices: map<Vertex, int>, owner: map<int, Vertex>)
  {
    (forall v :: v in indices ==> indices[v] in owner && owner[indices[v]] == v) &&
    forall i :: i in owner ==> owner[i] in indices && indices[owner[i]] == i
  }

  /** Every cell of the row that is 1 lies in a column some vertex owns. */
  ghost predicate Fits(cells: seq<int>, owner: map<int, Vertex>)
  {
    forall k :: 0 <= k < |cells| && cells[k] == 1 ==> k in owner
  }

  /** The neighbours a row lists from column `j` on, in ascending column
      order: the owner of each column whose cell is 1. */
  function RowNeighbors(cells: seq<int>, owner: map<int, Vertex>, j: int): seq<Vertex>
    requires 0 <= j <= |cells| && Fits(cells, owner)
    decreases |cells| - j
  {
    if j == |cells| then []
    else if cells[j] == 1 then [owner[j]] + RowNeighbors(cells, owner, j + 1)
    else RowNeighbors(cells, owner, j + 1)
  }

  /** A row from column `j` on lists a vertex once when its column is at or
      after `j` and its cell is 1, and otherwise not at all. */
  lemma {:induction false} RowCount(cells: seq<int>, indices: map<Vertex, int>, owner: map<int, Vertex>, j: int, v: Vertex)
    requires 0 <= j <= |cells| && Fits(cells, owner) && Inverse(indices, owner)
    ensures multiset(RowNeighbors(cells, owner, j))[v] ==
      if v in indices && j <= indices[v] < |cells| && cells[indices[v]] == 1 then 1 else 0
    decreases |cells| - j
  {
    if j < |cells| {
      RowCount(cells, indices, owner, j + 1, v);
      if cells[j] == 1 {
        assert multiset(RowNeighbors(cells, owner, j)) == multiset{owner[j]} + multiset(RowNeighbors(cells, owner, j + 1));
        if owner[j] == v {
          assert indices[v] == j;
        }
      }
    }
  }

  /** Every vertex a row lists is a vertex of the graph. */
  lemma {:induction false} RowInside(cells: seq<int>, indices: map<Vertex, int>, owner: map<int, Vertex>, j: int)
    requires 0 <= j <= |cells| && Fits(cells, owner) && Inverse(indices, owner)
    ensures forall k :: 0 <= k < |RowNeighbors(cells, owner, j)| ==> RowNeighbors(cells, owner, j)[k] in indices
    decreases |cells| - j
  {
    if j < |cells| {
      RowInside(cells, indices, owner, j + 1);
      var r := RowNeighbors(cells, owner, j);
      if cells[j] == 1 {
        assert r[1..] == RowNeighbors(cells, owner, j + 1);
      }
    }
  }

  class ExplorableMatrixGraph {
    var indicesMap: map<Vertex, int>
    const adjacencyMatrix: array2<int>
    const maxVertices: int
    var currentVertexCount: int
    /** The vertex holding each index in use: the inverse of `indicesMap`. */
    ghost var owner: map<int, Vertex>

    /** The matrix is `maxVertices` square, symmetric and 0/1; the counter
        lies within `maxVertices` and above every index; `owner` inverts
        `indicesMap`; a cell that is 1 lies between two distinct vertices. */
    ghost predicate Valid()
      reads this, adjacencyMatrix
    {
      adjacencyMatrix.Length0 == maxVertices && adjacencyMatrix.Length1 == maxVertices &&
      0 <= currentVertexCount <= maxVertices && |indicesMap.Keys| <= currentVertexCount &&
      (forall v :: v in indicesMap ==> 0 <= indicesMap[v] < currentVertexCount) &&
      Inverse(indicesMap, owner) &&
      forall i, j :: 0 <= i < maxVertices && 0 <= j < maxVertices ==>
        adjacencyMatrix[i, j] == adjacencyMatrix[j, i] && (adjacencyMatrix[i, j] == 0 || adjacencyMatrix[i, j] == 1) &&
        (adjacencyMatrix[i, j] == 1 ==> i != j && i in owner && j in owner)
    }

    /** The constructor once `new int[n][n]` has succeeded: every cell 0, no
        vertices. */
    constructor (maxVertexCount: int)
      requires maxVertexCount >= 0
      ensures Valid() && fresh(adjacencyMatrix) && maxVertices == maxVertexCount
      ensures indicesMap == map[] && currentVertexCount == 0
      ensures forall i, j :: 0 <= i < maxVertexCount && 0 <= j < maxVertexCount ==> adjacencyMatrix[i, j] == 0
    {
      indicesMap := map[];
      owner := map[];
      adjacencyMatrix := new int[maxVertexCount, maxVertexCount]((i, j) => 0);
      maxVertices := maxVertexCount;
      currentVertexCount := 0;
    }

    /** Row `i` of the matrix. */
    function Row(i: int): (cells: seq<int>)
      reads this, adjacencyMatrix
      requires 0 <= i < adjacencyMatrix.Length0
      ensures |cells| == adjacencyMatrix.Length1
      ensures forall j :: 0 <= j < |cells| ==> cells[j] == adjacencyMatrix[i, j]
    {
      seq(adjacencyMatrix.Length1, j requires 0 <= j < adjacencyMatrix.Length1 reads adjacencyMatrix => adjacencyMatrix[i, j])
    }

    /** The view the traversals read: the row neighbours of every vertex. */
    ghost function AsView(): Explorable
      reads this, adjacencyMatrix
      requires Valid()
    {
      Explorable(map u | u in indicesMap :: RowNeighbors(Row(indicesMap[u]), owner, 0), IllegalArgument)
    }

    /** `addVertex`: `IllegalStateException` once the counter reaches
        `maxVertices`, checked first, so even for a present vertex;
        otherwise a new vertex gets the counter as its index, and the
        counter advances whether or not the vertex was new. */
    method AddVertex(vertex: Vertex) returns (o: Outcome)
      requires Valid()
      modifies this
      ensures Valid()
      ensures o == if old(currentVertexCount) >= maxVertices then Fail(IllegalState) else Pass
      ensures o.Fail? ==> indicesMap == old(indicesMap) && currentVertexCount == old(currentVertexCount)
      ensures o.Pass? ==> currentVertexCount == old(currentVertexCount) + 1
      ensures o.Pass? && old(vertex in indicesMap) ==> indicesMap == old(indicesMap)
      ensures o.Pass? && old(vertex !in indicesMap) ==> indicesMap == old(indicesMap)[vertex := old(currentVertexCount)]
    {
      if currentVertexCount >= maxVertices {
        return Fail(IllegalState);
      }
      if vertex !in indicesMap {
        indicesMap := indicesMap[vertex := currentVertexCount];
        owner := owner[currentVertexCount := vertex];
      }
      currentVertexCount := currentVertexCount + 1;
      return Pass;
    }

    /** `setEdge`: `IllegalArgumentException` for identical endpoints or an
        unknown endpoint, changing nothing; otherwise cells
        `[source][destination]` and `[destination][source]` both become 1,
        and no other cell changes. */
    method SetEdge(source: Vertex, destination: Vertex) returns (o: Outcome)
      requires Valid()
      modifies adjacencyMatrix
      ensures Valid()
      ensures o == if source == destination || source !in indicesMap || destination !in indicesMap then Fail(IllegalArgument) else Pass
      ensures forall i, j :: 0 <= i < maxVertices && 0 <= j < maxVertices ==>
        adjacencyMatrix[i, j] ==
          if o.Pass? && ((i == indicesMap[source] && j == indicesMap[destination]) || (i == indicesMap[destination] && j == indicesMap[source]))
          then 1 else old(adjacencyMatrix[i, j])
    {
      if source == destination {
        return Fail(IllegalArgument);
      }
      if source !in indicesMap {
        return Fail(IllegalArgument);
      }
      if destination !in indicesMap {
        return Fail(IllegalArgument);
      }
      var sourceIndex := indicesMap[source];
      var destinationIndex := indicesMap[destination];
      assert owner[sourceIndex] == source && owner[destinationIndex] == destination;
      adjacencyMatrix[sourceIndex, destinationIndex] := 1;
      adjacencyMatrix[destinationIndex, sourceIndex] := 1;
      return Pass;
    }

    /** `getNeighbors`: `IllegalArgumentException` for an unknown vertex;
        otherwise, in ascending column order, the vertex
        `VertexUtil.getVertexByIndex` finds for each column whose cell in
        the vertex's row is 1. */
    method GetNeighbors(vertex: Vertex) returns (r: Result<seq<Vertex>>)
      requires Valid()
      ensures vertex !in indicesMap ==> r == Failure(IllegalArgument)
      ensures vertex in indicesMap ==> r == Success(AsView().adj[vertex])
    {
      if vertex !in indicesMap {
        return Failure(IllegalArgument);
      }
      var index := indicesMap[vertex];
      var neighbors := ScanRow(index);
      return Success(neighbors);
    }

    /** The loop of `getNeighbors` over row `index`. */
    method ScanRow(index: int) returns (neighbors: seq<Vertex>)
      requires Valid() && 0 <= index < maxVertices
      ensures neighbors == RowNeighbors(Row(index), owner, 0)
    {
      ghost var cells := Row(index);
      neighbors := [];
      for i := 0 to adjacencyMatrix.Length1
        invariant RowNeighbors(cells, owner, 0) == neighbors + RowNeighbors(cells, owner, i)
      {
        if adjacencyMatrix[index, i] == 1 {
          assert owner[i] in indicesMap && indicesMap[owner[i]] == i;
          var neighbor :| neighbor in indicesMap && indicesMap[neighbor] == i;
          assert neighbor == owner[i];
          neighbors := neighbors + [neighbor];
        }
      }
    }

    /** Vertex `u` lists `v` once when the cell between them is 1, and
        otherwise not at all. */
    lemma NeighborCount(u: Vertex, v: Vertex)
      requires Valid() && u in indicesMap
      ensures multiset(AsView().adj[u])[v] ==
        if v in indicesMap && adjacencyMatrix[indicesMap[u], indicesMap[v]] == 1 then 1 else 0
    {
      RowCount(Row(indicesMap[u]), indicesMap, owner, 0, v);
    }

    /** The view is closed and undirected. */
    lemma ViewClosed()
      requires Valid()
      ensures Closed(AsView()) && Symmetric(AsView().adj)
    {
      var g := AsView();
      forall u | u in g.adj
        ensures forall k :: 0 <= k < |g.adj[u]| ==> g.adj[u][k] in g.adj
      {
        RowInside(Row(indicesMap[u]), indicesMap, owner, 0);
      }
      forall u, v | u in g.adj && v in g.adj
        ensures multiset(g.adj[u])[v] == multiset(g.adj[v])[u]
      {
        NeighborCount(u, v);
        NeighborCount(v, u);
      }
      forall u | u in g.adj
        ensures u !in g.adj[u]
      {
        NeighborCount(u, u);
      }
    }
  }

  /** `new ExplorableMatrixGraph(maxVertexCount)`:
      `NegativeArraySizeException` for a negative size, otherwise an empty
      graph whose cells are all 0. */
  method Create(maxVertexCount: int) returns (r: Result<ExplorableMatrixGraph>)
    ensures r.Failure? <==> maxVertexCount < 0
    ensures r.Failure? ==> r.error == NegativeArraySize
    ensures r.Success? ==> fresh(r.value) && r.value.Valid() && r.value.maxVertices == maxVertexCount
    ensures r.Success? ==> r.value.indicesMap == map[] && r.value.currentVertexCount == 0
  {
    if maxVertexCount < 0 {
      return Failure(NegativeArraySize);
    }
    var g := new ExplorableMatrixGraph(maxVertexCount);
    return Success(g);
  }
}
