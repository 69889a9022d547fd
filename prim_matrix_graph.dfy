/** The adjacency-matrix graph for Prim's algorithm: each vertex owns the
    row and column of its index, and a cell holds the weight of the edge
    between two vertices, or `NO_EDGE`. */
module PrimMatrixGraph {
  import opened Java
  import opened Graph
  import opened PrimGraph

  /** `Integer.MAX_VALUE`, the cell value for "no edge". */
  const NO_EDGE: int := INT_MAX

  /** Every cell of the row that holds an edge lies in a column some vertex
      owns. */
  ghost predicate Fits(cells: seq<int>, owner: map<int, Vertex>)
  {
    forall k :: 0 <= k < |cells| && cells[k] != NO_EDGE ==> k in owner
  }

  /** The edges of a row whose cells are `cells`, from column `j` on, in
      ascending column order: one edge into `owner[k]` for each cell `k`
      that is not `NO_EDGE`. */
  function RowEdges(source: Vertex, cells: seq<int>, owner: map<int, Vertex>, j: int): seq<Edge>
    requires 0 <= j <= |cells| && Fits(cells, owner)
    decreases |cells| - j
  {
    if j == |cells| then []
    else if cells[j] != NO_EDGE then [Edge(source, owner[j], cells[j])] + RowEdges(source, cells, owner, j + 1)
    else RowEdges(source, cells, owner, j + 1)
  }

  /** The row's edges from column `j` on are exactly the edges into the
      owners of the columns, from `j` on, whose cell is not `NO_EDGE`. */
  lemma {:induction false} RowEdgesFrom(source: Vertex, cells: seq<int>, owner: map<int, Vertex>, j: int, e: Edge)
    requires 0 <= j <= |cells| && Fits(cells, owner)
    ensures e in RowEdges(source, cells, owner, j) <==>
      exists k :: j <= k < |cells| && cells[k] != NO_EDGE && e == Edge(source, owner[k], cells[k])
    decreases |cells| - j
  {
    if j < |cells| {
      RowEdgesFrom(source, cells, owner, j + 1, e);
      if e in RowEdges(source, cells, owner, j + 1) {
        var k :| j + 1 <= k < |cells| && cells[k] != NO_EDGE && e == Edge(source, owner[k], cells[k]);
      }
      if cells[j] != NO_EDGE && e == Edge(source, owner[j], cells[j]) {
        assert e in RowEdges(source, cells, owner, j);
      }
    }
  }

  class PrimMatrixGraph {
    var indicesMap: map<Vertex, int>
    const adjacencyMatrix: array2<int>
    const maxVertices: int
    var currentVertexCount: int
    /** The vertex holding each index in use: the inverse of `indicesMap`. */
    ghost var owner: map<int, Vertex>

    /** The matrix is `maxVertices` square and symmetric; the counter lies
        within `maxVertices` and above every index, so it is at least the
        number of vertices; `owner` inverts `indicesMap`; a cell holding an
        edge lies between two distinct vertices. */
    ghost predicate Valid()
      reads this, adjacencyMatrix
    {
      adjacencyMatrix.Length0 == maxVertices && adjacencyMatrix.Length1 == maxVertices &&
      0 <= currentVertexCount <= maxVertices && |indicesMap.Keys| <= currentVertexCount &&
      (forall v :: v in indicesMap ==> 0 <= indicesMap[v] < currentVertexCount && indicesMap[v] in owner && owner[indicesMap[v]] == v) &&
      (forall i :: i in owner ==> owner[i] in indicesMap && indicesMap[owner[i]] == i) &&
      forall i, j :: 0 <= i < maxVertices && 0 <= j < maxVertices ==>
        adjacencyMatrix[i, j] == adjacencyMatrix[j, i] &&
        (adjacencyMatrix[i, j] != NO_EDGE ==> i != j && i in owner && j in owner)
    }

    /** The constructor once `new int[n][n]` has succeeded: every cell
        `NO_EDGE`, no vertices. */
    constructor (maxVertexCount: int)
      requires maxVertexCount >= 0
      ensures Valid() && fresh(adjacencyMatrix) && maxVertices == maxVertexCount
      ensures indicesMap == map[] && currentVertexCount == 0
      ensures forall i, j :: 0 <= i < maxVertexCount && 0 <= j < maxVertexCount ==> adjacencyMatrix[i, j] == NO_EDGE
    {
      indicesMap := map[];
      owner := map[];
      var m := new int[maxVertexCount, maxVertexCount];
      maxVertices := maxVertexCount;
      currentVertexCount := 0;
      for i := 0 to maxVertexCount
        invariant forall i', j :: 0 <= i' < i && 0 <= j < maxVertexCount ==> m[i', j] == NO_EDGE
      {
        for j := 0 to maxVertexCount
          invariant forall i', j' :: 0 <= i' < maxVertexCount && 0 <= j' < maxVertexCount && (i' < i || (i' == i && j' < j)) ==> m[i', j'] == NO_EDGE
        {
          m[i, j] := NO_EDGE;
        }
      }
      adjacencyMatrix := m;
    }

    /** Row `i` of the matrix. */
    function Row(i: int): (cells: seq<int>)
      reads this, adjacencyMatrix
      requires 0 <= i < adjacencyMatrix.Length0
      ensures |cells| == adjacencyMatrix.Length1
      ensures forall j :: 0 <= j < |cells| ==> cells[j] == adjacencyMatrix[i, j]
    {
      seq(adjacencyMatrix.Length1, j requires 0 <= j < adjacencyMatrix.Length1 reads adjacencyMatrix => adjacencyMatrix[i, j])
    }

    /** The view Prim's algorithm reads: the counter, and the row edges of
        every vertex. */
    ghost function AsView(): PrimView
      reads this, adjacencyMatrix
      requires Valid()
    {
      PrimView(currentVertexCount, map u | u in indicesMap :: RowEdges(u, Row(indicesMap[u]), owner, 0))
    }

    /** `addVertex`: `IllegalStateException` once the counter reaches
        `maxVertices`, checked first, so even for a present vertex;
        otherwise a new vertex gets the counter as its index, and the
        counter advances whether or not the vertex was new. */
    method AddVertex(vertex: Vertex) returns (o: Outcome)
      requires Valid()
      modifies this
      ensures Valid()
      ensures o == if old(currentVertexCount) >= maxVertices then Fail(IllegalState) else Pass
      ensures o.Fail? ==> indicesMap == old(indicesMap) && currentVertexCount == old(currentVertexCount)
      ensures o.Pass? ==> currentVertexCount == old(currentVertexCount) + 1
      ensures o.Pass? && old(vertex in indicesMap) ==> indicesMap == old(indicesMap)
      ensures o.Pass? && old(vertex !in indicesMap) ==> indicesMap == old(indicesMap)[vertex := old(currentVertexCount)]
    {
      if currentVertexCount >= maxVertices {
        return Fail(IllegalState);
      }
      if vertex !in indicesMap {
        indicesMap := indicesMap[vertex := currentVertexCount];
        owner := owner[currentVertexCount := vertex];
      }
      currentVertexCount := currentVertexCount + 1;
      return Pass;
    }

    /** `setEdge`: `IllegalArgumentException` for identical endpoints or an
        unknown endpoint, changing nothing; otherwise cells
        `[source][destination]` and `[destination][source]` both become
        `weight`, any weight, and no other cell changes. */
    method SetEdge(source: Vertex, destination: Vertex, weight: int) returns (o: Outcome)
      requires Valid()
      modifies adjacencyMatrix
      ensures Valid()
      ensures o == if source == destination || source !in indicesMap || destination !in indicesMap then Fail(IllegalArgument) else Pass
      ensures forall i, j :: 0 <= i < maxVertices && 0 <= j < maxVertices ==>
        adjacencyMatrix[i, j] ==
          if o.Pass? && ((i == indicesMap[source] && j == indicesMap[destination]) || (i == indicesMap[destination] && j == indicesMap[source]))
          then weight else old(adjacencyMatrix[i, j])
    {
      if source == destination {
        return Fail(IllegalArgument);
      }
      if source !in indicesMap {
        return Fail(IllegalArgument);
      }
      if destination !in indicesMap {
        return Fail(IllegalArgument);
      }
      var sourceIndex := indicesMap[source];
      var destinationIndex := indicesMap[destination];
      assert owner[sourceIndex] == source && owner[destinationIndex] == destination;
      adjacencyMatrix[sourceIndex, destinationIndex] := weight;
      adjacencyMatrix[destinationIndex, sourceIndex] := weight;
      return Pass;
    }

    /** `getEdgesForSource`: `IllegalArgumentException` for an unknown
        vertex; otherwise, in ascending column order, an edge from `source`
        for every cell of its row that is not `NO_EDGE`, into the vertex
        `VertexUtil.getVertexByIndex` finds for the column. */
    method GetEdgesForSource(source: Vertex) returns (r: Result<seq<Edge>>)
      requires Valid()
      ensures source !in indicesMap ==> r == Failure(IllegalArgument)
      ensures source in indicesMap ==> r == Success(AsView().out[source])
    {
      if source !in indicesMap {
        return Failure(IllegalArgument);
      }
      var index := indicesMap[source];
      var edges := ScanRow(source, index);
      ViewRow(source);
      return Success(edges);
    }

    /** The loop of `getEdgesForSource` over row `index`, `source`'s. */
    method ScanRow(source: Vertex, index: int) returns (edges: seq<Edge>)
      requires Valid() && source in indicesMap && index == indicesMap[source]
      ensures 0 <= index < maxVertices && edges == RowEdges(source, Row(index), owner, 0)
    {
      ghost var cells := Row(index);
      edges := [];
      for i := 0 to adjacencyMatrix.Length1
        invariant RowEdges(source, cells, owner, 0) == edges + RowEdges(source, cells, owner, i)
      {
        if adjacencyMatrix[index, i] != NO_EDGE {
          assert owner[i] in indicesMap && indicesMap[owner[i]] == i;
          var neighbor :| neighbor in indicesMap && indicesMap[neighbor] == i;
          assert neighbor == owner[i];
          edges := edges + [Edge(source, neighbor, adjacencyMatrix[index, i])];
        }
      }
      assert RowEdges(source, cells, owner, adjacencyMatrix.Length1) == [];
    }

    /** A vertex's edges in the view are its row's. */
    lemma ViewRow(u: Vertex)
      requires Valid() && u in indicesMap
      ensures 0 <= indicesMap[u] < maxVertices
      ensures AsView().out[u] == RowEdges(u, Row(indicesMap[u]), owner, 0)
    {
    }

    /** The edges listed for `u` are exactly the edges from `u`, into a
        vertex, whose weight is the cell between the two and not
        `NO_EDGE`. */
    lemma EdgesOfRow(u: Vertex, e: Edge)
      requires Valid() && u in indicesMap
      ensures e in AsView().out[u] <==>
        e.source == u && e.destination in indicesMap && e.weight != NO_EDGE &&
        e.weight == adjacencyMatrix[indicesMap[u], indicesMap[e.destination]]
    {
      var cells := Row(indicesMap[u]);
      RowEdgesFrom(u, cells, owner, 0, e);
      if e.source == u && e.destination in indicesMap && e.weight != NO_EDGE &&
         e.weight == adjacencyMatrix[indicesMap[u], indicesMap[e.destination]] {
        var k := indicesMap[e.destination];
        assert cells[k] != NO_EDGE && e == Edge(u, owner[k], cells[k]);
      }
    }

    /** `getVertexCount`: the counter, which is at least the number of
        distinct vertices and exceeds it once a vertex was added twice. */
    function GetVertexCount(): (n: int)
      reads this, adjacencyMatrix
      requires Valid()
      ensures |indicesMap.Keys| <= n && n == AsView().vertexCount
    {
      currentVertexCount
    }

    /** `containsVertex`: whether the vertex has an index. */
    function ContainsVertex(vertex: Vertex): (b: bool)
      reads this, adjacencyMatrix
      requires Valid()
      ensures b <==> vertex in AsView().out
    {
      vertex in indicesMap
    }

    /** The view is well-formed and undirected, and its count covers the
        vertices. */
    lemma ViewWellFormed()
      requires Valid()
      ensures WellFormed(AsView()) && Counted(AsView()) && Undirected(AsView().out)
    {
      var g := AsView();
      assert g.out.Keys == indicesMap.Keys;
      forall u, k | u in g.out && 0 <= k < |g.out[u]|
        ensures g.out[u][k].source == u && g.out[u][k].destination in g.out
      {
        EdgesOfRow(u, g.out[u][k]);
      }
      forall u, k | u in g.out && 0 <= k < |g.out[u]|
        ensures g.out[u][k].destination != u && Edge(g.out[u][k].destination, u, g.out[u][k].weight) in g.out[g.out[u][k].destination]
      {
        var e := g.out[u][k];
        EdgesOfRow(u, e);
        EdgesOfRow(e.destination, Edge(e.destination, u, e.weight));
      }
    }
  }

  /** `new PrimMatrixGraph(maxVertexCount)`: `NegativeArraySizeException`
      for a negative size, otherwise an empty graph whose cells are all
      `NO_EDGE`. */
  method Create(maxVertexCount: int) returns (r: Result<PrimMatrixGraph>)
    ensures r.Failure? <==> maxVertexCount < 0
    ensures r.Failure? ==> r.error == NegativeArraySize
    ensures r.Success? ==> fresh(r.value) && r.value.Valid() && r.value.maxVertices == maxVertexCount
    ensures r.Success? ==> r.value.indicesMap == map[] && r.value.currentVertexCount == 0
  {
    if maxVertexCount < 0 {
      return Failure(NegativeArraySize);
    }
    var g := new PrimMatrixGraph(maxVertexCount);
    return Success(g);
  }
}
