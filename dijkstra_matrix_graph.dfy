/** The adjacency-matrix graph for Dijkstra's algorithm: vertex `i` of the
    insertion order owns row and column `i`, and a cell holds the weight of
    the edge between two vertices, or `INFINITY` for no edge. */
module DijkstraMatrixGraph {
  import opened Java
  import opened Graph
  import opened DijkstraGraph

  /** Every cell of `cells` that holds an edge lies in a column of `vs`. */
  ghost predicate InColumns(cells: seq<int>, vs: seq<Vertex>)
  {
    forall k :: 0 <= k < |cells| && cells[k] != INFINITY ==> k < |vs|
  }

  /** The edges of a row whose cells are `cells`, from column `j` on, in
      ascending column order: one edge to vertex `vs[k]` for each cell `k`
      that is not `INFINITY`. */
  function RowEdges(source: Vertex, cells: seq<int>, vs: seq<Vertex>, j: int): seq<Edge>
    requires 0 <= j <= |cells| && InColumns(cells, vs)
    decreases |cells| - j
  {
    if j == |cells| then []
    else if cells[j] != INFINITY then [Edge(source, vs[j], cells[j])] + RowEdges(source, cells, vs, j + 1)
    else RowEdges(source, cells, vs, j + 1)
  }

  /** A row of cells holding edges only in the columns of `vs`. */
  ghost predicate RowFits(cells: seq<int>, vs: seq<Vertex>)
  {
    |vs| <= |cells| && (forall a, b :: 0 <= a < b < |vs| ==> vs[a] != vs[b]) &&
    (forall k :: 0 <= k < |cells| ==> 0 <= cells[k]) && InColumns(cells, vs)
  }

  /** The weight the row reports into the vertex of column `k` is cell `k`,
      `INFINITY` included. */
  lemma {:induction false} RowEdgesWeight(source: Vertex, cells: seq<int>, vs: seq<Vertex>, j: int, k: int)
    requires RowFits(cells, vs) && 0 <= j <= k < |vs|
    ensures WeightTo(RowEdges(source, cells, vs, j), vs[k]) == cells[k]
    decreases |cells| - j
  {
    if j < k {
      RowEdgesWeight(source, cells, vs, j + 1, k);
      RowEdgesSkip(source, cells, vs, j, vs[k]);
    } else {
      RowEdgesAt(source, cells, vs, k);
    }
  }

  /** From column `k` on, the weight into `vs[k]` is cell `k`. */
  lemma RowEdgesAt(source: Vertex, cells: seq<int>, vs: seq<Vertex>, k: int)
    requires RowFits(cells, vs) && 0 <= k < |vs|
    ensures WeightTo(RowEdges(source, cells, vs, k), vs[k]) == cells[k]
  {
    if cells[k] == INFINITY {
      RowEdgesMiss(source, cells, vs, k + 1, k);
      RowEdgesSkip(source, cells, vs, k, vs[k]);
    } else {
      RowEdgesHit(source, cells, vs, k);
    }
  }

  /** A column holding an edge starts the row's edges from it with that edge. */
  lemma RowEdgesHit(source: Vertex, cells: seq<int>, vs: seq<Vertex>, k: int)
    requires RowFits(cells, vs) && 0 <= k < |vs| && cells[k] != INFINITY
    ensures WeightTo(RowEdges(source, cells, vs, k), vs[k]) == cells[k]
  {
    var r := RowEdges(source, cells, vs, k);
    assert r == [Edge(source, vs[k], cells[k])] + RowEdges(source, cells, vs, k + 1);
    assert r[0].destination == vs[k];
  }

  /** A column with no edge, or one into another vertex than `v`, leaves the
      weight into `v` to the columns after it. */
  lemma RowEdgesSkip(source: Vertex, cells: seq<int>, vs: seq<Vertex>, j: int, v: Vertex)
    requires RowFits(cells, vs) && 0 <= j < |cells|
    requires cells[j] == INFINITY || vs[j] != v
    ensures WeightTo(RowEdges(source, cells, vs, j), v) == WeightTo(RowEdges(source, cells, vs, j + 1), v)
  {
    var r := RowEdges(source, cells, vs, j);
    if cells[j] != INFINITY {
      assert r[1..] == RowEdges(source, cells, vs, j + 1);
    }
  }

  /** Past column `k`, no edge of the row enters `vs[k]`. */
  lemma {:induction false} RowEdgesMiss(source: Vertex, cells: seq<int>, vs: seq<Vertex>, j: int, k: int)
    requires RowFits(cells, vs) && 0 <= k < j <= |cells| && k < |vs|
    ensures WeightTo(RowEdges(source, cells, vs, j), vs[k]) == INFINITY
    decreases |cells| - j
  {
    if j < |cells| {
      RowEdgesMiss(source, cells, vs, j + 1, k);
      if cells[j] != INFINITY {
        assert RowEdges(source, cells, vs, j)[1..] == RowEdges(source, cells, vs, j + 1);
      }
    }
  }

  /** The row's edges from column `j` on leave `source` with non-negative
      weights into vertices of `vs`, and enter every `vs[k]` with `j <= k`
      whose cell is not `INFINITY`. */
  lemma {:induction false} RowEdgesShape(source: Vertex, cells: seq<int>, vs: seq<Vertex>, j: int)
    requires RowFits(cells, vs) && 0 <= j <= |cells|
    ensures forall a :: 0 <= a < |RowEdges(source, cells, vs, j)| ==>
      RowEdges(source, cells, vs, j)[a].source == source && 0 <= RowEdges(source, cells, vs, j)[a].weight
    ensures forall a :: 0 <= a < |RowEdges(source, cells, vs, j)| ==> RowEdges(source, cells, vs, j)[a].destination in vs
    ensures forall k :: j <= k < |vs| && cells[k] != INFINITY ==> vs[k] in Destinations(RowEdges(source, cells, vs, j))
    decreases |cells| - j
  {
    if j < |cells| {
      RowEdgesShape(source, cells, vs, j + 1);
      var r := RowEdges(source, cells, vs, j);
      if cells[j] != INFINITY {
        assert r[1..] == RowEdges(source, cells, vs, j + 1);
        assert Destinations(r)[1..] == Destinations(RowEdges(source, cells, vs, j + 1));
        assert vs[j] == Destinations(r)[0];
      }
    }
  }

  /** The destinations of the row from column `j`: cell `j`'s vertex, if it
      holds an edge, then the rest. */
  lemma RowEdgesStep(source: Vertex, cells: seq<int>, vs: seq<Vertex>, j: int)
    requires 0 <= j < |cells| && InColumns(cells, vs)
    ensures Destinations(RowEdges(source, cells, vs, j)) == (if cells[j] != INFINITY then [vs[j]] else []) + Destinations(RowEdges(source, cells, vs, j + 1))
  {
    if cells[j] != INFINITY {
      var r := RowEdges(source, cells, vs, j);
      assert r[1..] == RowEdges(source, cells, vs, j + 1);
      assert Destinations(r)[1..] == Destinations(r[1..]);
      assert Destinations(r) == [vs[j]] + Destinations(r)[1..];
    }
  }

  class DijkstraMatrixGraph {
    var indicesMap: map<Vertex, int>
    const adjacencyMatrix: array2<int>
    const maxVertices: int
    var vertices: seq<Vertex>

    /** The matrix is `maxVertices` square; the vertices are distinct, at
        most `maxVertices`, and vertex `i` of the list has index `i`; every
        cell is non-negative, and a cell holding an edge lies between two
        distinct vertices. */
    ghost predicate Valid()
      reads this, adjacencyMatrix
    {
      adjacencyMatrix.Length0 == maxVertices && adjacencyMatrix.Length1 == maxVertices &&
      |vertices| <= maxVertices &&
      (forall i, j :: 0 <= i < j < |vertices| ==> vertices[i] != vertices[j]) &&
      (forall v :: v in indicesMap <==> v in vertices) &&
      (forall i :: 0 <= i < |vertices| ==> indicesMap[vertices[i]] == i) &&
      forall i, j :: 0 <= i < maxVertices && 0 <= j < maxVertices ==>
        0 <= adjacencyMatrix[i, j] && (adjacencyMatrix[i, j] != INFINITY ==> i != j && i < |vertices| && j < |vertices|)
    }

    /** The constructor once `new int[n][n]` has succeeded: every cell
        `INFINITY`, no vertices. */
    constructor (maxVertexCount: int)
      requires maxVertexCount >= 0
      ensures Valid() && fresh(adjacencyMatrix) && maxVertices == maxVertexCount
      ensures indicesMap == map[] && vertices == []
      ensures forall i, j :: 0 <= i < maxVertexCount && 0 <= j < maxVertexCount ==> adjacencyMatrix[i, j] == INFINITY
    {
      indicesMap := map[];
      var m := new int[maxVertexCount, maxVertexCount];
      maxVertices := maxVertexCount;
      vertices := [];
      for i := 0 to maxVertexCount
        invariant forall i', j :: 0 <= i' < i && 0 <= j < maxVertexCount ==> m[i', j] == INFINITY
      {
        for j := 0 to maxVertexCount
          invariant forall i', j' :: 0 <= i' < maxVertexCount && 0 <= j' < maxVertexCount && (i' < i || (i' == i && j' < j)) ==> m[i', j'] == INFINITY
        {
          m[i, j] := INFINITY;
        }
      }
      adjacencyMatrix := m;
    }

    /** Row `i` of the matrix. */
    function Row(i: int): (cells: seq<int>)
      reads this, adjacencyMatrix
      requires 0 <= i < adjacencyMatrix.Length0
      ensures |cells| == adjacencyMatrix.Length1
      ensures forall j :: 0 <= j < |cells| ==> cells[j] == adjacencyMatrix[i, j]
    {
      seq(adjacencyMatrix.Length1, j requires 0 <= j < adjacencyMatrix.Length1 reads adjacencyMatrix => adjacencyMatrix[i, j])
    }

    /** Every row fits the vertex list. */
    lemma RowsFit(i: int)
      requires Valid() && 0 <= i < maxVertices
      ensures RowFits(Row(i), vertices)
    {
    }

    /** The view the algorithm reads. */
    function AsView(): View
      reads this, adjacencyMatrix
      requires Valid()
    {
      View(vertices, map u | u in indicesMap :: RowEdges(u, Row(indicesMap[u]), vertices, 0))
    }

    /** `addVertex`: `IllegalStateException` once `maxVertices` vertices are
        present, checked before presence, so even for a present vertex;
        otherwise a new vertex gets the next index, and a present one
        changes nothing. */
    method AddVertex(vertex: Vertex) returns (o: Outcome)
      requires Valid()
      modifies this
      ensures Valid()
      ensures o == if old(|vertices|) >= maxVertices then Fail(IllegalState) else Pass
      ensures o.Fail? || old(vertex in indicesMap) ==> indicesMap == old(indicesMap) && vertices == old(vertices)
      ensures o.Pass? && old(vertex !in indicesMap) ==> indicesMap == old(indicesMap)[vertex := old(|vertices|)] && vertices == old(vertices) + [vertex]
    {
      if |vertices| >= maxVertices {
        return Fail(IllegalState);
      }
      if vertex !in indicesMap {
        indicesMap := indicesMap[vertex := |vertices|];
        vertices := vertices + [vertex];
      }
      return Pass;
    }

    /** `setEdge`: `IllegalArgumentException` for identical endpoints, an
        unknown endpoint or a negative weight, changing nothing; otherwise
        cell `[source][destination]` becomes `weight` and no other cell
        changes. */
    method SetEdge(source: Vertex, destination: Vertex, weight: int) returns (o: Outcome)
      requires Valid()
      modifies adjacencyMatrix
      ensures Valid()
      ensures o == if source == destination || source !in indicesMap || destination !in indicesMap || weight < 0 then Fail(IllegalArgument) else Pass
      ensures forall i, j :: 0 <= i < maxVertices && 0 <= j < maxVertices ==>
        adjacencyMatrix[i, j] == if o.Pass? && i == indicesMap[source] && j == indicesMap[destination] then weight else old(adjacencyMatrix[i, j])
    {
      if source == destination {
        return Fail(IllegalArgument);
      }
      if source !in indicesMap {
        return Fail(IllegalArgument);
      }
      if destination !in indicesMap {
        return Fail(IllegalArgument);
      }
      if weight < 0 {
        return Fail(IllegalArgument);
      }
      var sourceIndex := indicesMap[source];
      var destinationIndex := indicesMap[destination];
      assert vertices[sourceIndex] == source && vertices[destinationIndex] == destination;
      adjacencyMatrix[sourceIndex, destinationIndex] := weight;
      return Pass;
    }

    /** `getVertices`: each vertex once, in insertion order. */
    function GetVertices(): (r: seq<Vertex>)
      reads this, adjacencyMatrix
      requires Valid()
      ensures forall v :: v in r <==> v in indicesMap
      ensures forall i, j :: 0 <= i < j < |r| ==> r[i] != r[j]
    {
      vertices
    }

    /** `getNeighbors`: `IllegalArgumentException` for an unknown vertex;
        otherwise, in ascending index order, the vertex of every column whose
        cell in `vertex`'s row is not `INFINITY`. */
    method GetNeighbors(vertex: Vertex) returns (r: Result<seq<Vertex>>)
      requires Valid()
      ensures vertex !in indicesMap ==> r == Failure(IllegalArgument)
      ensures vertex in indicesMap ==> r == Success(Neighbors(AsView(), vertex))
    {
      if vertex !in indicesMap {
        return Failure(IllegalArgument);
      }
      var index := indicesMap[vertex];
      var neighbors := ScanRow(vertex, index);
      ViewRow(vertex);
      return Success(neighbors);
    }

    /** The loop of `getNeighbors` over row `index`, `vertex`'s. */
    method ScanRow(vertex: Vertex, index: int) returns (neighbors: seq<Vertex>)
      requires Valid() && vertex in indicesMap && index == indicesMap[vertex] && 0 <= index < maxVertices
      ensures neighbors == Destinations(RowEdges(vertex, Row(index), vertices, 0))
    {
      ghost var cells := Row(index);
      RowsFit(index);
      neighbors := [];
      for i := 0 to adjacencyMatrix.Length1
        invariant Destinations(RowEdges(vertex, cells, vertices, 0)) == neighbors + Destinations(RowEdges(vertex, cells, vertices, i))
      {
        neighbors := ScanCell(vertex, index, cells, i, neighbors);
      }
      assert RowEdges(vertex, cells, vertices, |cells|) == [];
    }

    /** Row `index` of the matrix, whose cells are `cells`, fits the vertex
        list. */
    ghost predicate Scanning(index: int, cells: seq<int>)
      reads this, adjacencyMatrix
    {
      Valid() && 0 <= index < maxVertices && cells == Row(index) && RowFits(cells, vertices)
    }

    /** One turn of the loop of `getNeighbors`: cell `i` of the row adds its
        column's vertex when it is not `INFINITY`. */
    method ScanCell(vertex: Vertex, index: int, ghost cells: seq<int>, i: int, neighbors: seq<Vertex>) returns (next: seq<Vertex>)
      requires Scanning(index, cells) && 0 <= i < |cells|
      ensures next + Destinations(RowEdges(vertex, cells, vertices, i + 1)) ==
        neighbors + Destinations(RowEdges(vertex, cells, vertices, i))
    {
      RowEdgesStep(vertex, cells, vertices, i);
      next := neighbors;
      if adjacencyMatrix[index, i] != INFINITY {
        var neighbor := GetVertexByIndex(indicesMap, vertices, i);
        IndexFinds(i);
        next := neighbors + [neighbor.value];
      }
    }

    /** Over the vertex list, the index lookup of `VertexUtil` finds the
        vertex `i`. */
    lemma IndexFinds(i: int)
      requires Valid() && 0 <= i < |vertices|
      ensures GetVertexByIndex(indicesMap, vertices, i) == Some(vertices[i])
    {
      assert Enumerates(indicesMap, vertices);
      assert Injective(indicesMap) by {
        forall u, v | u in indicesMap && v in indicesMap && indicesMap[u] == indicesMap[v]
          ensures u == v
        {
          var a :| 0 <= a < |vertices| && vertices[a] == u;
          var b :| 0 <= b < |vertices| && vertices[b] == v;
        }
      }
      GetVertexByIndexFinds(indicesMap, vertices, i, vertices[i]);
    }

    /** `getEdgeWeightBetween`: cell `[source][destination]`; unboxing the
        missing index of an unknown vertex throws `NullPointerException`. */
    method GetEdgeWeightBetween(source: Vertex, destination: Vertex) returns (r: Result<int>)
      requires Valid()
      ensures source !in indicesMap || destination !in indicesMap ==> r == Failure(NullPointer)
      ensures source in indicesMap && destination in indicesMap ==> r == Success(adjacencyMatrix[indicesMap[source], indicesMap[destination]])
      ensures source in indicesMap && destination in indicesMap ==> r == Success(Weight(AsView(), source, destination))
    {
      if source !in indicesMap || destination !in indicesMap {
        return Failure(NullPointer);
      }
      var sourceIndex := indicesMap[source];
      var destinationIndex := indicesMap[destination];
      RowsFit(sourceIndex);
      assert vertices[destinationIndex] == destination;
      RowEdgesWeight(source, Row(sourceIndex), vertices, 0, destinationIndex);
      return Success(adjacencyMatrix[sourceIndex, destinationIndex]);
    }

    /** `getVertexCount`: the number of distinct vertices added. */
    function GetVertexCount(): (n: int)
      reads this, adjacencyMatrix
      requires Valid()
      ensures n == |indicesMap.Keys|
    {
      DistinctCount(vertices);
      assert indicesMap.Keys == set v | v in vertices;
      |vertices|
    }

    /** A vertex's edges in the view are its row's. */
    lemma ViewRow(u: Vertex)
      requires Valid() && u in indicesMap
      ensures 0 <= indicesMap[u] < maxVertices
      ensures AsView().out[u] == RowEdges(u, Row(indicesMap[u]), vertices, 0)
    {
      var a :| 0 <= a < |vertices| && vertices[a] == u;
    }

    /** The view is well-formed. */
    lemma ViewWellFormed()
      requires Valid()
      ensures WellFormed(AsView())
    {
      var g := AsView();
      forall u, k | u in g.out && 0 <= k < |g.out[u]|
        ensures g.out[u][k].source == u && g.out[u][k].destination in g.out && 0 <= g.out[u][k].weight
      {
        RowsFit(indicesMap[u]);
        RowEdgesShape(u, Row(indicesMap[u]), vertices, 0);
      }
    }
  }

  /** `new DijkstraMatrixGraph(maxVertexCount)`: `NegativeArraySizeException`
      for a negative size, otherwise an empty graph whose cells are all
      `INFINITY`. */
  method Create(maxVertexCount: int) returns (r: Result<DijkstraMatrixGraph>)
    ensures r.Failure? <==> maxVertexCount < 0
    ensures r.Failure? ==> r.error == NegativeArraySize
    ensures r.Success? ==> fresh(r.value) && r.value.Valid() && r.value.maxVertices == maxVertexCount && r.value.vertices == []
  {
    if maxVertexCount < 0 {
      return Failure(NegativeArraySize);
    }
    var g := new DijkstraMatrixGraph(maxVertexCount);
    return Success(g);
  }
}
