/** Vertices, edges and the index lookup shared by the graph classes.
    A vertex is identified by its label: two `VertexImpl` objects are equal
    exactly when their labels are, so a vertex is modelled as its label. */
module Graph {
  import opened Java

  /** A vertex, as its label. */
  type Vertex = string

  /** A weighted edge from `source` to `destination`; edges compare
      structurally. */
  datatype Edge = Edge(source: Vertex, destination: Vertex, weight: int)

  /** `keys` lists the keys of `m` once each, in the order a `HashMap`
      iteration visits them. */
  ghost predicate Enumerates<K(!new), V>(m: map<K, V>, keys: seq<K>)
  {
    (forall k :: k in m <==> k in keys) &&
    forall i, j :: 0 <= i < j < |keys| ==> keys[i] != keys[j]
  }

  /** `VertexUtil.getVertexByIndex`: the first vertex, in iteration order
      `keys`, that `indices` maps to `index`, or `None` (null) when there is
      none. */
  function GetVertexByIndex(indices: map<Vertex, int>, keys: seq<Vertex>, index: int): (r: Option<Vertex>)
    ensures r.Some? ==> r.value in keys && r.value in indices && indices[r.value] == index
    ensures r.None? ==> forall v :: v in keys && v in indices ==> indices[v] != index
  {
    if keys == [] then None
    else if keys[0] in indices && indices[keys[0]] == index then Some(keys[0])
    else GetVertexByIndex(indices, keys[1..], index)
  }

  /** No two vertices share an index. */
  ghost predicate Injective(indices: map<Vertex, int>)
  {
    forall u, v :: u in indices && v in indices && indices[u] == indices[v] ==> u == v
  }

  /** Over an enumeration of the map's keys the lookup finds a vertex exactly
      when some vertex has the index, and for an injective map the vertex
      found is that one whatever the iteration order. */
  lemma GetVertexByIndexFinds(indices: map<Vertex, int>, keys: seq<Vertex>, index: int, v: Vertex)
    requires Enumerates(indices, keys) && Injective(indices)
    ensures GetVertexByIndex(indices, keys, index) == Some(v) <==> v in indices && indices[v] == index
  {
    if v in indices && indices[v] == index {
      assert v in keys;
    }
  }

  /** A list of distinct vertices has as many elements as its set. */
  lemma {:induction false} DistinctCount(s: seq<Vertex>)
    requires forall i, j :: 0 <= i < j < |s| ==> s[i] != s[j]
    ensures |set v | v in s| == |s|
    decreases |s|
  {
    if s != [] {
      var t := s[..|s| - 1];
      DistinctCount(t);
      assert (set v | v in s) == (set v | v in t) + {s[|s| - 1]};
      assert s[|s| - 1] !in t;
    }
  }
}
