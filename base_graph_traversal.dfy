/** The state every traversal shares: the set of visited vertices and the
    path listing them in visiting order, and the walks that relate a path
    to its start vertex. */
module BaseGraphTraversal {
  import opened Java
  import opened Graph
  import opened ExplorableGraph

  /** `path` lists exactly the vertices of `visited`. */
  ghost predicate Tracks(visited: set<Vertex>, path: seq<Vertex>)
  {
    forall v :: v in visited <==> v in path
  }

  /** No vertex appears twice in `path`. */
  ghost predicate Distinct(path: seq<Vertex>)
  {
    forall i, j :: 0 <= i < j < |path| ==> path[i] != path[j]
  }

  /** Each vertex of `w` after the first is a neighbour of the one before. */
  ghost predicate Walk(g: Explorable, w: seq<Vertex>)
  {
    forall i :: 0 <= i < |w| - 1 ==> w[i] in g.adj && w[i + 1] in g.adj[w[i]]
  }

  /** Some walk leads from `s` to `v`. */
  ghost predicate Reaches(g: Explorable, s: Vertex, v: Vertex)
  {
    exists w :: |w| > 0 && w[0] == s && w[|w| - 1] == v && Walk(g, w)
  }

  /** Every neighbour of a vertex of `S` is in `S`. */
  ghost predicate Saturated(g: Explorable, S: set<Vertex>)
  {
    forall u, k :: u in S && u in g.adj && 0 <= k < |g.adj[u]| ==> g.adj[u][k] in S
  }

  /** Every vertex reaches itself. */
  lemma ReachesSelf(g: Explorable, s: Vertex)
    ensures Reaches(g, s, s)
  {
    assert Walk(g, [s]);
  }

  /** A neighbour of a reachable vertex is reachable. */
  lemma ReachesNext(g: Explorable, s: Vertex, u: Vertex, v: Vertex)
    requires Reaches(g, s, u) && u in g.adj && v in g.adj[u]
    ensures Reaches(g, s, v)
  {
    var w :| |w| > 0 && w[0] == s && w[|w| - 1] == u && Walk(g, w);
    var w' := w + [v];
    assert forall i :: 0 <= i < |w| ==> w'[i] == w[i];
    assert Walk(g, w');
  }

  /** A saturated set holding `s` holds every vertex reachable from `s`. */
  lemma SaturatedReaches(g: Explorable, s: Vertex, S: set<Vertex>)
    requires s in S && Saturated(g, S)
    ensures forall v :: Reaches(g, s, v) ==> v in S
  {
    forall v | Reaches(g, s, v)
      ensures v in S
    {
      var w :| |w| > 0 && w[0] == s && w[|w| - 1] == v && Walk(g, w);
      WalkInside(g, w, S, |w| - 1);
    }
  }

  /** A walk that starts in a saturated set stays in it. */
  lemma {:induction false} WalkInside(g: Explorable, w: seq<Vertex>, S: set<Vertex>, i: int)
    requires |w| > 0 && w[0] in S && Walk(g, w) && Saturated(g, S) && 0 <= i < |w|
    ensures w[i] in S
    decreases i
  {
    if i > 0 {
      WalkInside(g, w, S, i - 1);
      assert w[i - 1] in g.adj && w[i] in g.adj[w[i - 1]];
      var k :| 0 <= k < |g.adj[w[i - 1]]| && g.adj[w[i - 1]][k] == w[i];
    }
  }

  /** The number of vertices of the graph not yet visited. */
  function Unseen(g: Explorable, visited: set<Vertex>): nat
  {
    |g.adj.Keys - visited|
  }

  /** Visiting a vertex of the graph for the first time leaves fewer
      unvisited. */
  lemma SeeNew(g: Explorable, visited: set<Vertex>, n: Vertex)
    requires n in g.adj && n !in visited
    ensures Unseen(g, visited + {n}) < Unseen(g, visited)
  {
    var after := g.adj.Keys - (visited + {n});
    assert g.adj.Keys - visited == after + {n} && n !in after;
  }

  /** Visiting more leaves no more unvisited. */
  lemma SeeMore(g: Explorable, visited: set<Vertex>, more: set<Vertex>)
    requires visited <= more
    ensures Unseen(g, more) <= Unseen(g, visited)
  {
    var a, b := g.adj.Keys - more, g.adj.Keys - visited;
    assert a + (b - a) == b && a * (b - a) == {};
  }

  /** Visiting an unvisited vertex keeps the path free of repeats. */
  lemma VisitDistinct(visited: set<Vertex>, path: seq<Vertex>, v: Vertex)
    requires Tracks(visited, path) && Distinct(path) && v !in visited
    ensures Tracks(visited + {v}, path + [v]) && Distinct(path + [v])
  {
  }

  class GraphTraversal {
    var visitedStatusSet: set<Vertex>
    var traversalPath: seq<Vertex>

    /** The path lists exactly the visited vertices. */
    ghost predicate Valid()
      reads this
    {
      Tracks(visitedStatusSet, traversalPath)
    }

    /** A traversal that has visited nothing. */
    constructor ()
      ensures Valid() && visitedStatusSet == {} && traversalPath == []
    {
      visitedStatusSet := {};
      traversalPath := [];
    }

    /** `findUnvisitedNeighbor`: the first neighbour of `vertex`, in list
        order, that is not visited, or `None` (null) when all are; asking
        about a vertex outside the graph raises the graph's exception. */
    method FindUnvisitedNeighbor(g: Explorable, vertex: Vertex) returns (r: Result<Option<Vertex>>)
      ensures vertex !in g.adj ==> r == Failure(g.missing)
      ensures vertex in g.adj ==> r == Success(FirstUnvisited(g.adj[vertex], visitedStatusSet))
    {
      if vertex !in g.adj {
        return Failure(g.missing);
      }
      var neighbors := g.adj[vertex];
      for i := 0 to |neighbors|
        invariant FirstUnvisited(neighbors, visitedStatusSet) == FirstUnvisited(neighbors[i..], visitedStatusSet)
      {
        if !IsVisited(neighbors[i]) {
          return Success(Some(neighbors[i]));
        }
        assert neighbors[i..][1..] == neighbors[i + 1..];
      }
      return Success(None);
    }

    /** `isVisited`. */
    predicate IsVisited(vertex: Vertex)
      reads this
    {
      vertex in visitedStatusSet
    }

    /** `visit`: the vertex joins the visited set and is appended to the
        path, whether or not it was visited before. */
    method Visit(vertex: Vertex)
      requires Valid()
      modifies this
      ensures Valid()
      ensures visitedStatusSet == old(visitedStatusSet) + {vertex}
      ensures traversalPath == old(traversalPath) + [vertex]
    {
      visitedStatusSet := visitedStatusSet + {vertex};
      traversalPath := traversalPath + [vertex];
    }

    /** `getTraversalPath`: the path, which lists exactly the visited
        vertices. */
    function GetTraversalPath(): (p: seq<Vertex>)
      reads this
      requires Valid()
      ensures forall v :: v in p <==> v in visitedStatusSet
    {
      traversalPath
    }

    /** `resetState`: nothing visited, empty path. */
    method ResetState()
      modifies this
      ensures Valid() && visitedStatusSet == {} && traversalPath == []
    {
      visitedStatusSet := {};
      traversalPath := [];
    }
  }
}
