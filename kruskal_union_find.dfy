/** The union-find Kruskal's algorithm uses: the same path compression and
    union by rank as the array version, but over `HashMap`s from vertices to
    their parents and ranks. `root` is the ghost map from every vertex to the
    root of its tree. */
module KruskalUnionFind {
  import opened Java
  import opened Graph

  /** The shape of the forest: `root` has the keys of `parent`; parents and
      roots are keys; a root is its own parent and its own root; and a
      parent has the same root. */
  ghost predicate Shape(parent: map<Vertex, Vertex>, root: map<Vertex, Vertex>)
  {
    root.Keys == parent.Keys &&
    (forall v {:trigger parent[v] in parent} :: v in parent ==> parent[v] in parent) &&
    (forall v {:trigger root[v] in parent} :: v in root ==> root[v] in parent) &&
    (forall v {:trigger parent[root[v]]} :: v in root ==> parent[root[v]] == root[v]) &&
    (forall v {:trigger root[parent[v]]} :: v in parent ==> root[parent[v]] == root[v]) &&
    (forall v {:trigger parent[v]} :: v in parent && parent[v] == v ==> root[v] == v)
  }

  /** Union by rank: `rank` has the keys of `parent`, every rank lies in
      `0 .. bound`, and a vertex's rank is below its parent's and its root's
      unless it is a root. */
  ghost predicate Ranked(parent: map<Vertex, Vertex>, rank: map<Vertex, int>, root: map<Vertex, Vertex>, bound: int)
    requires Shape(parent, root)
  {
    rank.Keys == parent.Keys &&
    (forall v {:trigger rank[v]} :: v in rank ==> 0 <= rank[v] <= bound) &&
    (forall v {:trigger rank[parent[v]]} :: v in parent && parent[v] != v ==> rank[v] < rank[parent[v]]) &&
    (forall v {:trigger rank[root[v]]} :: v in root && root[v] != v ==> rank[v] < rank[root[v]])
  }

  /** A union-by-rank forest over maps. */
  ghost predicate MapForest(parent: map<Vertex, Vertex>, rank: map<Vertex, int>, root: map<Vertex, Vertex>, bound: int)
  {
    Shape(parent, root) && Ranked(parent, rank, root, bound)
  }

  /** The vertices `find(v)` passes through, from `v` up to its root. */
  ghost function Path(parent: map<Vertex, Vertex>, rank: map<Vertex, int>, root: map<Vertex, Vertex>, bound: int, v: Vertex): set<Vertex>
    requires MapForest(parent, rank, root, bound) && v in parent
    decreases bound - rank[v]
  {
    if parent[v] == v then {v} else {v} + Path(parent, rank, root, bound, parent[v])
  }

  /** The walk from `v` starts at `v`, ends at its root and stays in its set. */
  lemma {:induction false} PathEnds(parent: map<Vertex, Vertex>, rank: map<Vertex, int>, root: map<Vertex, Vertex>, bound: int, v: Vertex)
    requires MapForest(parent, rank, root, bound) && v in parent
    ensures v in Path(parent, rank, root, bound, v)
    ensures root[v] in Path(parent, rank, root, bound, v)
    ensures forall u :: u in Path(parent, rank, root, bound, v) ==> u in parent && root[u] == root[v]
    decreases bound - rank[v]
  {
    if parent[v] != v {
      PathEnds(parent, rank, root, bound, parent[v]);
    }
  }

  /** Pointing any vertices straight at their roots keeps the forest. */
  lemma CompressForest(parent: map<Vertex, Vertex>, parent': map<Vertex, Vertex>, rank: map<Vertex, int>, root: map<Vertex, Vertex>, bound: int)
    requires MapForest(parent, rank, root, bound) && parent'.Keys == parent.Keys
    requires forall v {:trigger parent'[v]} :: v in parent ==> parent'[v] == parent[v] || parent'[v] == root[v]
    ensures MapForest(parent', rank, root, bound)
  {
    forall v | v in parent
      ensures root[root[v]] == root[v]
    {
      assert parent[root[v]] == root[v];
    }
    forall v | v in parent
      ensures parent'[root[v]] == root[v]
    {
      assert parent[root[v]] == root[v] && root[root[v]] == root[v];
    }
  }

  /** The roots after root `loser` is hung under root `winner`. */
  function Merge(root: map<Vertex, Vertex>, loser: Vertex, winner: Vertex): (root': map<Vertex, Vertex>)
    ensures root'.Keys == root.Keys
    ensures forall v {:trigger root'[v]} :: v in root ==> root'[v] == if root[v] == loser then winner else root[v]
  {
    map v | v in root :: if root[v] == loser then winner else root[v]
  }

  /** The ranks after the link: a tie raises the winner's rank by one. */
  function LinkRank(rank: map<Vertex, int>, loser: Vertex, winner: Vertex): map<Vertex, int>
    requires loser in rank && winner in rank
  {
    if rank[loser] == rank[winner] then rank[winner := rank[winner] + 1] else rank
  }

  /** Hanging a root under another root keeps the shape of the forest. */
  lemma LinkShape(parent: map<Vertex, Vertex>, root: map<Vertex, Vertex>, p': map<Vertex, Vertex>, root': map<Vertex, Vertex>, loser: Vertex, winner: Vertex)
    requires Shape(parent, root)
    requires loser in parent && winner in parent && loser != winner
    requires parent[loser] == loser && parent[winner] == winner
    requires p'.Keys == parent.Keys && root'.Keys == parent.Keys
    requires forall v {:trigger p'[v]} :: v in parent ==> p'[v] == if v == loser then winner else parent[v]
    requires forall v {:trigger root'[v]} :: v in parent ==> root'[v] == if root[v] == loser then winner else root[v]
    ensures Shape(p', root')
  {
    assert root[loser] == loser && root[winner] == winner;
    forall v {:trigger p'[v] in parent} | v in parent
      ensures p'[v] in parent
    {
      assert parent[v] in parent;
    }
    forall v {:trigger root'[v] in parent} | v in parent
      ensures root'[v] in parent
    {
      assert root[v] in parent;
    }
    forall v {:trigger p'[v]} | v in parent && p'[v] == v
      ensures root'[v] == v
    {
      assert parent[v] == v;
    }
    forall v {:trigger p'[root'[v]]} | v in parent
      ensures p'[root'[v]] == root'[v]
    {
      assert root[v] in parent;
      assert parent[root[v]] == root[v];
    }
    forall v {:trigger root'[p'[v]]} | v in parent
      ensures root'[p'[v]] == root'[v]
    {
      assert parent[v] in parent;
      assert root[parent[v]] == root[v];
    }
  }

  /** Hanging a root under another root of no lower rank keeps the rank
      order: the loser's rank is below its new parent's, on a tie because the
      winner's rank grows. */
  lemma LinkRanked(parent: map<Vertex, Vertex>, rank: map<Vertex, int>, root: map<Vertex, Vertex>, bound: int, loser: Vertex, winner: Vertex)
    requires MapForest(parent, rank, root, bound)
    requires loser in parent && winner in parent && loser != winner
    requires parent[loser] == loser && parent[winner] == winner && rank[loser] <= rank[winner]
    requires Shape(parent[loser := winner], Merge(root, loser, winner))
    ensures Ranked(parent[loser := winner], LinkRank(rank, loser, winner), Merge(root, loser, winner), bound + 1)
  {
    var p', r', root' := parent[loser := winner], LinkRank(rank, loser, winner), Merge(root, loser, winner);
    assert root[loser] == loser && root[winner] == winner;
    var tie := rank[loser] == rank[winner];
    forall v {:trigger r'[v]} | v in parent
      ensures r'[v] == if tie && v == winner then rank[v] + 1 else rank[v]
    {
    }
    forall v {:trigger r'[p'[v]]} | v in parent && p'[v] != v
      ensures r'[v] < r'[p'[v]]
    {
      if v != loser {
        assert p'[v] == parent[v] && v != winner;
        assert rank[v] < rank[parent[v]];
      }
    }
    forall v {:trigger r'[root'[v]]} | v in parent && root'[v] != v
      ensures r'[v] < r'[root'[v]]
    {
      if root[v] == loser {
        assert v != winner && root'[v] == winner;
        if v != loser {
          assert rank[v] < rank[loser];
        }
      } else {
        assert root'[v] == root[v] && v != winner;
        assert rank[v] < rank[root[v]];
      }
    }
  }

  /** Hanging a root under another root of no lower rank keeps the forest. */
  lemma LinkForest(parent: map<Vertex, Vertex>, rank: map<Vertex, int>, root: map<Vertex, Vertex>, bound: int, loser: Vertex, winner: Vertex)
    requires MapForest(parent, rank, root, bound)
    requires loser in parent && winner in parent && loser != winner
    requires parent[loser] == loser && parent[winner] == winner && rank[loser] <= rank[winner]
    ensures MapForest(parent[loser := winner], LinkRank(rank, loser, winner), Merge(root, loser, winner), bound + 1)
  {
    LinkShape(parent, root, parent[loser := winner], Merge(root, loser, winner), loser, winner);
    LinkRanked(parent, rank, root, bound, loser, winner);
  }

  /** `root'` partitions the same vertices as `root`, with the sets of `x`
      and `y` joined and every other set kept. */
  ghost predicate Unioned(root: map<Vertex, Vertex>, root': map<Vertex, Vertex>, x: Vertex, y: Vertex)
  {
    root'.Keys == root.Keys && x in root && y in root &&
    forall u, v {:trigger root'[u], root'[v]} :: u in root && v in root ==>
      (root'[u] == root'[v] <==>
        root[u] == root[v] || (root[u] == root[x] && root[v] == root[y]) || (root[u] == root[y] && root[v] == root[x]))
  }

  /** Hanging `x`'s root under `y`'s, or the other way round, joins exactly
      their two sets. */
  lemma MergePartition(root: map<Vertex, Vertex>, x: Vertex, y: Vertex, loser: Vertex, winner: Vertex)
    requires x in root && y in root && root[x] in root && root[y] in root
    requires root[root[x]] == root[x] && root[root[y]] == root[y]
    requires (loser == root[x] && winner == root[y]) || (loser == root[y] && winner == root[x])
    ensures Unioned(root, Merge(root, loser, winner), x, y)
  {
  }

  /** Kruskal's `UnionFind`: the `parent` and `rank` maps, and the ghost
      forest description. */
  class UnionFind {
    var parent: map<Vertex, Vertex>
    var rank: map<Vertex, int>
    ghost var root: map<Vertex, Vertex>
    ghost var bound: int

    ghost predicate Valid()
      reads this
    {
      MapForest(parent, rank, root, bound)
    }

    /** `new UnionFind(vertices)`: every listed vertex is its own parent and
        its own set, with rank 0, and no other vertex is known. */
    constructor (vertices: seq<Vertex>)
      ensures Valid()
      ensures forall v :: v in parent <==> v in vertices
      ensures forall v {:trigger parent[v]} :: v in parent ==> parent[v] == v && root[v] == v && rank[v] == 0
    {
      var p: map<Vertex, Vertex> := map[];
      var r: map<Vertex, int> := map[];
      for i := 0 to |vertices|
        invariant forall v :: v in p <==> v in vertices[..i]
        invariant r.Keys == p.Keys
        invariant forall v :: v in p ==> p[v] == v && r[v] == 0
      {
        p := p[vertices[i] := vertices[i]];
        r := r[vertices[i] := 0];
      }
      assert vertices[..|vertices|] == vertices;
      parent, rank := p, r;
      root := p;
      bound := 0;
    }

    /** `find` on a known vertex: returns its root and points every vertex on
        the walk straight at it; the sets and the ranks do not change. */
    method FindRoot(v: Vertex) returns (r: Vertex)
      requires Valid() && v in parent
      modifies this
      ensures root == old(root) && rank == old(rank) && bound == old(bound) && parent.Keys == old(parent.Keys)
      ensures Valid() && r == root[v]
      ensures forall u {:trigger parent[u]} :: u in parent ==>
        parent[u] == if u in old(Path(parent, rank, root, bound, v)) then root[u] else old(parent[u])
      decreases bound - rank[v]
    {
      if v != parent[v] {
        ghost var p0 := parent;
        var p := FindRoot(parent[v]);
        parent := parent[v := p];
        CompressForest(p0, parent, rank, root, bound);
      }
      return parent[v];
    }

    /** `find`: the root of `v`'s set, with the path to it compressed. A vertex
        that was never listed has a null parent, and the recursive call on
        that null throws `NullPointerException`. */
    method Find(v: Vertex) returns (r: Result<Vertex>)
      requires Valid()
      modifies this
      ensures Valid() && root == old(root) && rank == old(rank) && parent.Keys == old(parent.Keys)
      ensures r == if v in parent then Success(root[v]) else Failure(NullPointer)
      ensures r.Success? ==> forall u {:trigger parent[u]} :: u in parent ==>
        parent[u] == if u in old(Path(parent, rank, root, bound, v)) then root[u] else old(parent[u])
      ensures r.Failure? ==> parent == old(parent)
    {
      if v !in parent {
        return Failure(NullPointer);
      }
      var root := FindRoot(v);
      return Success(root);
    }

    /** `union`: finds both roots, compressing both paths, and if they differ
        hangs the root of lower rank under the other; on a tie `y`'s root goes
        under `x`'s, whose rank grows by one. Afterwards `x` and `y` share a
        set and no other set changes. A vertex that was never listed makes
        its `find` throw `NullPointerException`: for `x` before anything
        changes, for `y` after `x`'s path has been compressed. */
    method Union(x: Vertex, y: Vertex) returns (o: Outcome)
      requires Valid()
      modifies this
      ensures Valid() && parent.Keys == old(parent.Keys)
      ensures o == if x in old(parent) && y in old(parent) then Pass else Fail(NullPointer)
      ensures o.Fail? ==> root == old(root) && rank == old(rank)
      ensures x !in old(parent) ==> parent == old(parent)
      ensures o.Pass? ==> root[x] == root[y] && Unioned(old(root), root, x, y)
      ensures o.Pass? && old(root[x]) == old(root[y]) ==> root == old(root) && rank == old(rank)
      ensures o.Pass? && old(root[x]) != old(root[y]) ==>
        var (rx, ry) := (old(root[x]), old(root[y]));
        var (loser, winner) := if old(rank[rx]) < old(rank[ry]) then (rx, ry) else (ry, rx);
        root == Merge(old(root), loser, winner) && rank == LinkRank(old(rank), loser, winner) &&
        parent[loser] == winner
    {
      if x !in parent {
        return Fail(NullPointer);
      }
      var rootX := FindRoot(x);
      if y !in parent {
        return Fail(NullPointer);
      }
      var rootY := FindRoot(y);
      assert root[rootX] == rootX && root[rootY] == rootY;
      if rootX != rootY {
        if rank[rootX] < rank[rootY] {
          Link(rootX, rootY, x, y);
        } else if rank[rootX] > rank[rootY] {
          Link(rootY, rootX, x, y);
        } else {
          Link(rootY, rootX, x, y);
        }
      }
      return Pass;
    }

    /** Hangs root `loser` under root `winner` of no lower rank, raising the
        winner's rank on a tie; the two are the roots of `x` and `y`. */
    method Link(loser: Vertex, winner: Vertex, ghost x: Vertex, ghost y: Vertex)
      requires Valid() && loser in parent && winner in parent && loser != winner
      requires parent[loser] == loser && parent[winner] == winner && rank[loser] <= rank[winner]
      requires x in parent && y in parent
      requires (loser == root[x] && winner == root[y]) || (loser == root[y] && winner == root[x])
      modifies this
      ensures Valid()
      ensures root == Merge(old(root), loser, winner) && rank == LinkRank(old(rank), loser, winner)
      ensures parent == old(parent)[loser := winner]
      ensures Unioned(old(root), root, x, y)
    {
      ghost var (p0, r0, root0, b0) := (parent, rank, root, bound);
      LinkForest(p0, r0, root0, b0, loser, winner);
      MergePartition(root0, x, y, loser, winner);
      parent, rank := parent[loser := winner], LinkRank(rank, loser, winner);
      root, bound := Merge(root0, loser, winner), b0 + 1;
    }
  }
}
