/** The array-based disjoint-set forest: every element `0 .. count - 1` has a
    parent index and a rank; `find` compresses paths and `union` links by
    rank. The forest's shape is described by a ghost map from every element
    to the root of its tree, so "same set" means "same root". */
module UnionFind {
  import opened Java

  /** The shape of a union-by-rank forest over plain sequences: every parent
      and every recorded root is an element; a root is its own parent and its
      own recorded root; following a parent keeps the root; and ranks rise
      strictly from a child to its parent and to its root. `bound` caps every
      rank, which makes "walk to the root" terminate. */
  ghost predicate Forest(parent: seq<int>, rank: seq<int>, root: seq<int>, bound: int)
  {
    |parent| == |rank| == |root| &&
    (forall i :: 0 <= i < |parent| ==> 0 <= parent[i] < |parent| && 0 <= root[i] < |parent|) &&
    (forall i :: 0 <= i < |rank| ==> 0 <= rank[i] <= bound) &&
    (forall i {:trigger parent[root[i]]} :: 0 <= i < |root| ==> parent[root[i]] == root[i]) &&
    (forall i {:trigger root[parent[i]]} :: 0 <= i < |parent| ==> root[parent[i]] == root[i]) &&
    (forall i :: 0 <= i < |parent| && parent[i] == i ==> root[i] == i) &&
    (forall i {:trigger rank[parent[i]]} :: 0 <= i < |parent| && parent[i] != i ==> rank[i] < rank[parent[i]]) &&
    (forall i {:trigger rank[root[i]]} :: 0 <= i < |root| && root[i] != i ==> rank[i] < rank[root[i]])
  }

  /** Elements `i` and `j` are in the same set. */
  ghost predicate SameSet(root: seq<int>, i: int, j: int)
    requires 0 <= i < |root| && 0 <= j < |root|
  {
    root[i] == root[j]
  }

  /** The elements `find(e)` passes through: `e`, its parent, and so on up to
      the root. */
  ghost function Path(parent: seq<int>, rank: seq<int>, root: seq<int>, bound: int, e: int): set<int>
    requires Forest(parent, rank, root, bound) && 0 <= e < |parent|
    decreases bound - rank[e]
  {
    if parent[e] == e then {e} else {e} + Path(parent, rank, root, bound, parent[e])
  }

  /** The walk from `e` starts at `e` and ends at its root. */
  lemma {:induction false} PathEnds(parent: seq<int>, rank: seq<int>, root: seq<int>, bound: int, e: int)
    requires Forest(parent, rank, root, bound) && 0 <= e < |parent|
    ensures e in Path(parent, rank, root, bound, e)
    ensures root[e] in Path(parent, rank, root, bound, e)
    ensures forall k :: k in Path(parent, rank, root, bound, e) ==> 0 <= k < |parent| && root[k] == root[e]
    decreases bound - rank[e]
  {
    if parent[e] != e {
      PathEnds(parent, rank, root, bound, parent[e]);
    }
  }

  /** Redirecting any elements straight to their roots keeps the forest's
      shape, its roots and its ranks. */
  lemma CompressForest(parent: seq<int>, parent': seq<int>, rank: seq<int>, root: seq<int>, bound: int)
    requires Forest(parent, rank, root, bound) && |parent'| == |parent|
    requires forall i :: 0 <= i < |parent| ==> parent'[i] == parent[i] || parent'[i] == root[i]
    ensures Forest(parent', rank, root, bound)
  {
    var n := |parent|;
    forall i | 0 <= i < n
      ensures root[root[i]] == root[i]
    {
      assert parent[root[i]] == root[i];
    }
    forall i | 0 <= i < n
      ensures parent'[root[i]] == root[i]
    {
      assert parent[root[i]] == root[i] && root[root[i]] == root[i];
    }
  }

  /** The roots after the tree rooted at `loser` is hung under `winner`. */
  function Merge(root: seq<int>, loser: int, winner: int): (root': seq<int>)
    ensures |root'| == |root|
    ensures forall i :: 0 <= i < |root| ==> root'[i] == if root[i] == loser then winner else root[i]
  {
    seq(|root|, i requires 0 <= i < |root| => if root[i] == loser then winner else root[i])
  }

  /** The ranks after linking `loser` under `winner`: only a tie raises the
      winner's rank, by one. */
  function LinkRank(rank: seq<int>, loser: int, winner: int): seq<int>
    requires 0 <= loser < |rank| && 0 <= winner < |rank|
  {
    if rank[loser] == rank[winner] then rank[winner := rank[winner] + 1] else rank
  }

  /** Hanging one root under another root of no lower rank keeps the
      forest's shape: the loser's rank is below its new parent's, on a tie
      because the winner's rank grows. */
  lemma LinkForest(parent: seq<int>, rank: seq<int>, root: seq<int>, bound: int, loser: int, winner: int)
    requires Forest(parent, rank, root, bound)
    requires 0 <= loser < |parent| && 0 <= winner < |parent| && loser != winner
    requires parent[loser] == loser && parent[winner] == winner && rank[loser] <= rank[winner]
    ensures Forest(parent[loser := winner], LinkRank(rank, loser, winner), Merge(root, loser, winner), bound + 1)
  {
    var n := |parent|;
    var p', r', root' := parent[loser := winner], LinkRank(rank, loser, winner), Merge(root, loser, winner);
    assert root[loser] == loser && root[winner] == winner;
    forall i | 0 <= i < n
      ensures p'[root'[i]] == root'[i]
    {
      assert parent[root[i]] == root[i];
    }
    forall i | 0 <= i < n
      ensures root'[p'[i]] == root'[i]
    {
      assert root[parent[i]] == root[i];
    }
    forall i | 0 <= i < n && p'[i] != i
      ensures r'[i] < r'[p'[i]]
    {
      if i != loser {
        assert rank[i] < rank[parent[i]];
      }
    }
    forall i | 0 <= i < n && root'[i] != i
      ensures r'[i] < r'[root'[i]]
    {
      if root[i] == loser && i != loser {
        assert rank[i] < rank[loser];
      } else if root[i] != loser && root[i] != i {
        assert rank[i] < rank[root[i]];
      }
    }
  }

  /** `root'` partitions like `root` with the sets of `x` and `y` joined:
      two elements share a set in `root'` exactly when they did in `root` or
      one was with `x` and the other with `y`. */
  ghost predicate Unioned(root: seq<int>, root': seq<int>, x: int, y: int)
  {
    |root'| == |root| && 0 <= x < |root| && 0 <= y < |root| &&
    forall i, j :: 0 <= i < |root| && 0 <= j < |root| ==>
      (SameSet(root', i, j) <==>
        SameSet(root, i, j) || (SameSet(root, i, x) && SameSet(root, j, y)) || (SameSet(root, i, y) && SameSet(root, j, x)))
  }

  /** After hanging `y`'s root under `x`'s root, or the other way round, two
      elements share a set exactly when they did before or one was with `x`
      and the other with `y`: the two sets become one and no other set
      changes. */
  lemma MergePartition(root: seq<int>, x: int, y: int, loser: int, winner: int)
    requires 0 <= x < |root| && 0 <= y < |root|
    requires 0 <= root[x] < |root| && 0 <= root[y] < |root|
    requires root[root[x]] == root[x] && root[root[y]] == root[y]
    requires (loser == root[x] && winner == root[y]) || (loser == root[y] && winner == root[x])
    ensures Unioned(root, Merge(root, loser, winner), x, y)
  {
  }

  /** `UnionFind`: `parent` and `rank` hold the two fields of every element's
      `Set` record; `root` and `bound` are the ghost description of the
      forest. */
  class UnionFind {
    const parent: array<int>
    const rank: array<int>
    ghost var root: seq<int>
    ghost var bound: int

    ghost predicate Valid()
      reads this, parent, rank
    {
      parent != rank && Forest(parent[..], rank[..], root, bound)
    }

    /** The constructor for a non-negative `count`: every element is its own
        set, its own parent, with rank 0. */
    constructor (count: int)
      requires count >= 0
      ensures Valid() && fresh(parent) && fresh(rank) && parent.Length == count
      ensures forall i :: 0 <= i < count ==> parent[i] == i && root[i] == i && rank[i] == 0
    {
      var p := new int[count];
      var r := new int[count];
      for i := 0 to count
        modifies p, r
        invariant forall k :: 0 <= k < i ==> p[k] == k && r[k] == 0
      {
        p[i] := i;
        r[i] := 0;
      }
      parent, rank := p, r;
      root := p[..];
      bound := 0;
    }

    /** `find` on an element known to be in range: returns its root and points
        every element on the walk straight at that root, changing no set and
        no rank. */
    method FindRoot(e: int) returns (r: int)
      requires Valid() && 0 <= e < parent.Length
      modifies parent
      ensures Valid() && r == root[e]
      ensures forall i :: 0 <= i < parent.Length ==>
        parent[i] == if i in old(Path(parent[..], rank[..], root, bound, e)) then root[i] else old(parent[i])
      decreases bound - rank[e]
    {
      if parent[e] != e {
        ghost var p0 := parent[..];
        var p := FindRoot(parent[e]);
        parent[e] := p;
        CompressForest(p0, parent[..], rank[..], root, bound);
      }
      return parent[e];
    }

    /** `find`: `IllegalArgumentException` for an element outside
        `0 .. count - 1`; otherwise the root of its set, with the path to it
        compressed. The sets and the ranks never change. */
    method Find(element: int) returns (r: Result<int>)
      requires Valid()
      modifies parent
      ensures Valid() && root == old(root) && rank[..] == old(rank[..])
      ensures r == if 0 <= element < parent.Length then Success(root[element]) else Failure(IllegalArgument)
      ensures r.Success? ==> forall i :: 0 <= i < parent.Length ==>
        parent[i] == if i in old(Path(parent[..], rank[..], root, bound, element)) then root[i] else old(parent[i])
      ensures r.Failure? ==> parent[..] == old(parent[..])
    {
      if element < 0 || element >= parent.Length {
        return Failure(IllegalArgument);
      }
      var root := FindRoot(element);
      return Success(root);
    }

    /** `union`: `IllegalArgumentException` when either element is out of
        range, changing nothing. Otherwise both paths are compressed and, if
        the roots differ, the root of lower rank is hung under the other; on
        a tie `y`'s root goes under `x`'s, whose rank grows by one. Afterwards
        `x` and `y` share a set, and two elements share a set exactly when
        they did before or one was with `x` and the other with `y`. */
    method Union(x: int, y: int) returns (o: Outcome)
      requires Valid()
      modifies this, parent, rank
      ensures Valid()
      ensures o == if 0 <= x < parent.Length && 0 <= y < parent.Length then Pass else Fail(IllegalArgument)
      ensures o.Fail? ==> root == old(root) && parent[..] == old(parent[..]) && rank[..] == old(rank[..])
      ensures o.Pass? ==> root[x] == root[y]
      ensures o.Pass? && old(root[x]) == old(root[y]) ==> root == old(root) && rank[..] == old(rank[..])
      ensures o.Pass? && old(root[x]) != old(root[y]) ==>
        var (xr, yr) := (old(root[x]), old(root[y]));
        var (loser, winner) := if old(rank[xr]) < old(rank[yr]) then (xr, yr) else (yr, xr);
        root == Merge(old(root), loser, winner) && rank[..] == LinkRank(old(rank[..]), loser, winner) &&
        parent[loser] == winner
      ensures o.Pass? ==> Unioned(old(root), root, x, y)
    {
      if x < 0 || x >= parent.Length || y < 0 || y >= parent.Length {
        return Fail(IllegalArgument);
      }
      var xRoot := FindRoot(x);
      var yRoot := FindRoot(y);
      assert root[xRoot] == xRoot && root[yRoot] == yRoot;
      if xRoot != yRoot {
        if rank[xRoot] < rank[yRoot] {
          Link(xRoot, yRoot, x, y);
        } else if rank[xRoot] > rank[yRoot] {
          Link(yRoot, xRoot, x, y);
        } else {
          Link(yRoot, xRoot, x, y);
        }
      }
      return Pass;
    }

    /** Hangs root `loser` under root `winner` of no lower rank, raising the
        winner's rank on a tie; `loser` and `winner` are the roots of `x` and
        `y` in some order. */
    method Link(loser: int, winner: int, ghost x: int, ghost y: int)
      requires Valid() && 0 <= loser < parent.Length && 0 <= winner < parent.Length && loser != winner
      requires parent[loser] == loser && parent[winner] == winner && rank[loser] <= rank[winner]
      requires 0 <= x < parent.Length && 0 <= y < parent.Length
      requires (loser == root[x] && winner == root[y]) || (loser == root[y] && winner == root[x])
      modifies this, parent, rank
      ensures Valid()
      ensures root == Merge(old(root), loser, winner) && rank[..] == LinkRank(old(rank[..]), loser, winner)
      ensures parent[..] == old(parent[..])[loser := winner]
      ensures Unioned(old(root), root, x, y)
    {
      LinkForest(parent[..], rank[..], root, bound, loser, winner);
      MergePartition(root, x, y, loser, winner);
      parent[loser] := winner;
      if rank[loser] == rank[winner] {
        rank[winner] := rank[winner] + 1;
      }
      root := Merge(root, loser, winner);
      bound := bound + 1;
    }
  }

  /** `new UnionFind(count)`: `NegativeArraySizeException` for a negative
      count, otherwise `count` singleton sets. */
  method Create(count: int) returns (r: Result<UnionFind>)
    ensures r.Failure? <==> count < 0
    ensures r.Failure? ==> r.error == NegativeArraySize
    ensures r.Success? ==> fresh(r.value) && fresh(r.value.parent) && fresh(r.value.rank) && r.value.Valid()
    ensures r.Success? ==> r.value.parent.Length == count
    ensures r.Success? ==> forall i :: 0 <= i < count ==> r.value.root[i] == i && r.value.rank[i] == 0
  {
    if count < 0 {
      return Failure(NegativeArraySize);
    }
    var u := new UnionFind(count);
    return Success(u);
  }
}
