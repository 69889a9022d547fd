/** Kruskal's `buildMst`: the edges are sorted by weight, then scanned in
    that order, keeping an edge exactly when its endpoints lie in different
    sets of the union-find and joining those sets. */
module KruskalMst {
  import opened Java
  import opened Graph
  import opened KruskalUnionFind

  // ---------------------------------------------------------------------
  // Sorting by weight

  /** Weights never decrease along `s`. */
  ghost predicate SortedByWeight(s: seq<Edge>)
  {
    forall i, j :: 0 <= i < j < |s| ==> s[i].weight <= s[j].weight
  }

  /** `e` placed before the first edge of `s` whose weight is not below its
      own. */
  function Insert(e: Edge, s: seq<Edge>): seq<Edge>
  {
    if s == [] || e.weight <= s[0].weight then [e] + s
    else [s[0]] + Insert(e, s[1..])
  }

  /** `List.sort` with the weight comparator: a stable sort by weight,
      written as an insertion sort from the back. */
  function SortByWeight(s: seq<Edge>): seq<Edge>
  {
    if s == [] then [] else Insert(s[0], SortByWeight(s[1..]))
  }

  /** Inserting adds just `e`. */
  lemma {:induction false} InsertMultiset(e: Edge, s: seq<Edge>)
    ensures multiset(Insert(e, s)) == multiset{e} + multiset(s)
  {
    if s != [] && e.weight > s[0].weight {
      InsertMultiset(e, s[1..]);
      assert s == [s[0]] + s[1..];
    }
  }

  /** Inserting into a sorted sequence keeps it sorted; the first edge is
      then `e` or the old first edge. */
  lemma {:induction false} InsertSorted(e: Edge, s: seq<Edge>)
    requires SortedByWeight(s)
    ensures SortedByWeight(Insert(e, s))
    ensures Insert(e, s)[0] == e || (s != [] && Insert(e, s)[0] == s[0])
  {
    if s != [] && e.weight > s[0].weight {
      InsertSorted(e, s[1..]);
      var t := Insert(e, s[1..]);
      assert t[0].weight >= s[0].weight;
      forall i, j | 0 <= i < j < |[s[0]] + t|
        ensures ([s[0]] + t)[i].weight <= ([s[0]] + t)[j].weight
      {
        if i > 0 {
          assert ([s[0]] + t)[i] == t[i - 1] && ([s[0]] + t)[j] == t[j - 1];
        } else if j > 1 {
          assert ([s[0]] + t)[j] == t[j - 1];
          assert t[0].weight <= t[j - 1].weight;
        }
      }
    }
  }

  /** The sorted list is sorted by weight and holds the same edges. */
  lemma {:induction false} SortByWeightSorted(s: seq<Edge>)
    ensures SortedByWeight(SortByWeight(s))
    ensures multiset(SortByWeight(s)) == multiset(s)
  {
    if s != [] {
      SortByWeightSorted(s[1..]);
      InsertSorted(s[0], SortByWeight(s[1..]));
      InsertMultiset(s[0], SortByWeight(s[1..]));
      assert s == [s[0]] + s[1..];
    }
  }

  /** A list already in weight order is left as it is. */
  lemma {:induction false} SortedSortByWeight(s: seq<Edge>)
    requires SortedByWeight(s)
    ensures SortByWeight(s) == s
  {
    if s != [] {
      SortedSortByWeight(s[1..]);
      assert s == [s[0]] + s[1..];
    }
  }

  /** The edges of `s` of weight `w`, in their order in `s`. */
  function OfWeight(s: seq<Edge>, w: int): seq<Edge>
  {
    if s == [] then []
    else (if s[0].weight == w then [s[0]] else []) + OfWeight(s[1..], w)
  }

  /** Inserting into a sorted sequence puts `e` first among its weight. */
  lemma {:induction false} InsertOfWeight(e: Edge, s: seq<Edge>, w: int)
    requires SortedByWeight(s)
    ensures OfWeight(Insert(e, s), w) == (if e.weight == w then [e] else []) + OfWeight(s, w)
  {
    if s != [] && e.weight > s[0].weight {
      InsertOfWeight(e, s[1..], w);
      assert Insert(e, s)[1..] == Insert(e, s[1..]);
      if e.weight == w {
        assert s[0].weight != w;
      }
    } else {
      assert ([e] + s)[1..] == s;
    }
  }

  /** The sort is stable: the edges of any one weight keep their order. */
  lemma {:induction false} SortByWeightStable(s: seq<Edge>, w: int)
    ensures OfWeight(SortByWeight(s), w) == OfWeight(s, w)
  {
    if s != [] {
      SortByWeightStable(s[1..], w);
      SortByWeightSorted(s[1..]);
      InsertOfWeight(s[0], SortByWeight(s[1..]), w);
    }
  }

  // ---------------------------------------------------------------------
  // The scan, on labels

  /** `lab` names the sets of `root`: two vertices share a set exactly when
      they carry the same label. */
  ghost predicate Labels(root: map<Vertex, Vertex>, lab: map<Vertex, Vertex>)
  {
    lab.Keys == root.Keys &&
    forall u, v {:trigger lab[u], lab[v]} :: u in root && v in root ==> (root[u] == root[v] <==> lab[u] == lab[v])
  }

  /** The labels after the sets of `x` and `y` are joined: `y`'s label is
      replaced by `x`'s. */
  function Relabel(lab: map<Vertex, Vertex>, x: Vertex, y: Vertex): (lab': map<Vertex, Vertex>)
    requires x in lab && y in lab
    ensures lab'.Keys == lab.Keys
    ensures forall v {:trigger lab'[v]} :: v in lab ==> lab'[v] == if lab[v] == lab[y] then lab[x] else lab[v]
  {
    map v | v in lab :: if lab[v] == lab[y] then lab[x] else lab[v]
  }

  /** Every vertex of the list in its own set, named by itself. */
  function Singletons(vertices: seq<Vertex>): (lab: map<Vertex, Vertex>)
    ensures forall v :: v in lab <==> v in vertices
    ensures forall v {:trigger lab[v]} :: v in lab ==> lab[v] == v
  {
    map v | v in vertices :: v
  }

  /** The state of the scan: the labels of the sets and the edges kept. */
  datatype Scan = Scan(lab: map<Vertex, Vertex>, mst: seq<Edge>)

  /** One turn of the loop: an edge with an unknown endpoint makes `find`
      throw `NullPointerException`; an edge between two sets is kept and
      the sets are joined; an edge inside one set is skipped. */
  function Step(st: Scan, e: Edge): Result<Scan>
  {
    if e.source !in st.lab || e.destination !in st.lab then Failure(NullPointer)
    else if st.lab[e.source] != st.lab[e.destination] then
      Success(Scan(Relabel(st.lab, e.source, e.destination), st.mst + [e]))
    else Success(st)
  }

  /** The scan over `edges`, from the first edge to the last. */
  function Run(lab: map<Vertex, Vertex>, edges: seq<Edge>): Result<Scan>
  {
    if edges == [] then Success(Scan(lab, []))
    else match Run(lab, edges[..|edges| - 1])
      case Failure(err) => Failure(err)
      case Success(st) => Step(st, edges[|edges| - 1])
  }

  /** Once the scan has thrown, it stays the same exception to the end. */
  lemma {:induction false} RunFails(lab: map<Vertex, Vertex>, edges: seq<Edge>, i: int)
    requires 0 <= i <= |edges| && Run(lab, edges[..i]).Failure?
    ensures Run(lab, edges) == Run(lab, edges[..i])
    decreases |edges| - i
  {
    if i < |edges| {
      assert edges[..i + 1][..i] == edges[..i];
      RunFails(lab, edges, i + 1);
    } else {
      assert edges[..i] == edges;
    }
  }

  // ---------------------------------------------------------------------
  // What the scan keeps

  /** Joining two different sets removes exactly one label. */
  lemma RelabelValues(lab: map<Vertex, Vertex>, x: Vertex, y: Vertex)
    requires x in lab && y in lab && lab[x] != lab[y]
    ensures Relabel(lab, x, y).Values == lab.Values - {lab[y]}
    ensures |Relabel(lab, x, y).Values| == |lab.Values| - 1
  {
    var lab' := Relabel(lab, x, y);
    forall c | c in lab.Values - {lab[y]}
      ensures c in lab'.Values
    {
      var v :| v in lab && lab[v] == c;
      assert lab'[v] == c;
    }
    forall c | c in lab'.Values
      ensures c in lab.Values - {lab[y]}
    {
      var v :| v in lab' && lab'[v] == c;
      if lab[v] == lab[y] {
        assert c == lab[x];
        assert lab[x] in lab.Values;
      } else {
        assert lab[v] in lab.Values;
      }
    }
    assert lab[y] in lab.Values;
    assert lab.Values == (lab.Values - {lab[y]}) + {lab[y]};
  }

  /** Every kept edge joins two sets, so the kept edges and the remaining
      sets together account for the sets the scan started from; the labels
      stay labels of the same vertices. */
  lemma {:induction false} RunCounts(lab: map<Vertex, Vertex>, edges: seq<Edge>)
    requires Run(lab, edges).Success?
    ensures Run(lab, edges).value.lab.Keys == lab.Keys
    ensures |Run(lab, edges).value.mst| + |Run(lab, edges).value.lab.Values| == |lab.Values|
  {
    if edges != [] {
      var init := edges[..|edges| - 1];
      var e := edges[|edges| - 1];
      RunCounts(lab, init);
      var st := Run(lab, init).value;
      if st.lab[e.source] != st.lab[e.destination] {
        RelabelValues(st.lab, e.source, e.destination);
      }
    }
  }

  /** `s` is `t` with some elements dropped. */
  ghost predicate Subsequence(s: seq<Edge>, t: seq<Edge>)
    decreases |t|
  {
    if t == [] then s == []
    else
      (s != [] && s[|s| - 1] == t[|t| - 1] && Subsequence(s[..|s| - 1], t[..|t| - 1])) ||
      Subsequence(s, t[..|t| - 1])
  }

  /** Every element of a subsequence is an element of the whole. */
  lemma {:induction false} SubsequenceIn(s: seq<Edge>, t: seq<Edge>)
    requires Subsequence(s, t)
    ensures forall e :: e in s ==> e in t
    decreases |t|
  {
    if t != [] {
      var t' := t[..|t| - 1];
      assert t == t' + [t[|t| - 1]];
      if s != [] && s[|s| - 1] == t[|t| - 1] && Subsequence(s[..|s| - 1], t') {
        SubsequenceIn(s[..|s| - 1], t');
        assert s == s[..|s| - 1] + [s[|s| - 1]];
      } else {
        SubsequenceIn(s, t');
      }
    }
  }

  /** The scan keeps some of the edges, in their order. */
  lemma {:induction false} RunSubsequence(lab: map<Vertex, Vertex>, edges: seq<Edge>)
    requires Run(lab, edges).Success?
    ensures Subsequence(Run(lab, edges).value.mst, edges)
  {
    if edges != [] {
      var init := edges[..|edges| - 1];
      RunSubsequence(lab, init);
      var st := Run(lab, init).value;
      var mst := Run(lab, edges).value.mst;
      if mst != st.mst {
        assert mst[..|mst| - 1] == st.mst;
      }
    }
  }

  /** Starting from singletons, the scan keeps at most one edge fewer than
      there are distinct vertices, and only edges of the input. */
  lemma MstSize(vertices: seq<Vertex>, edges: seq<Edge>)
    requires vertices != [] && Run(Singletons(vertices), edges).Success?
    ensures |Run(Singletons(vertices), edges).value.mst| <= |set v | v in vertices| - 1
    ensures forall e :: e in Run(Singletons(vertices), edges).value.mst ==> e in edges
  {
    var lab := Singletons(vertices);
    RunCounts(lab, edges);
    assert lab.Values == set v | v in vertices by {
      forall v | v in vertices ensures v in lab.Values {
        assert lab[v] == v;
      }
    }
    var fin := Run(lab, edges).value;
    assert vertices[0] in fin.lab;
    assert fin.lab[vertices[0]] in fin.lab.Values;
    RunSubsequence(lab, edges);
    SubsequenceIn(fin.mst, edges);
  }

  // ---------------------------------------------------------------------
  // The kept edges form a forest

  /** `e` joins `u` and `v`, in either direction. */
  ghost predicate Joins(e: Edge, u: Vertex, v: Vertex)
  {
    (e.source == u && e.destination == v) || (e.source == v && e.destination == u)
  }

  /** `w` is a walk along the undirected edges `es`. */
  ghost predicate EdgeWalk(es: seq<Edge>, w: seq<Vertex>)
  {
    |w| > 0 && forall i :: 0 <= i < |w| - 1 ==> exists e :: e in es && Joins(e, w[i], w[i + 1])
  }

  /** A walk along `es` leads from `u` to `v`. */
  ghost predicate Linked(es: seq<Edge>, u: Vertex, v: Vertex)
  {
    exists w :: EdgeWalk(es, w) && w[0] == u && w[|w| - 1] == v
  }

  /** No edge of `mst` closes a cycle: each joins two vertices that the
      edges before it do not link, so the edges form a forest. */
  ghost predicate Forest(mst: seq<Edge>)
  {
    forall i :: 0 <= i < |mst| ==> !Linked(mst[..i], mst[i].source, mst[i].destination)
  }

  /** Every edge of `es` lies inside one set of `lab`. */
  ghost predicate Within(lab: map<Vertex, Vertex>, es: seq<Edge>)
  {
    forall e :: e in es ==> e.source in lab && e.destination in lab && lab[e.source] == lab[e.destination]
  }

  /** A walk along edges inside the sets stays in the set it starts in:
      its `n`-th vertex carries the label of its first. */
  lemma {:induction false} WalkWithin(lab: map<Vertex, Vertex>, es: seq<Edge>, w: seq<Vertex>, n: nat)
    requires Within(lab, es) && EdgeWalk(es, w) && w[0] in lab && n < |w|
    ensures w[n] in lab && lab[w[n]] == lab[w[0]]
  {
    if n > 0 {
      WalkWithin(lab, es, w, n - 1);
      var e :| e in es && Joins(e, w[n - 1], w[n]);
    }
  }

  /** Joining the sets of `x` and `y` keeps every edge inside a set, the
      edge from `x` to `y` included. */
  lemma RelabelWithin(lab: map<Vertex, Vertex>, es: seq<Edge>, e: Edge)
    requires Within(lab, es) && e.source in lab && e.destination in lab
    ensures Within(Relabel(lab, e.source, e.destination), es + [e])
  {
  }

  /** The scan keeps only edges between two different sets, and joins
      them: the kept edges lie inside the sets and form a forest. */
  lemma {:induction false} RunForest(lab: map<Vertex, Vertex>, edges: seq<Edge>)
    requires Run(lab, edges).Success?
    ensures Within(Run(lab, edges).value.lab, Run(lab, edges).value.mst)
    ensures Forest(Run(lab, edges).value.mst)
  {
    if edges != [] {
      var init := edges[..|edges| - 1];
      var e := edges[|edges| - 1];
      RunForest(lab, init);
      var st := Run(lab, init).value;
      if st.lab[e.source] != st.lab[e.destination] {
        RelabelWithin(st.lab, st.mst, e);
        ForestSnoc(st.lab, st.mst, e);
      }
    }
  }

  /** An edge between two different sets closes no cycle with edges
      inside the sets. */
  lemma ForestSnoc(lab: map<Vertex, Vertex>, mst: seq<Edge>, e: Edge)
    requires Within(lab, mst) && Forest(mst)
    requires e.source in lab && e.destination in lab && lab[e.source] != lab[e.destination]
    ensures Forest(mst + [e])
  {
    var mst' := mst + [e];
    forall i | 0 <= i < |mst'|
      ensures !Linked(mst'[..i], mst'[i].source, mst'[i].destination)
    {
      if i < |mst| {
        assert mst'[..i] == mst[..i] && mst'[i] == mst[i];
      } else {
        assert mst'[..i] == mst && mst'[i] == e;
        if Linked(mst, e.source, e.destination) {
          var w :| EdgeWalk(mst, w) && w[0] == e.source && w[|w| - 1] == e.destination;
          WalkWithin(lab, mst, w, |w| - 1);
        }
      }
    }
  }

  // ---------------------------------------------------------------------
  // The union-find keeps the labels

  /** A union keeps the labels in step with the sets once `y`'s label is
      replaced by `x`'s. */
  lemma LabelsAfterUnion(root: map<Vertex, Vertex>, root': map<Vertex, Vertex>, lab: map<Vertex, Vertex>, x: Vertex, y: Vertex)
    requires Labels(root, lab) && Unioned(root, root', x, y)
    ensures Labels(root', Relabel(lab, x, y))
  {
    var lab' := Relabel(lab, x, y);
    forall u, v | u in root' && v in root'
      ensures root'[u] == root'[v] <==> lab'[u] == lab'[v]
    {
      assert root[u] == root[v] <==> lab[u] == lab[v];
      assert root[u] == root[x] <==> lab[u] == lab[x];
      assert root[v] == root[y] <==> lab[v] == lab[y];
      assert root[u] == root[y] <==> lab[u] == lab[y];
      assert root[v] == root[x] <==> lab[v] == lab[x];
      assert root[x] == root[y] <==> lab[x] == lab[y];
    }
  }

  /** The scan over one more edge is one more step. */
  lemma RunSnoc(lab: map<Vertex, Vertex>, edges: seq<Edge>, i: int)
    requires 0 <= i < |edges|
    ensures Run(lab, edges[..i + 1]) ==
      match Run(lab, edges[..i])
        case Failure(err) => Failure(err)
        case Success(st) => Step(st, edges[i])
  {
    assert edges[..i + 1][..i] == edges[..i];
  }

  /** `uf.find(u) != uf.find(v)`: whether the endpoints of `e` lie in
      different sets, or the `NullPointerException` of an unknown one. */
  method FindsDiffer(uf: UnionFind, e: Edge, ghost lab: map<Vertex, Vertex>) returns (r: Result<bool>)
    requires uf.Valid() && Labels(uf.root, lab)
    modifies uf
    ensures uf.Valid() && uf.root == old(uf.root) && Labels(uf.root, lab)
    ensures r == if e.source !in lab || e.destination !in lab then Failure(NullPointer)
      else Success(lab[e.source] != lab[e.destination])
  {
    var rs := uf.Find(e.source);
    if rs.Failure? {
      return Failure(rs.error);
    }
    var rd := uf.Find(e.destination);
    if rd.Failure? {
      return Failure(rd.error);
    }
    return Success(rs.value != rd.value);
  }

  /** `uf.union(x, y)` on two known vertices: the labels follow. */
  method Join(uf: UnionFind, x: Vertex, y: Vertex, ghost lab: map<Vertex, Vertex>) returns (ghost lab': map<Vertex, Vertex>)
    requires uf.Valid() && Labels(uf.root, lab) && x in lab && y in lab
    modifies uf
    ensures uf.Valid() && lab' == Relabel(lab, x, y) && Labels(uf.root, lab')
  {
    ghost var before := uf.root;
    var o := uf.Union(x, y);
    LabelsAfterUnion(before, uf.root, lab, x, y);
    lab' := Relabel(lab, x, y);
  }

  /** `buildMst`: an empty vertex or edge list is rejected with
      `IllegalArgumentException` before anything happens; otherwise the
      caller's list is sorted in place (returned as `sorted`) and scanned,
      and the result is the scan's kept edges, or the exception an unknown
      endpoint raises. */
  method BuildMst(vertices: seq<Vertex>, edges: seq<Edge>) returns (sorted: seq<Edge>, r: Result<seq<Edge>>)
    ensures vertices == [] || edges == [] ==> sorted == edges && r == Failure(IllegalArgument)
    ensures vertices != [] && edges != [] ==>
      sorted == SortByWeight(edges) &&
      r == match Run(Singletons(vertices), sorted)
        case Success(st) => Success(st.mst)
        case Failure(err) => Failure(err)
    ensures vertices != [] && edges != [] && r.Success? ==>
      Forest(r.value) && |r.value| <= |set v | v in vertices| - 1 && forall e :: e in r.value ==> e in edges
  {
    if vertices == [] {
      return edges, Failure(IllegalArgument);
    }
    if edges == [] {
      return edges, Failure(IllegalArgument);
    }
    var mst: seq<Edge> := [];
    sorted := SortByWeight(edges);
    var uf := new UnionFind(vertices);
    ghost var lab := Singletons(vertices);
    assert Labels(uf.root, lab);
    for i := 0 to |sorted|
      invariant uf.Valid() && Labels(uf.root, lab)
      invariant Run(Singletons(vertices), sorted[..i]) == Success(Scan(lab, mst))
    {
      var e := sorted[i];
      RunSnoc(Singletons(vertices), sorted, i);
      var differ := FindsDiffer(uf, e, lab);
      if differ.Failure? {
        RunFails(Singletons(vertices), sorted, i + 1);
        return sorted, Failure(differ.error);
      }
      if differ.value {
        mst := mst + [e];
        lab := Join(uf, e.source, e.destination, lab);
      }
    }
    assert sorted[..|sorted|] == sorted;
    RunForest(Singletons(vertices), sorted);
    MstSize(vertices, sorted);
    SortByWeightSorted(edges);
    assert forall e :: e in sorted ==> e in multiset(edges);
    return sorted, Success(mst);
  }

  /** The demonstration graph: A-B (1), D-B (2), B-C (3), A-D (4), D-C (5). */
  function DemoEdges(): seq<Edge>
  {
    [Edge("A", "B", 1), Edge("D", "B", 2), Edge("B", "C", 3), Edge("A", "D", 4), Edge("D", "C", 5)]
  }

  /** The scan over the demonstration graph, for any four distinct
      vertices: it keeps a-b, d-b and b-c and skips a-d and d-c, which by
      then join vertices of one set. */
  lemma DemoRunFor(a: Vertex, b: Vertex, c: Vertex, d: Vertex)
    requires a != b && a != c && a != d && b != c && b != d && c != d
    ensures var es := [Edge(a, b, 1), Edge(d, b, 2), Edge(b, c, 3), Edge(a, d, 4), Edge(d, c, 5)];
      SortByWeight(es) == es &&
      Run(Singletons([a, b, c, d]), es).Success? &&
      Run(Singletons([a, b, c, d]), es).value.mst == [Edge(a, b, 1), Edge(d, b, 2), Edge(b, c, 3)]
  {
    var es := [Edge(a, b, 1), Edge(d, b, 2), Edge(b, c, 3), Edge(a, d, 4), Edge(d, c, 5)];
    var m1, m2, m3 := [es[0]], [es[0], es[1]], [es[0], es[1], es[2]];
    assert [] + [es[0]] == m1 && m1 + [es[1]] == m2 && m2 + [es[2]] == m3;
    assert es[..0] == [] && es[..5] == es;
    SortedSortByWeight(es);
    var lab0 := Singletons([a, b, c, d]);
    assert a in lab0 && b in lab0 && c in lab0 && d in lab0;
    var lab1 := Relabel(lab0, a, b);
    assert lab1[a] == a && lab1[b] == a && lab1[c] == c && lab1[d] == d;
    var lab2 := Relabel(lab1, d, b);
    assert lab2[a] == d && lab2[b] == d && lab2[c] == c && lab2[d] == d;
    var lab3 := Relabel(lab2, b, c);
    assert lab3[a] == d && lab3[b] == d && lab3[c] == d && lab3[d] == d;
    var s0, s1, s2, s3 := Scan(lab0, []), Scan(lab1, m1), Scan(lab2, m2), Scan(lab3, m3);
    assert lab0[a] != lab0[b] && Step(s0, es[0]) == Success(Scan(Relabel(lab0, a, b), s0.mst + [es[0]]));
    assert lab1[d] != lab1[b] && Step(s1, es[1]) == Success(Scan(Relabel(lab1, d, b), s1.mst + [es[1]]));
    assert lab2[b] != lab2[c] && Step(s2, es[2]) == Success(Scan(Relabel(lab2, b, c), s2.mst + [es[2]]));
    assert lab3[a] == lab3[d] && Step(s3, es[3]) == Success(s3);
    assert lab3[d] == lab3[c] && Step(s3, es[4]) == Success(s3);
    assert Run(lab0, es[..0]) == Success(s0);
    RunSnoc(lab0, es, 0);
    assert Run(lab0, es[..1]) == Success(s1);
    RunSnoc(lab0, es, 1);
    assert Run(lab0, es[..2]) == Success(s2);
    RunSnoc(lab0, es, 2);
    assert Run(lab0, es[..3]) == Success(s3);
    RunSnoc(lab0, es, 3);
    assert Run(lab0, es[..4]) == Success(s3);
    RunSnoc(lab0, es, 4);
    assert Run(lab0, es[..5]) == Success(s3);
  }

  /** On the demonstration graph the tree is A-B (1), D-B (2), B-C (3). */
  method Demo() returns (mst: Result<seq<Edge>>)
    ensures mst == Success([Edge("A", "B", 1), Edge("D", "B", 2), Edge("B", "C", 3)])
  {
    DemoRunFor("A", "B", "C", "D");
    var sorted;
    sorted, mst := BuildMst(["A", "B", "C", "D"], DemoEdges());
  }
}
