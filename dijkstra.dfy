/** Dijkstra's single-source shortest paths over a graph with non-negative
    weights, with the predecessor map that `getShortestPathTo` follows
    back from a target. */
module DijkstraAlgorithm {
  import opened Java
  import opened Graph
  import opened DijkstraGraph
  import Q = VertexDistancePriorityQueue

  /** The distance `computePaths` starts `v` at. */
  function Initial(source: Vertex, v: Vertex): int
  {
    if v == source then 0 else INFINITY
  }

  /** `rank` strictly decreases along predecessor links, so following them
      from any vertex stops; every predecessor has an entry of its own. */
  ghost predicate Ranked(pred: map<Vertex, Option<Vertex>>, rank: map<Vertex, nat>)
  {
    forall v {:trigger pred[v]} :: v in pred ==>
      v in rank && (pred[v].Some? ==> pred[v].value in pred && pred[v].value in rank && rank[pred[v].value] < rank[v])
  }

  /** What `getShortestPathTo(t)` returns: the predecessor chain from `t`
      back to a vertex without predecessor, in forward order. */
  ghost function PathTo(pred: map<Vertex, Option<Vertex>>, rank: map<Vertex, nat>, t: Vertex): (p: seq<Vertex>)
    requires Ranked(pred, rank)
    ensures |p| >= 1 && p[|p| - 1] == t
    ensures p[0] !in pred || pred[p[0]].None?
    decreases if t in rank then rank[t] else 0
  {
    if t !in pred || pred[t].None? then [t]
    else PathTo(pred, rank, pred[t].value) + [t]
  }

  /** Each element of the chain after the first has the element before it
      as its predecessor. */
  lemma {:induction false} PathToLinks(pred: map<Vertex, Option<Vertex>>, rank: map<Vertex, nat>, t: Vertex)
    requires Ranked(pred, rank)
    ensures forall i :: 0 < i < |PathTo(pred, rank, t)| ==>
      PathTo(pred, rank, t)[i] in pred && pred[PathTo(pred, rank, t)[i]] == Some(PathTo(pred, rank, t)[i - 1])
    decreases if t in rank then rank[t] else 0
  {
    if t in pred && pred[t].Some? {
      var u := pred[t].value;
      PathToLinks(pred, rank, u);
      var r := PathTo(pred, rank, u);
      var p := PathTo(pred, rank, t);
      assert p == r + [t];
      forall i | 0 < i < |p|
        ensures p[i] in pred && pred[p[i]] == Some(p[i - 1])
      {
        if i < |r| {
          assert p[i] == r[i] && p[i - 1] == r[i - 1];
        } else {
          assert p[i] == t && p[i - 1] == r[|r| - 1] == u;
        }
      }
    }
  }

  /** One step back along the chain. */
  lemma PathToStep(pred: map<Vertex, Option<Vertex>>, rank: map<Vertex, nat>, t: Vertex)
    requires Ranked(pred, rank)
    ensures PathTo(pred, rank, t) == (if t in pred && pred[t].Some? then PathTo(pred, rank, pred[t].value) else []) + [t]
  {
  }

  /** `Collections.reverse`. */
  function Reversed(s: seq<Vertex>): (r: seq<Vertex>)
    ensures |r| == |s|
  {
    if s == [] then [] else [s[|s| - 1]] + Reversed(s[..|s| - 1])
  }

  /** Reversal reads a list back to front. */
  lemma {:induction false} ReversedAt(s: seq<Vertex>)
    ensures forall i :: 0 <= i < |s| ==> Reversed(s)[i] == s[|s| - 1 - i]
    decreases |s|
  {
    if s != [] {
      ReversedAt(s[..|s| - 1]);
    }
  }

  /** Reversing a list grown at the end puts the new element first. */
  lemma ReversedSnoc(s: seq<Vertex>, x: Vertex)
    ensures Reversed(s + [x]) == [x] + Reversed(s)
  {
    assert (s + [x])[..|s|] == s;
  }

  /** One round of the `getShortestPathTo` loop: moving the predecessor `p`
      from the chain still to walk onto the end of the reversed path keeps
      chain followed by reversed path equal. */
  lemma ChainStep(pred: map<Vertex, Option<Vertex>>, rank: map<Vertex, nat>, p: Vertex, path: seq<Vertex>)
    requires Ranked(pred, rank)
    ensures PathTo(pred, rank, p) + Reversed(path) ==
            (if p in pred && pred[p].Some? then PathTo(pred, rank, pred[p].value) else []) + Reversed(path + [p])
  {
    PathToStep(pred, rank, p);
    ReversedSnoc(path, p);
    var x := if p in pred && pred[p].Some? then PathTo(pred, rank, pred[p].value) else [];
    AppendAssoc(x, [p], Reversed(path));
  }

  /** Concatenation is associative. */
  lemma AppendAssoc(a: seq<Vertex>, b: seq<Vertex>, c: seq<Vertex>)
    ensures (a + b) + c == a + (b + c)
  {
  }

  /** The state `computePaths` leaves, for graph `g` and `source`: the
      distances start at 0 on `source` and lie in `[0, INFINITY]`; every
      edge is relaxed (no distance can be lowered through it); every
      recorded predecessor is tight (the distance is the predecessor's plus
      the edge's weight, and finite); and a vertex without predecessor still
      has its initial distance. */
  ghost predicate ShortestPathTree(g: View, source: Vertex, dist: map<Vertex, int>, pred: map<Vertex, Option<Vertex>>)
  {
    source in g.out && source in dist && dist[source] == 0 &&
    source in pred && pred[source] == None &&
    (forall v :: v in dist <==> v in g.out) &&
    (forall v :: v in dist ==> v in pred) &&
    (forall v :: v in dist ==> 0 <= dist[v] <= INFINITY) &&
    (forall u, k :: u in dist && 0 <= k < |g.out[u]| ==> Relaxes(g, dist, u, g.out[u][k].destination)) &&
    (forall v {:trigger pred[v]} :: v in dist && v in pred && pred[v].Some? ==> Tight(g, dist, pred[v].value, v)) &&
    (forall v {:trigger pred[v]} :: v in dist && v in pred && pred[v].None? ==> dist[v] == Initial(source, v))
  }

  /** The edge `u`→`n` cannot lower `n`'s distance. */
  ghost predicate Relaxes(g: View, dist: map<Vertex, int>, u: Vertex, n: Vertex)
  {
    u in g.out && u in dist && n in dist && dist[n] <= dist[u] + Weight(g, u, n)
  }

  /** `v`'s distance is reached through its predecessor `u`. */
  ghost predicate Tight(g: View, dist: map<Vertex, int>, u: Vertex, v: Vertex)
  {
    u in g.out && u in dist && v in dist && v in Neighbors(g, u) &&
    dist[v] == dist[u] + Weight(g, u, v) && dist[v] < INFINITY
  }

  /** No walk from `source` is shorter than the distance of its end. */
  lemma {:induction false} LowerBound(g: View, source: Vertex, dist: map<Vertex, int>, pred: map<Vertex, Option<Vertex>>, p: seq<Vertex>)
    requires ShortestPathTree(g, source, dist, pred) && IsPath(g, p) && p[0] == source
    ensures dist[p[|p| - 1]] <= PathWeight(g, p)
    decreases |p|
  {
    if |p| > 1 {
      var q := p[..|p| - 1];
      assert IsPath(g, q);
      LowerBound(g, source, dist, pred, q);
      var x, y := p[|p| - 2], p[|p| - 1];
      assert y in Neighbors(g, x);
      var k :| 0 <= k < |Neighbors(g, x)| && Neighbors(g, x)[k] == y;
      assert Relaxes(g, dist, x, g.out[x][k].destination);
    }
  }

  /** The predecessor chain of a vertex at finite distance is a walk from
      `source` whose weight is that distance. */
  lemma {:induction false} UpperBound(g: View, source: Vertex, dist: map<Vertex, int>, pred: map<Vertex, Option<Vertex>>, rank: map<Vertex, nat>, t: Vertex)
    requires WellFormed(g) && ShortestPathTree(g, source, dist, pred) && Ranked(pred, rank)
    requires t in dist && dist[t] < INFINITY
    ensures IsPath(g, PathTo(pred, rank, t)) && PathTo(pred, rank, t)[0] == source
    ensures PathWeight(g, PathTo(pred, rank, t)) == dist[t]
    decreases rank[t]
  {
    assert t in pred;
    if pred[t].None? {
      assert dist[t] == Initial(source, t);
    } else {
      var u := pred[t].value;
      assert Tight(g, dist, u, t);
      WeightNonNegative(g.out[u], t);
      UpperBound(g, source, dist, pred, rank, u);
      var r := PathTo(pred, rank, u);
      assert PathTo(pred, rank, t) == r + [t];
      PathSnoc(g, r, t);
    }
  }

  /** Extending a walk by an edge out of its last vertex gives a walk that
      weighs that edge more. */
  lemma PathSnoc(g: View, r: seq<Vertex>, t: Vertex)
    requires IsPath(g, r) && t in g.out && t in Neighbors(g, r[|r| - 1])
    ensures IsPath(g, r + [t]) && (r + [t])[0] == r[0]
    ensures PathWeight(g, r + [t]) == PathWeight(g, r) + Weight(g, r[|r| - 1], t)
  {
    PathSnocIsPath(g, r, t);
    assert (r + [t])[..|r|] == r;
  }

  /** The walk half of `PathSnoc`. */
  lemma PathSnocIsPath(g: View, r: seq<Vertex>, t: Vertex)
    requires IsPath(g, r) && t in g.out && t in Neighbors(g, r[|r| - 1])
    ensures IsPath(g, r + [t])
  {
    var p := r + [t];
    forall i | 0 < i < |p|
      ensures p[i] in Neighbors(g, p[i - 1])
    {
      if i < |r| {
        assert p[i] == r[i] && p[i - 1] == r[i - 1];
      }
    }
  }

  /** Dijkstra's guarantee on the state `computePaths` leaves: the distance
      of `t` is at most the weight of every walk from `source` to `t`; when
      it is finite, the path `getShortestPathTo(t)` returns is such a walk
      and weighs exactly that distance, so it is a shortest one; when it is
      `INFINITY`, that path is just `[t]`. */
  lemma ShortestPaths(g: View, source: Vertex, dist: map<Vertex, int>, pred: map<Vertex, Option<Vertex>>, rank: map<Vertex, nat>, t: Vertex)
    requires WellFormed(g) && ShortestPathTree(g, source, dist, pred) && Ranked(pred, rank) && t in g.out
    ensures forall p :: IsPath(g, p) && p[0] == source && p[|p| - 1] == t ==> dist[t] <= PathWeight(g, p)
    ensures dist[t] < INFINITY ==>
      IsPath(g, PathTo(pred, rank, t)) && PathTo(pred, rank, t)[0] == source && PathWeight(g, PathTo(pred, rank, t)) == dist[t]
    ensures dist[t] == INFINITY ==> PathTo(pred, rank, t) == [t]
  {
    forall p | IsPath(g, p) && p[0] == source && p[|p| - 1] == t
      ensures dist[t] <= PathWeight(g, p)
    {
      LowerBound(g, source, dist, pred, p);
    }
    if dist[t] < INFINITY {
      UpperBound(g, source, dist, pred, rank, t);
    } else {
      assert t in pred;
      if pred[t].Some? {
        assert Tight(g, dist, pred[t].value, t);
      }
    }
  }

  /** The loop state of `computePaths` with settled set `S` (polled
      vertices, plus the one being scanned) and queue map `q`: the queued
      and settled vertices split the graph's, queued distances are the
      current ones, no settled distance exceeds a queued one, and the
      predecessor facts of `ShortestPathTree` hold with every predecessor
      settled. */
  ghost predicate Settled(g: View, source: Vertex, dist: map<Vertex, int>, pred: map<Vertex, Option<Vertex>>, q: map<Vertex, int>, S: set<Vertex>)
  {
    Split(g, source, dist, pred, q, S) && Tree(g, source, dist, pred, S)
  }

  /** The partition half of `Settled`. */
  ghost predicate Split(g: View, source: Vertex, dist: map<Vertex, int>, pred: map<Vertex, Option<Vertex>>, q: map<Vertex, int>, S: set<Vertex>)
  {
    source in g.out && source in dist && dist[source] == 0 &&
    source in pred && pred[source] == None &&
    (forall v :: v in dist <==> v in g.out) &&
    (forall v :: v in dist ==> v in pred) &&
    (forall v :: v in q ==> v in dist && q[v] == dist[v] && v !in S) &&
    (forall v :: v in dist ==> v in q || v in S) &&
    (forall v :: v in S ==> v in dist) &&
    (forall v :: v in dist ==> 0 <= dist[v] <= INFINITY) &&
    (forall p, v :: p in S && v in q ==> dist[p] <= dist[v])
  }

  /** The predecessor half of `Settled`. */
  ghost predicate Tree(g: View, source: Vertex, dist: map<Vertex, int>, pred: map<Vertex, Option<Vertex>>, S: set<Vertex>)
  {
    (forall v {:trigger pred[v]} :: v in dist && v in pred && pred[v].Some? ==> pred[v].value in S && Tight(g, dist, pred[v].value, v)) &&
    (forall v {:trigger pred[v]} :: v in dist && v in pred && pred[v].None? ==> dist[v] == Initial(source, v))
  }

  /** Every edge out of `S` is relaxed. */
  ghost predicate Relaxed(g: View, dist: map<Vertex, int>, S: set<Vertex>)
  {
    forall u, k :: u in S && u in g.out && 0 <= k < |g.out[u]| ==> Relaxes(g, dist, u, g.out[u][k].destination)
  }

  /** The first `i` edges out of `c` are relaxed. */
  ghost predicate RelaxedUpTo(g: View, dist: map<Vertex, int>, c: Vertex, i: int)
  {
    c in g.out && 0 <= i <= |g.out[c]| &&
    forall k :: 0 <= k < i ==> Relaxes(g, dist, c, g.out[c][k].destination)
  }

  /** `order` stamps the polled vertices `done` with their poll times, all
      before `t`, and a polled vertex's predecessor was polled before it. */
  ghost predicate Ordered(pred: map<Vertex, Option<Vertex>>, order: map<Vertex, nat>, done: set<Vertex>, t: nat)
  {
    (forall v :: v in order <==> v in done) &&
    (forall v :: v in order ==> order[v] < t) &&
    (forall v {:trigger pred[v]} :: v in done && v in pred && pred[v].Some? ==> pred[v].value in order && order[pred[v].value] < order[v])
  }

  /** The distances the initialising loop of `computePaths` has put after
      visiting `vs`. */
  function Initials(source: Vertex, vs: seq<Vertex>): (m: map<Vertex, int>)
    ensures forall v :: v in m <==> v in vs
    ensures forall v :: v in m ==> m[v] == Initial(source, v)
  {
    if vs == [] then map[] else Initials(source, vs[..|vs| - 1])[vs[|vs| - 1] := Initial(source, vs[|vs| - 1])]
  }

  /** The predecessor map after the initialising loop has put "no
      predecessor" for each vertex of `vs`. */
  function Seeded(pred: map<Vertex, Option<Vertex>>, vs: seq<Vertex>): (m: map<Vertex, Option<Vertex>>)
    ensures forall v :: v in m <==> v in pred || v in vs
    ensures forall v :: v in vs ==> m[v] == None
    ensures forall v :: v in pred && v !in vs ==> m[v] == pred[v]
  {
    if vs == [] then pred else Seeded(pred, vs[..|vs| - 1])[vs[|vs| - 1] := None]
  }

  /** The invariant of the `while` loop of `computePaths`. */
  ghost predicate Outer(g: View, source: Vertex, dist: map<Vertex, int>, pred: map<Vertex, Option<Vertex>>, q: map<Vertex, int>, done: set<Vertex>, order: map<Vertex, nat>, t: nat)
  {
    Settled(g, source, dist, pred, q, done) && Relaxed(g, dist, done) && Ordered(pred, order, done, t)
  }

  /** The invariant of the scan over the neighbours of the polled vertex
      `c`, after `i` of them. */
  ghost predicate Inner(g: View, source: Vertex, dist: map<Vertex, int>, pred: map<Vertex, Option<Vertex>>, q: map<Vertex, int>, done: set<Vertex>, order: map<Vertex, nat>, t: nat, c: Vertex, i: int)
  {
    Settled(g, source, dist, pred, q, done + {c}) && c !in done && c in g.out &&
    RelaxedUpTo(g, dist, c, i) && Relaxed(g, dist, done) && Ordered(pred, order, done, t) &&
    (forall p :: p in done ==> dist[p] <= dist[c]) &&
    (c in pred && pred[c].Some? ==> pred[c].value in done)
  }

  /** The state after the initialising loop satisfies the loop invariant,
      with nothing polled. */
  lemma InitOuter(g: View, source: Vertex, dist: map<Vertex, int>, pred: map<Vertex, Option<Vertex>>)
    requires source in g.out
    requires forall v :: v in dist <==> v in g.out
    requires forall v :: v in dist ==> dist[v] == Initial(source, v)
    requires forall v :: v in g.out ==> v in pred && pred[v] == None
    ensures Outer(g, source, dist, pred, dist, {}, map[], 0)
  {
  }

  /** Polling a nearest queued vertex `c` starts its scan. */
  lemma PollStep(g: View, source: Vertex, dist: map<Vertex, int>, pred: map<Vertex, Option<Vertex>>, q: map<Vertex, int>, done: set<Vertex>, order: map<Vertex, nat>, t: nat, c: Vertex)
    requires Outer(g, source, dist, pred, q, done, order, t) && c in q
    requires forall v :: v in q ==> q[c] <= q[v]
    ensures Inner(g, source, dist, pred, q - {c}, done, order, t, c, 0)
  {
    assert pred[c] == pred[c];
  }

  /** A neighbour `n` whose distance the polled vertex `c` lowers to `alt`
      is still queued: every settled distance is at most `c`'s, which is at
      most `alt`. */
  lemma LowerQueued(g: View, source: Vertex, dist: map<Vertex, int>, pred: map<Vertex, Option<Vertex>>, q: map<Vertex, int>, done: set<Vertex>, order: map<Vertex, nat>, t: nat, c: Vertex, i: int, n: Vertex, alt: int)
    requires WellFormed(g) && Bounded(g)
    requires Inner(g, source, dist, pred, q, done, order, t, c, i) && i < |g.out[c]|
    requires n == g.out[c][i].destination && n in dist && alt == dist[c] + Weight(g, c, n) && alt < dist[n]
    ensures n in q && n != c && n !in done && n != source
  {
    WeightBounds(g, c, n);
  }

  /** Lowering `n` keeps the partition half of the loop state. */
  lemma LowerSplit(g: View, source: Vertex, dist: map<Vertex, int>, pred: map<Vertex, Option<Vertex>>, q: map<Vertex, int>, done: set<Vertex>, c: Vertex, n: Vertex, alt: int)
    requires Split(g, source, dist, pred, q, done + {c}) && c in g.out && c in dist
    requires forall p :: p in done ==> dist[p] <= dist[c]
    requires n in q && n != source && dist[c] <= alt < dist[n]
    ensures Split(g, source, dist[n := alt], pred[n := Some(c)], q[n := alt], done + {c})
  {
  }

  /** Lowering `n` through `c` keeps the predecessor half of the loop
      state, with `c` as `n`'s new predecessor. */
  lemma LowerTree(g: View, source: Vertex, dist: map<Vertex, int>, pred: map<Vertex, Option<Vertex>>, S: set<Vertex>, c: Vertex, n: Vertex, alt: int)
    requires Tree(g, source, dist, pred, S) && c in S && n !in S
    requires forall v :: v in S ==> v in dist
    requires c in g.out && n in dist && n in Neighbors(g, c) && n != source
    requires alt == dist[c] + Weight(g, c, n) && alt < INFINITY
    ensures Tree(g, source, dist[n := alt], pred[n := Some(c)], S)
  {
    var dist', pred' := dist[n := alt], pred[n := Some(c)];
    forall v {:trigger pred'[v]} | v in dist' && v in pred' && pred'[v].Some?
      ensures pred'[v].value in S && Tight(g, dist', pred'[v].value, v)
    {
      if v != n {
        assert pred[v] == pred'[v];
      }
    }
  }

  /** Lowering `n` to `dist[c]` plus the edge weight relaxes the `i`-th edge
      out of `c` and keeps the earlier ones and those of the polled
      vertices relaxed. */
  lemma LowerRelaxed(g: View, dist: map<Vertex, int>, done: set<Vertex>, c: Vertex, i: int, n: Vertex, alt: int)
    requires RelaxedUpTo(g, dist, c, i) && Relaxed(g, dist, done) && i < |g.out[c]| && c !in done
    requires n == g.out[c][i].destination && n in dist && n != c && n !in done && c in dist
    requires alt == dist[c] + Weight(g, c, n) && alt < dist[n]
    requires forall u, k :: u in done && u in g.out && 0 <= k < |g.out[u]| ==> u in dist && g.out[u][k].destination in dist
    requires forall k :: 0 <= k < |g.out[c]| ==> g.out[c][k].destination in dist
    ensures RelaxedUpTo(g, dist[n := alt], c, i + 1) && Relaxed(g, dist[n := alt], done)
  {
  }

  /** A neighbour `n` whose distance the polled vertex `c` lowers to `alt`
      is still queued, and recording the lowering keeps the scan's
      invariant with one more neighbour done. */
  lemma RelaxLower(g: View, source: Vertex, dist: map<Vertex, int>, pred: map<Vertex, Option<Vertex>>, q: map<Vertex, int>, done: set<Vertex>, order: map<Vertex, nat>, t: nat, c: Vertex, i: int, n: Vertex, alt: int)
    requires WellFormed(g) && Bounded(g)
    requires Inner(g, source, dist, pred, q, done, order, t, c, i) && i < |g.out[c]|
    requires n == g.out[c][i].destination && n in dist && alt == dist[c] + Weight(g, c, n) && alt < dist[n]
    ensures n in q
    ensures Inner(g, source, dist[n := alt], pred[n := Some(c)], q[n := alt], done, order, t, c, i + 1)
  {
    LowerQueued(g, source, dist, pred, q, done, order, t, c, i, n, alt);
    assert Neighbors(g, c)[i] == n;
    WeightBounds(g, c, n);
    LowerSplit(g, source, dist, pred, q, done, c, n, alt);
    LowerTree(g, source, dist, pred, done + {c}, c, n, alt);
    LowerRelaxed(g, dist, done, c, i, n, alt);
    var pred' := pred[n := Some(c)];
    assert Ordered(pred', order, done, t) by {
      forall v {:trigger pred'[v]} | v in done && v in pred' && pred'[v].Some?
        ensures pred'[v].value in order && order[pred'[v].value] < order[v]
      {
        assert pred'[v] == pred[v];
      }
    }
  }

  /** A neighbour whose distance `c` does not lower is already relaxed. */
  lemma RelaxKeep(g: View, source: Vertex, dist: map<Vertex, int>, pred: map<Vertex, Option<Vertex>>, q: map<Vertex, int>, done: set<Vertex>, order: map<Vertex, nat>, t: nat, c: Vertex, i: int, n: Vertex, alt: int)
    requires Inner(g, source, dist, pred, q, done, order, t, c, i) && i < |g.out[c]|
    requires n == g.out[c][i].destination && n in dist && alt == dist[c] + Weight(g, c, n) && alt >= dist[n]
    ensures Inner(g, source, dist, pred, q, done, order, t, c, i + 1)
  {
  }

  /** Once all of `c`'s neighbours are scanned, `c` joins the polled
      vertices with time stamp `t`. */
  lemma Finish(g: View, source: Vertex, dist: map<Vertex, int>, pred: map<Vertex, Option<Vertex>>, q: map<Vertex, int>, done: set<Vertex>, order: map<Vertex, nat>, t: nat, c: Vertex)
    requires c in g.out && Inner(g, source, dist, pred, q, done, order, t, c, |g.out[c]|)
    ensures Outer(g, source, dist, pred, q, done + {c}, order[c := t], t + 1)
  {
  }

  /** With the queue empty, the loop invariant is the shortest-path
      certificate. */
  lemma Drained(g: View, source: Vertex, dist: map<Vertex, int>, pred: map<Vertex, Option<Vertex>>, done: set<Vertex>, order: map<Vertex, nat>, t: nat)
    requires Outer(g, source, dist, pred, map[], done, order, t)
    ensures ShortestPathTree(g, source, dist, pred)
    ensures forall v :: v in done <==> v in g.out
  {
  }

  /** The ranks after `computePaths`: a polled vertex is ranked by its poll
      time, any other by its old rank shifted past all poll times. */
  ghost function Rerank(pred: map<Vertex, Option<Vertex>>, rank: map<Vertex, nat>, order: map<Vertex, nat>, shift: nat): map<Vertex, nat>
  {
    map v | v in pred :: if v in order then order[v] else if v in rank then rank[v] + shift else 0
  }

  /** Re-ranking keeps predecessor chains finite: chains through polled
      vertices follow poll times, and an entry left from an earlier run
      keeps its old predecessor. */
  lemma RerankRanked(pred0: map<Vertex, Option<Vertex>>, rank0: map<Vertex, nat>, pred: map<Vertex, Option<Vertex>>, order: map<Vertex, nat>, done: set<Vertex>, t: nat, shift: nat)
    requires Ranked(pred0, rank0) && Ordered(pred, order, done, t) && t <= shift
    requires forall v :: v in pred <==> v in pred0 || v in done
    requires forall v :: v in pred0 && v !in done ==> pred[v] == pred0[v]
    ensures Ranked(pred, Rerank(pred, rank0, order, shift))
  {
    var rank := Rerank(pred, rank0, order, shift);
    forall v {:trigger pred[v]} | v in pred
      ensures v in rank && (pred[v].Some? ==> pred[v].value in pred && pred[v].value in rank && rank[pred[v].value] < rank[v])
    {
      if v !in done && pred[v].Some? {
        assert pred0[v] == pred[v];
      }
    }
  }

  class DijkstraAlgorithm {
    var predecessorMap: map<Vertex, Option<Vertex>>
    ghost var rank: map<Vertex, nat>

    /** Predecessor chains end: a rank decreases along them. */
    ghost predicate Valid()
      reads this
    {
      Ranked(predecessorMap, rank)
    }

    /** A fresh algorithm object with no predecessors recorded. */
    constructor ()
      ensures Valid() && predecessorMap == map[]
    {
      predecessorMap := map[];
      rank := map[];
    }

    /** `resetState`: forgets every predecessor. */
    method ResetState()
      modifies this
      ensures Valid() && predecessorMap == map[]
    {
      predecessorMap := map[];
      rank := map[];
    }

    /** `getShortestPathTo`: the predecessor chain from `target`, in
        forward order; a vertex with no (or no known) predecessor gives
        `[target]`. */
    method GetShortestPathTo(target: Vertex) returns (path: seq<Vertex>)
      requires Valid()
      ensures path == PathTo(predecessorMap, rank, target)
    {
      path := [target];
      var predecessor := if target in predecessorMap then predecessorMap[target] else None;
      PathToStep(predecessorMap, rank, target);
      assert Reversed(path) == [target];
      while predecessor.Some?
        invariant predecessor.Some? ==> predecessor.value in predecessorMap && predecessor.value in rank
        invariant PathTo(predecessorMap, rank, target) == (if predecessor.Some? then PathTo(predecessorMap, rank, predecessor.value) else []) + Reversed(path)
        decreases if predecessor.Some? then rank[predecessor.value] + 1 else 0
      {
        var p := predecessor.value;
        ChainStep(predecessorMap, rank, p, path);
        path := path + [p];
        predecessor := predecessorMap[p];
      }
      path := Reversed(path);
    }

    /** `computePaths`: rejects a source outside the graph; otherwise the
        distances it computes, with the predecessors it records for every
        vertex of the graph, form a shortest-path tree from `source`, and
        entries for vertices outside the graph are kept. The predecessor
        puts go to a local copy of the map, stored back at the end. */
    method ComputePaths(graph: View, source: Vertex) returns (o: Outcome, ghost dist: map<Vertex, int>)
      requires Valid() && WellFormed(graph) && Bounded(graph)
      modifies this
      ensures Valid()
      ensures o == if source in graph.vertices then Pass else Fail(IllegalArgument)
      ensures o.Fail? ==> predecessorMap == old(predecessorMap)
      ensures o.Pass? ==> ShortestPathTree(graph, source, dist, predecessorMap)
      ensures o.Pass? ==> forall v :: v in predecessorMap <==> v in old(predecessorMap) || v in graph.out
      ensures o.Pass? ==> forall v :: v in old(predecessorMap) && v !in graph.out ==> predecessorMap[v] == old(predecessorMap)[v]
    {
      if source !in graph.vertices {
        return Fail(IllegalArgument), map[];
      }
      var distances, predecessors, pQueue := Initialize(graph.vertices, source, predecessorMap);
      ghost var done, order, t;
      distances, predecessors, done, order, t := SettleAll(graph, source, pQueue, distances, predecessors);
      RerankRanked(predecessorMap, rank, predecessors, order, done, t, |graph.vertices|);
      rank := Rerank(predecessors, rank, order, |graph.vertices|);
      predecessorMap := predecessors;
      return Pass, distances;
    }

    /** The `while` loop of `computePaths`: polls the nearest queued vertex
        and relaxes its edges until the queue is empty; the result is a
        shortest-path tree, and every vertex of the graph was polled once,
        in an order that stamps each predecessor before its successors. */
    static method SettleAll(graph: View, source: Vertex, pQueue: Q.VertexDistancePriorityQueue, distances: map<Vertex, int>, predecessors: map<Vertex, Option<Vertex>>)
      returns (distances': map<Vertex, int>, predecessors': map<Vertex, Option<Vertex>>, ghost done: set<Vertex>, ghost order: map<Vertex, nat>, ghost t: nat)
      requires WellFormed(graph) && Bounded(graph) && pQueue.Valid() && Q.Holds(pQueue.Contents(), distances)
      requires |pQueue.Contents()| == |graph.vertices| && source in graph.out
      requires forall v :: v in distances <==> v in graph.out
      requires forall v :: v in distances ==> distances[v] == Initial(source, v)
      requires forall v :: v in graph.out ==> v in predecessors && predecessors[v] == None
      modifies pQueue, pQueue.vertexDistances
      ensures ShortestPathTree(graph, source, distances', predecessors')
      ensures Ordered(predecessors', order, done, t) && t <= |graph.vertices|
      ensures forall v :: v in done <==> v in graph.out
      ensures forall v :: v in predecessors' <==> v in predecessors
      ensures forall v :: v in predecessors && v !in graph.out ==> predecessors'[v] == predecessors[v]
    {
      InitOuter(graph, source, distances, predecessors);
      distances', predecessors' := distances, predecessors;
      ghost var q := distances;
      done, order, t := {}, map[], 0;
      while !pQueue.IsEmpty()
        invariant pQueue.Valid() && Q.Holds(pQueue.Contents(), q)
        invariant Outer(graph, source, distances', predecessors', q, done, order, t)
        invariant t + |pQueue.Contents()| == |graph.vertices|
        invariant forall v :: v in predecessors' <==> v in predecessors
        invariant forall v :: v in predecessors && v !in graph.out ==> predecessors'[v] == predecessors[v]
        decreases |pQueue.Contents()|
      {
        Q.HoldsPoll(pQueue.Contents(), q);
        var polled := pQueue.PollSmallest();
        var closestToSource := polled.value;
        PollStep(graph, source, distances', predecessors', q, done, order, t, closestToSource);
        q := q - {closestToSource};
        distances', predecessors', q := RelaxNeighbors(graph, source, pQueue, distances', predecessors', closestToSource, q, done, order, t);
        Finish(graph, source, distances', predecessors', q, done, order, t, closestToSource);
        done, order, t := done + {closestToSource}, order[closestToSource := t], t + 1;
      }
      forall v | v in q
        ensures false
      {
        Q.HoldsIndex(pQueue.Contents(), q, v);
      }
      Drained(graph, source, distances', predecessors', done, order, t);
    }

    /** The initialising loop of `computePaths`: every vertex of the graph
        starts at `Initial` distance with no predecessor, and the queue,
        sized by the vertex count, holds exactly those distances. */
    static method Initialize(vertices: seq<Vertex>, source: Vertex, predecessors: map<Vertex, Option<Vertex>>)
      returns (distances: map<Vertex, int>, predecessors': map<Vertex, Option<Vertex>>, pQueue: Q.VertexDistancePriorityQueue)
      requires source in vertices && forall i, j :: 0 <= i < j < |vertices| ==> vertices[i] != vertices[j]
      ensures fresh(pQueue) && fresh(pQueue.vertexDistances) && pQueue.Valid()
      ensures |pQueue.Contents()| == |vertices| && Q.Holds(pQueue.Contents(), distances)
      ensures forall v :: v in distances <==> v in vertices
      ensures forall v :: v in distances ==> distances[v] == Initial(source, v)
      ensures forall v :: v in predecessors' <==> v in predecessors || v in vertices
      ensures forall v :: v in vertices ==> predecessors'[v] == None
      ensures forall v :: v in predecessors && v !in vertices ==> predecessors'[v] == predecessors[v]
    {
      pQueue := new Q.VertexDistancePriorityQueue(|vertices|);
      distances, predecessors' := map[], predecessors;
      for i := 0 to |vertices|
        invariant fresh(pQueue) && fresh(pQueue.vertexDistances) && pQueue.Valid()
        invariant pQueue.maxSize == |vertices| && |pQueue.Contents()| == i
        invariant Q.Holds(pQueue.Contents(), distances)
        invariant distances == Initials(source, vertices[..i])
        invariant predecessors' == Seeded(predecessors, vertices[..i])
      {
        assert vertices[i] !in vertices[..i];
        assert vertices[..i + 1][..i] == vertices[..i];
        distances, predecessors' := InitVertex(pQueue, source, vertices[i], distances, predecessors');
      }
      assert vertices[..|vertices|] == vertices;
    }

    /** One round of the initialising loop: `v` gets its initial distance,
        no predecessor, and a queue entry with that distance. */
    static method InitVertex(pQueue: Q.VertexDistancePriorityQueue, source: Vertex, v: Vertex, distances: map<Vertex, int>, predecessors: map<Vertex, Option<Vertex>>)
      returns (distances': map<Vertex, int>, predecessors': map<Vertex, Option<Vertex>>)
      requires pQueue.Valid() && |pQueue.Contents()| < pQueue.maxSize && Q.Holds(pQueue.Contents(), distances) && v !in distances
      modifies pQueue, pQueue.vertexDistances
      ensures pQueue.Valid() && |pQueue.Contents()| == old(|pQueue.Contents()|) + 1 && Q.Holds(pQueue.Contents(), distances')
      ensures distances' == distances[v := Initial(source, v)] && predecessors' == predecessors[v := None]
    {
      var initialDistance := if v == source then 0 else INFINITY;
      ghost var s := pQueue.Contents();
      Q.HoldsAdd(s, distances, v, initialDistance);
      Q.PlacedAt(s, Q.VertexDistance(v, initialDistance));
      distances' := distances[v := initialDistance];
      predecessors' := predecessors[v := None];
      var added := pQueue.Add(v, distances'[v]);
      assert pQueue.Contents() == Q.Placed(s, Q.VertexDistance(v, initialDistance));
    }

    /** The neighbour loop of `computePaths` for the polled vertex
        `closestToSource`: each neighbour whose distance it lowers is
        updated in the queue, the distances and the predecessors, and
        afterwards every edge out of it is relaxed. */
    static method RelaxNeighbors(graph: View, source: Vertex, pQueue: Q.VertexDistancePriorityQueue, distances: map<Vertex, int>, predecessors: map<Vertex, Option<Vertex>>, closestToSource: Vertex,
                                 ghost q: map<Vertex, int>, ghost done: set<Vertex>, ghost order: map<Vertex, nat>, ghost t: nat)
      returns (distances': map<Vertex, int>, predecessors': map<Vertex, Option<Vertex>>, ghost q': map<Vertex, int>)
      requires WellFormed(graph) && Bounded(graph) && pQueue.Valid() && Q.Holds(pQueue.Contents(), q)
      requires Inner(graph, source, distances, predecessors, q, done, order, t, closestToSource, 0)
      modifies pQueue, pQueue.vertexDistances
      ensures pQueue.Valid() && Q.Holds(pQueue.Contents(), q') && |pQueue.Contents()| == old(|pQueue.Contents()|)
      ensures Inner(graph, source, distances', predecessors', q', done, order, t, closestToSource, |graph.out[closestToSource]|)
      ensures forall v :: v in predecessors' <==> v in predecessors
      ensures forall v :: v in predecessors && v !in graph.out ==> predecessors'[v] == predecessors[v]
    {
      var neighbors := Neighbors(graph, closestToSource);
      distances', predecessors', q' := distances, predecessors, q;
      for i := 0 to |neighbors|
        invariant pQueue.Valid() && Q.Holds(pQueue.Contents(), q') && |pQueue.Contents()| == old(|pQueue.Contents()|)
        invariant Inner(graph, source, distances', predecessors', q', done, order, t, closestToSource, i)
        invariant forall v :: v in predecessors' <==> v in predecessors
        invariant forall v :: v in predecessors && v !in graph.out ==> predecessors'[v] == predecessors[v]
      {
        distances', predecessors', q' := RelaxEdge(graph, source, pQueue, distances', predecessors', closestToSource, neighbors[i], q', done, order, t, i);
      }
    }

    /** One round of the neighbour loop: the path through `closestToSource`
        to its `i`-th neighbour `n` is taken when strictly shorter, which
        lowers `n`'s queued distance and makes `closestToSource` its
        predecessor; otherwise nothing changes. */
    static method RelaxEdge(graph: View, source: Vertex, pQueue: Q.VertexDistancePriorityQueue, distances: map<Vertex, int>, predecessors: map<Vertex, Option<Vertex>>, closestToSource: Vertex, n: Vertex,
                            ghost q: map<Vertex, int>, ghost done: set<Vertex>, ghost order: map<Vertex, nat>, ghost t: nat, ghost i: int)
      returns (distances': map<Vertex, int>, predecessors': map<Vertex, Option<Vertex>>, ghost q': map<Vertex, int>)
      requires WellFormed(graph) && Bounded(graph) && pQueue.Valid() && Q.Holds(pQueue.Contents(), q)
      requires Inner(graph, source, distances, predecessors, q, done, order, t, closestToSource, i)
      requires 0 <= i < |graph.out[closestToSource]| && n == graph.out[closestToSource][i].destination
      modifies pQueue, pQueue.vertexDistances
      ensures pQueue.Valid() && Q.Holds(pQueue.Contents(), q') && |pQueue.Contents()| == old(|pQueue.Contents()|)
      ensures Inner(graph, source, distances', predecessors', q', done, order, t, closestToSource, i + 1)
      ensures n in distances && n in distances' && distances'[n] <= distances[n]
      ensures distances'[n] < distances[n] ==> distances' == distances[n := distances'[n]] && predecessors' == predecessors[n := Some(closestToSource)]
      ensures distances'[n] == distances[n] ==> distances' == distances && predecessors' == predecessors
    {
      var currentDistance := distances[n];
      var edgeWeight := Weight(graph, closestToSource, n);
      var alternativeDistance := distances[closestToSource] + edgeWeight;
      if alternativeDistance < currentDistance {
        RelaxLower(graph, source, distances, predecessors, q, done, order, t, closestToSource, i, n, alternativeDistance);
        ghost var s := pQueue.Contents();
        Q.HoldsUpdate(s, q, n, alternativeDistance);
        var updated := pQueue.Update(n, alternativeDistance);
        assert updated == Pass;
        distances' := distances[n := alternativeDistance];
        predecessors' := predecessors[n := Some(closestToSource)];
        q' := q[n := alternativeDistance];
      } else {
        RelaxKeep(graph, source, distances, predecessors, q, done, order, t, closestToSource, i, n, alternativeDistance);
        distances', predecessors', q' := distances, predecessors, q;
      }
    }
  }
}
