/** Breadth-first (level-order) traversal with a FIFO queue, proved to visit the
    tree level by level: the root, then its children, then their children, each
    level from left to right. */
module BreadthFirstTraversal {
  import opened BinaryTree

  /** The non-null children of a node, left first, as the traversal enqueues them. */
  function Kids(t: NodeRef): seq<NodeRef>
  {
    (if t.left.Node? then [t.left] else []) + (if t.right.Node? then [t.right] else [])
  }

  /** Total number of nodes in a sequence of subtrees. */
  function ForestSize(f: seq<NodeRef>): nat
  {
    if f == [] then 0 else Size(f[0]) + ForestSize(f[1..])
  }

  /** The keys of a forest with their multiplicities. */
  function ForestBag(f: seq<NodeRef>): multiset<int>
  {
    if f == [] then multiset{} else KeyBag(f[0]) + ForestBag(f[1..])
  }

  /** The keys of the roots of a forest, left to right. */
  function Roots(f: seq<NodeRef>): (keys: seq<int>)
    ensures |keys| == |f|
  {
    if f == [] then [] else [f[0].key] + Roots(f[1..])
  }

  /** The next level: the children of every root, left to right. */
  function Children(f: seq<NodeRef>): seq<NodeRef>
  {
    if f == [] then [] else Kids(f[0]) + Children(f[1..])
  }

  lemma {:induction false} ForestSizeConcat(a: seq<NodeRef>, b: seq<NodeRef>)
    ensures ForestSize(a + b) == ForestSize(a) + ForestSize(b)
  {
    if a == [] {
      assert a + b == b;
    } else {
      assert (a + b)[1..] == a[1..] + b;
      ForestSizeConcat(a[1..], b);
    }
  }

  lemma {:induction false} ForestBagConcat(a: seq<NodeRef>, b: seq<NodeRef>)
    ensures ForestBag(a + b) == ForestBag(a) + ForestBag(b)
  {
    if a == [] {
      assert a + b == b;
    } else {
      assert (a + b)[1..] == a[1..] + b;
      ForestBagConcat(a[1..], b);
    }
  }

  lemma KidsSizeAndBag(t: NodeRef)
    ensures ForestSize(Kids(t)) == Size(t) - 1
    ensures ForestBag(Kids(t)) + multiset{t.key} == KeyBag(t)
  {
    var l: seq<NodeRef> := if t.left.Node? then [t.left] else [];
    var r: seq<NodeRef> := if t.right.Node? then [t.right] else [];
    SideForest(t.left);
    SideForest(t.right);
    ForestSizeConcat(l, r);
    ForestBagConcat(l, r);
  }

  /** A child as the forest the traversal enqueues for it: itself if it is a node, nothing if it is null. */
  lemma SideForest(c: Tree)
    ensures var f: seq<NodeRef> := if c.Node? then [c] else [];
      ForestSize(f) == Size(c) && ForestBag(f) == KeyBag(c)
  {
    if c.Node? {
      assert [c][1..] == [];
    }
  }

  /** Stepping to the next level removes exactly the roots. */
  lemma {:induction false} ChildrenSize(f: seq<NodeRef>)
    ensures ForestSize(Children(f)) == ForestSize(f) - |f|
  {
    if f != [] {
      ChildrenSize(f[1..]);
      KidsSizeAndBag(f[0]);
      ForestSizeConcat(Kids(f[0]), Children(f[1..]));
    }
  }

  lemma {:induction false} ChildrenBag(f: seq<NodeRef>)
    ensures ForestBag(Children(f)) + multiset(Roots(f)) == ForestBag(f)
  {
    if f != [] {
      ChildrenBag(f[1..]);
      KidsSizeAndBag(f[0]);
      ForestBagConcat(Kids(f[0]), Children(f[1..]));
    }
  }

  lemma {:induction false} ChildrenAppend(p: seq<NodeRef>, n: NodeRef)
    ensures Children(p + [n]) == Children(p) + Kids(n)
  {
    var q := p + [n];
    if p == [] {
      assert q == [n] && q[1..] == [];
    } else {
      assert q[0] == p[0] && q[1..] == p[1..] + [n];
      assert Children(q) == Kids(p[0]) + Children(p[1..] + [n]);
      ChildrenAppend(p[1..], n);
    }
  }

  /** Level-by-level listing of a forest: its roots, then the next level's listing. */
  function Levels(f: seq<NodeRef>): seq<int>
    decreases ForestSize(f)
  {
    if f == [] then []
    else
      ChildrenSize(f);
      Roots(f) + Levels(Children(f))
  }

  /** The level order of a tree; a null root has none. */
  function LevelOrder(t: Tree): (visits: seq<int>)
    ensures t.Node? ==> visits != [] && visits[0] == t.key
  {
    if t.Nil? then [] else Levels([t])
  }

  /** Every node is visited exactly once. */
  lemma LevelOrderVisitsOnce(t: Tree)
    ensures multiset(LevelOrder(t)) == KeyBag(t)
  {
    if t.Node? {
      LevelsBag([t]);
    }
  }

  lemma {:induction false} LevelsBag(f: seq<NodeRef>)
    ensures multiset(Levels(f)) == ForestBag(f)
    decreases ForestSize(f)
  {
    if f != [] {
      ChildrenSize(f);
      ChildrenBag(f);
      LevelsBag(Children(f));
    }
  }

  /** Removing the front node and enqueueing its children. */
  lemma QueueStep(queue: seq<NodeRef>)
    requires queue != []
    ensures ForestSize(queue[1..] + Kids(queue[0])) == ForestSize(queue) - 1
  {
    ForestSizeConcat(queue[1..], Kids(queue[0]));
    KidsSizeAndBag(queue[0]);
  }

  /** Visiting the front node of the current level moves it from the unvisited
      tail of the level to its visited head, whose children follow in the queue. */
  lemma VisitStep(level: seq<NodeRef>, done: nat, queue: seq<NodeRef>)
    requires done < |level|
    requires queue == level[done..] + Children(level[..done])
    ensures queue != [] && queue[0] == level[done]
    ensures queue[1..] + Kids(level[done]) == level[done + 1..] + Children(level[..done + 1])
    ensures Roots(level[done..]) == [level[done].key] + Roots(level[done + 1..])
  {
    var node := level[done];
    assert level[done..][1..] == level[done + 1..];
    ChildrenAppend(level[..done], node);
    assert level[..done + 1] == level[..done] + [node];
    assert queue[1..] == level[done + 1..] + Children(level[..done]);
  }

  /** The loop invariant: the queue holds the unvisited tail `level[done..]` of the
      current level followed by the children of its visited head, and what those
      still owe completes `visits` to the level order of the whole tree. */
  ghost predicate Progress(level: seq<NodeRef>, done: nat, queue: seq<NodeRef>, visits: seq<int>, all: seq<int>)
  {
    && done <= |level|
    && queue == level[done..] + Children(level[..done])
    && visits + (Roots(level[done..]) + Levels(Children(level))) == all
  }

  /** When the current level is exhausted the queue holds exactly the next level,
      which becomes the current one. */
  lemma NextLevel(level: seq<NodeRef>, queue: seq<NodeRef>, visits: seq<int>, all: seq<int>)
    requires Progress(level, |level|, queue, visits, all)
    ensures Progress(Children(level), 0, queue, visits, all)
  {
    assert level[..|level|] == level;
    assert level[|level|..] == [];
    var next := Children(level);
    assert next[..0] == [];
    assert next[0..] == next;
    assert Roots(level[|level|..]) == [];
    assert Roots(level[|level|..]) + Levels(next) == Levels(next);
    if next != [] {
      assert Levels(next) == Roots(next) + Levels(Children(next));
    }
  }

  /** The queue starts with the root, the whole first level. */
  lemma Start(root: NodeRef)
    ensures Progress([root], 0, [root], [], LevelOrder(root))
  {
    assert [root][0..] == [root] && [root][..0] == [];
    var rest := Levels(Children([root]));
    assert Levels([root]) == Roots([root]) + rest;
    assert [] + (Roots([root]) + rest) == Roots([root]) + rest;
  }

  /** An empty queue means that every level has been visited. */
  lemma Finish(level: seq<NodeRef>, done: nat, visits: seq<int>, all: seq<int>)
    requires Progress(level, done, [], visits, all)
    ensures visits == all
  {
    assert level[done..] == [];
    assert level[..done] == level;
    assert Roots(level[done..]) == [];
    assert Children(level) == [];
    assert Levels(Children(level)) == [];
    assert visits + ([] + []) == visits;
  }

  /** Visiting the queue's front node keeps the invariant. */
  lemma Visit(level: seq<NodeRef>, done: nat, queue: seq<NodeRef>, visits: seq<int>, all: seq<int>)
    requires Progress(level, done, queue, visits, all) && done < |level|
    ensures queue != [] && queue[0] == level[done]
    ensures Progress(level, done + 1, queue[1..] + Kids(queue[0]), visits + [queue[0].key], all)
  {
    VisitStep(level, done, queue);
    Regroup(visits, level[done].key, Roots(level[done + 1..]), Levels(Children(level)));
  }

  lemma Regroup(v: seq<int>, k: int, a: seq<int>, rest: seq<int>)
    ensures v + ([k] + a + rest) == (v + [k]) + (a + rest)
  {
  }

  /** Queue-based traversal; `visits` is the sequence of `visit()` calls. */
  method Traverse(root: Tree) returns (visits: seq<int>)
    ensures visits == LevelOrder(root)
  {
    visits := [];
    if root.Nil? {
      return;
    }
    var queue: seq<NodeRef> := [root];
    ghost var level: seq<NodeRef> := [root];
    ghost var done: nat := 0;
    Start(root);
    while queue != []
      invariant Progress(level, done, queue, visits, LevelOrder(root))
      decreases ForestSize(queue)
    {
      if done == |level| {
        NextLevel(level, queue, visits, LevelOrder(root));
        level, done := Children(level), 0;
      }
      Visit(level, done, queue, visits, LevelOrder(root));
      QueueStep(queue);
      var node := queue[0];
      ghost var next := queue[1..] + Kids(node);
      queue := queue[1..];
      if node.left.Node? {
        queue := queue + [node.left];
      }
      if node.right.Node? {
        queue := queue + [node.right];
      }
      assert queue == next;
      visits := visits + [node.key];
      done := done + 1;
    }
    Finish(level, done, visits, LevelOrder(root));
  }
}
