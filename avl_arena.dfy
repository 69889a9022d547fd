/** The AVL tree's nodes as arena slots: the shape fields live in the
    slots of `BstArena`, the `height` field of each node in a map with the
    same slots. `Cached` says the stored heights are the true heights of
    the subtrees, and the lemmas here say what the two rotations do to the
    links and to the heights. */
module AvlArena {
  import opened BinaryTree
  import opened TreePath
  import opened BstArena
  import opened AvlSpec

  /** Every node of `t`, spelled out from `r`, stores the height of its
      own subtree. */
  ghost predicate Cached(a: map<Ref, Slot>, h: map<Ref, int>, r: Ref, t: Tree)
    decreases t
  {
    match t
    case Nil => true
    case Node(l, _, rt) =>
      r in a && r in h && h[r] == Height(t) && Cached(a, h, a[r].left, l) && Cached(a, h, a[r].right, rt)
  }

  /** Both subtrees of the node at `x` store their heights; the node's own
      height may be stale. */
  ghost predicate CachedBelow(a: map<Ref, Slot>, h: map<Ref, int>, x: Ref, t: Tree)
  {
    t.Node? && x in a && Cached(a, h, a[x].left, t.left) && Cached(a, h, a[x].right, t.right)
  }

  /** A node storing its heights has both subtrees storing theirs. */
  lemma CachedSplit(a: map<Ref, Slot>, h: map<Ref, int>, x: Ref, t: Tree)
    requires Cached(a, h, x, t) && t.Node?
    ensures CachedBelow(a, h, x, t) && x in h && h[x] == Height(t)
  {
  }

  /** A held tree whose slots and heights did not change still holds, over
      the same slots, with its heights stored. */
  lemma {:induction false} CachedFrame(a: map<Ref, Slot>, h: map<Ref, int>, b: map<Ref, Slot>, g: map<Ref, int>, r: Ref, t: Tree)
    requires Holds(a, r, t) && Cached(a, h, r, t)
    requires forall q :: q in Refs(a, r, t) ==> q in a && q in b && b[q] == a[q] && (q in h ==> q in g && g[q] == h[q])
    ensures Holds(b, r, t) && Refs(b, r, t) == Refs(a, r, t) && Cached(b, g, r, t)
    decreases t
  {
    match t
    case Nil =>
    case Node(l, _, rt) =>
      CachedFrame(a, h, b, g, a[r].left, l);
      CachedFrame(a, h, b, g, a[r].right, rt);
  }

  /** A stored height is the true one: null for the empty tree, otherwise
      a slot whose stored height is the tree's. */
  lemma CachedHeight(a: map<Ref, Slot>, h: map<Ref, int>, x: Ref, t: Tree)
    requires Holds(a, x, t) && Cached(a, h, x, t)
    ensures x == Null <==> t.Nil?
    ensures t.Node? ==> x in h && h[x] == Height(t)
  {
  }

  /** Storing the true height at a node whose subtrees store theirs makes
      the whole subtree store its heights. */
  lemma CachedUp(a: map<Ref, Slot>, h: map<Ref, int>, x: Ref, t: Tree)
    requires Holds(a, x, t) && CachedBelow(a, h, x, t)
    ensures Cached(a, h[x := Height(t)], x, t)
  {
    var g := h[x := Height(t)];
    RefsInside(a, a[x].left, t.left);
    RefsInside(a, a[x].right, t.right);
    CachedFrame(a, h, a, g, a[x].left, t.left);
    CachedFrame(a, h, a, g, a[x].right, t.right);
  }

  /** The links after `rightRotate` on `x`: its left child `y` takes `x`
      as right child, and `x` adopts `y`'s old right child. */
  function RightLinks(a: map<Ref, Slot>, x: Ref): map<Ref, Slot>
    requires x in a && a[x].left in a
  {
    var y := a[x].left;
    a[y := a[y].(right := x)][x := a[x].(left := a[y].right)]
  }

  /** The links after `leftRotate` on `x`, the mirror image. */
  function LeftLinks(a: map<Ref, Slot>, x: Ref): map<Ref, Slot>
    requires x in a && a[x].right in a
  {
    var y := a[x].right;
    a[y := a[y].(left := x)][x := a[x].(right := a[y].left)]
  }

  /** After the right-rotation links and the two height updates, the
      former left child holds the rotated tree over the same slots, with
      every height stored, as long as the three subtrees that move as a
      whole had theirs. */
  lemma RightRotation(a: map<Ref, Slot>, h: map<Ref, int>, x: Ref, t: Tree)
    requires Holds(a, x, t) && t.Node? && t.left.Node?
    requires CachedBelow(a, h, a[x].left, t.left) && Cached(a, h, a[x].right, t.right)
    ensures var y := a[x].left;
      var g := h[x := Height(Node(t.left.right, t.key, t.right))][y := Height(RotateRight(t))];
      Holds(RightLinks(a, x), y, RotateRight(t)) && Cached(RightLinks(a, x), g, y, RotateRight(t)) &&
      Refs(RightLinks(a, x), y, RotateRight(t)) == Refs(a, x, t)
    ensures RightLinks(a, x).Keys == a.Keys
    ensures forall q :: q in a && q !in Refs(a, x, t) ==> q != x && q != a[x].left && RightLinks(a, x)[q] == a[q]
  {
    var y := a[x].left;
    var p, q, c := a[y].left, a[y].right, a[x].right;
    var b := RightLinks(a, x);
    var g := h[x := Height(Node(t.left.right, t.key, t.right))][y := Height(RotateRight(t))];
    var P, Q, C := Refs(a, p, t.left.left), Refs(a, q, t.left.right), Refs(a, c, t.right);
    assert Refs(a, x, t) == {x} + ({y} + P + Q) + C;
    assert b.Keys == a.Keys && forall r :: r in a && r != x && r != y ==> b[r] == a[r];
    assert Holds(b, p, t.left.left) && Cached(b, g, p, t.left.left) && Refs(b, p, t.left.left) == Refs(a, p, t.left.left) by {
      RefsInside(a, p, t.left.left);
      CachedFrame(a, h, b, g, p, t.left.left);
    }
    assert Holds(b, q, t.left.right) && Cached(b, g, q, t.left.right) && Refs(b, q, t.left.right) == Refs(a, q, t.left.right) by {
      RefsInside(a, q, t.left.right);
      CachedFrame(a, h, b, g, q, t.left.right);
    }
    assert Holds(b, c, t.right) && Cached(b, g, c, t.right) && Refs(b, c, t.right) == Refs(a, c, t.right) by {
      RefsInside(a, c, t.right);
      CachedFrame(a, h, b, g, c, t.right);
    }
    Join(b, x, t.left.right, t.right);
    Join(b, y, t.left.left, Node(t.left.right, t.key, t.right));
  }

  /** The mirror image of `RightRotation`. */
  lemma LeftRotation(a: map<Ref, Slot>, h: map<Ref, int>, x: Ref, t: Tree)
    requires Holds(a, x, t) && t.Node? && t.right.Node?
    requires Cached(a, h, a[x].left, t.left) && CachedBelow(a, h, a[x].right, t.right)
    ensures var y := a[x].right;
      var g := h[x := Height(Node(t.left, t.key, t.right.left))][y := Height(RotateLeft(t))];
      Holds(LeftLinks(a, x), y, RotateLeft(t)) && Cached(LeftLinks(a, x), g, y, RotateLeft(t)) &&
      Refs(LeftLinks(a, x), y, RotateLeft(t)) == Refs(a, x, t)
    ensures LeftLinks(a, x).Keys == a.Keys
    ensures forall q :: q in a && q !in Refs(a, x, t) ==> q != x && q != a[x].right && LeftLinks(a, x)[q] == a[q]
  {
    var y := a[x].right;
    var p, q, c := a[x].left, a[y].left, a[y].right;
    var b := LeftLinks(a, x);
    var g := h[x := Height(Node(t.left, t.key, t.right.left))][y := Height(RotateLeft(t))];
    var P, Q, C := Refs(a, p, t.left), Refs(a, q, t.right.left), Refs(a, c, t.right.right);
    assert Refs(a, x, t) == {x} + P + ({y} + Q + C);
    assert b.Keys == a.Keys && forall r :: r in a && r != x && r != y ==> b[r] == a[r];
    assert Holds(b, p, t.left) && Cached(b, g, p, t.left) && Refs(b, p, t.left) == Refs(a, p, t.left) by {
      RefsInside(a, p, t.left);
      CachedFrame(a, h, b, g, p, t.left);
    }
    assert Holds(b, q, t.right.left) && Cached(b, g, q, t.right.left) && Refs(b, q, t.right.left) == Refs(a, q, t.right.left) by {
      RefsInside(a, q, t.right.left);
      CachedFrame(a, h, b, g, q, t.right.left);
    }
    assert Holds(b, c, t.right.right) && Cached(b, g, c, t.right.right) && Refs(b, c, t.right.right) == Refs(a, c, t.right.right) by {
      RefsInside(a, c, t.right.right);
      CachedFrame(a, h, b, g, c, t.right.right);
    }
    Join(b, x, t.left, t.right.left);
    Join(b, y, Node(t.left, t.key, t.right.left), t.right.right);
  }

  /** Pointing one link of `p` at `y`, which holds `u` with its heights
      stored over slots of the old subtree on that side or new ones, keeps
      the heights of both subtrees of `p` stored, provided nothing outside
      the old subtree changed. */
  lemma RelinkCached(a: map<Ref, Slot>, h: map<Ref, int>, b: map<Ref, Slot>, g: map<Ref, int>,
                     p: Ref, s: Tree, d: Turn, y: Ref, u: Tree)
    requires Holds(a, p, s) && s.Node? && Cached(a, h, ChildRef(a, p, !d), Child(s, !d))
    requires Holds(b, y, u) && Cached(b, g, y, u)
    requires forall q :: q in Refs(b, y, u) ==> q in Refs(a, ChildRef(a, p, d), Child(s, d)) || q !in a
    requires forall q :: q in a && q !in Refs(a, ChildRef(a, p, d), Child(s, d)) ==> q in b && b[q] == a[q] && (q in h ==> q in g && g[q] == h[q])
    ensures p in b
    ensures Holds(Link(b, p, d, y), p, WithChild(s, d, u))
    ensures CachedBelow(Link(b, p, d, y), g, p, WithChild(s, d, u))
    ensures Refs(Link(b, p, d, y), p, WithChild(s, d, u)) == {p} + Refs(b, y, u) + Refs(a, ChildRef(a, p, !d), Child(s, !d))
    ensures Refs(a, p, s) == {p} + Refs(a, ChildRef(a, p, d), Child(s, d)) + Refs(a, ChildRef(a, p, !d), Child(s, !d))
  {
    Relink(a, b, p, s, d, y, u);
    RefsInside(b, y, u);
    RefsInside(a, ChildRef(a, p, !d), Child(s, !d));
    var b' := Link(b, p, d, y);
    CachedFrame(b, g, b', g, y, u);
    CachedFrame(a, h, b', g, ChildRef(a, p, !d), Child(s, !d));
  }

  /** The left-right double rotation at `x`: after `x.left = leftRotate(x.left)`
      the node `x` holds the half-rotated tree with the heights its right
      rotation needs, and after that right rotation the former inner
      grandchild holds the rotated tree over the same slots, every height
      stored, and no slot outside the subtree changed. */
  lemma LeftRightRotation(a: map<Ref, Slot>, h: map<Ref, int>, b: map<Ref, Slot>, g: map<Ref, int>, x: Ref, t: Tree)
    requires Holds(a, x, t) && CachedBelow(a, h, x, t) && t.left.Node? && t.left.right.Node?
    requires a[x].left in a && a[a[x].left].right in a
    requires b == LeftLinks(a, a[x].left)[x := LeftLinks(a, a[x].left)[x].(left := a[a[x].left].right)]
    requires g == h[a[x].left := Height(Node(t.left.left, t.left.key, t.left.right.left))][a[a[x].left].right := Height(RotateLeft(t.left))]
    ensures var u := Node(RotateLeft(t.left), t.key, t.right);
      Holds(b, x, u) && CachedBelow(b, g, b[x].left, u.left) && Cached(b, g, b[x].right, u.right) && b.Keys == a.Keys
    ensures var u := Node(RotateLeft(t.left), t.key, t.right);
      var g' := g[x := Height(Node(u.left.right, u.key, u.right))][b[x].left := Height(RotateRight(u))];
      b[x].left in b && Holds(RightLinks(b, x), b[x].left, RotateRight(u)) && Cached(RightLinks(b, x), g', b[x].left, RotateRight(u)) &&
      Refs(RightLinks(b, x), b[x].left, RotateRight(u)) == Refs(a, x, t) && RightLinks(b, x).Keys == a.Keys &&
      forall q :: q in a && q !in Refs(a, x, t) ==> RightLinks(b, x)[q] == a[q] && (q in h ==> g'[q] == h[q])
  {
    LeftRightInner(a, h, b, g, x, t);
    var u := Node(RotateLeft(t.left), t.key, t.right);
    CachedSplit(b, g, b[x].left, u.left);
    RightRotation(b, g, x, u);
  }

  /** The first rotation of `LeftRightRotation` and the relink at `x`: `x` holds
      the intermediate tree over the same slots and nothing outside changed. */
  lemma LeftRightInner(a: map<Ref, Slot>, h: map<Ref, int>, b: map<Ref, Slot>, g: map<Ref, int>, x: Ref, t: Tree)
    requires Holds(a, x, t) && CachedBelow(a, h, x, t) && t.left.Node? && t.left.right.Node?
    requires a[x].left in a && a[a[x].left].right in a
    requires b == LeftLinks(a, a[x].left)[x := LeftLinks(a, a[x].left)[x].(left := a[a[x].left].right)]
    requires g == h[a[x].left := Height(Node(t.left.left, t.left.key, t.left.right.left))][a[a[x].left].right := Height(RotateLeft(t.left))]
    ensures var u := Node(RotateLeft(t.left), t.key, t.right);
      Holds(b, x, u) && CachedBelow(b, g, b[x].left, u.left) && Cached(b, g, b[x].right, u.right) && b.Keys == a.Keys &&
      Refs(b, x, u) == Refs(a, x, t) &&
      forall q :: q in a && q !in Refs(a, x, t) ==> q in b && b[q] == a[q] && (q in h ==> q in g && g[q] == h[q])
  {
    var l := a[x].left;
    RefsInside(a, x, t);
    CachedSplit(a, h, l, t.left);
    CachedSplit(a, h, a[l].right, t.left.right);
    LeftRotation(a, h, l, t.left);
    var u := Node(RotateLeft(t.left), t.key, t.right);
    RelinkCached(a, h, LeftLinks(a, l), g, x, t, GoLeft, a[l].right, RotateLeft(t.left));
    assert b == Link(LeftLinks(a, l), x, GoLeft, a[l].right);
  }

  /** The mirror image of `LeftRightRotation`. */
  lemma RightLeftRotation(a: map<Ref, Slot>, h: map<Ref, int>, b: map<Ref, Slot>, g: map<Ref, int>, x: Ref, t: Tree)
    requires Holds(a, x, t) && CachedBelow(a, h, x, t) && t.right.Node? && t.right.left.Node?
    requires a[x].right in a && a[a[x].right].left in a
    requires b == RightLinks(a, a[x].right)[x := RightLinks(a, a[x].right)[x].(right := a[a[x].right].left)]
    requires g == h[a[x].right := Height(Node(t.right.left.right, t.right.key, t.right.right))][a[a[x].right].left := Height(RotateRight(t.right))]
    ensures var u := Node(t.left, t.key, RotateRight(t.right));
      Holds(b, x, u) && Cached(b, g, b[x].left, u.left) && CachedBelow(b, g, b[x].right, u.right) && b.Keys == a.Keys
    ensures var u := Node(t.left, t.key, RotateRight(t.right));
      var g' := g[x := Height(Node(u.left, u.key, u.right.left))][b[x].right := Height(RotateLeft(u))];
      b[x].right in b && Holds(LeftLinks(b, x), b[x].right, RotateLeft(u)) && Cached(LeftLinks(b, x), g', b[x].right, RotateLeft(u)) &&
      Refs(LeftLinks(b, x), b[x].right, RotateLeft(u)) == Refs(a, x, t) && LeftLinks(b, x).Keys == a.Keys &&
      forall q :: q in a && q !in Refs(a, x, t) ==> LeftLinks(b, x)[q] == a[q] && (q in h ==> g'[q] == h[q])
  {
    RightLeftInner(a, h, b, g, x, t);
    var u := Node(t.left, t.key, RotateRight(t.right));
    CachedSplit(b, g, b[x].right, u.right);
    LeftRotation(b, g, x, u);
  }

  /** The first rotation of `RightLeftRotation` and the relink at `x`: `x` holds
      the intermediate tree over the same slots and nothing outside changed. */
  lemma RightLeftInner(a: map<Ref, Slot>, h: map<Ref, int>, b: map<Ref, Slot>, g: map<Ref, int>, x: Ref, t: Tree)
    requires Holds(a, x, t) && CachedBelow(a, h, x, t) && t.right.Node? && t.right.left.Node?
    requires a[x].right in a && a[a[x].right].left in a
    requires b == RightLinks(a, a[x].right)[x := RightLinks(a, a[x].right)[x].(right := a[a[x].right].left)]
    requires g == h[a[x].right := Height(Node(t.right.left.right, t.right.key, t.right.right))][a[a[x].right].left := Height(RotateRight(t.right))]
    ensures var u := Node(t.left, t.key, RotateRight(t.right));
      Holds(b, x, u) && Cached(b, g, b[x].left, u.left) && CachedBelow(b, g, b[x].right, u.right) && b.Keys == a.Keys &&
      Refs(b, x, u) == Refs(a, x, t) &&
      forall q :: q in a && q !in Refs(a, x, t) ==> q in b && b[q] == a[q] && (q in h ==> q in g && g[q] == h[q])
  {
    var r := a[x].right;
    RefsInside(a, x, t);
    CachedSplit(a, h, r, t.right);
    CachedSplit(a, h, a[r].left, t.right.left);
    RightRotation(a, h, r, t.right);
    var u := Node(t.left, t.key, RotateRight(t.right));
    RelinkCached(a, h, RightLinks(a, r), g, x, t, GoRight, a[r].left, RotateRight(t.right));
    assert b == Link(RightLinks(a, r), x, GoRight, a[r].left);
  }
}
