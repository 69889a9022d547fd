/** The deletion of the red-black tree as steps on tree values: taking
    out a node with at most one child, the extra black its removal leaves
    on the node `current` that takes its place, the invariant the loop of
    `fixDelete` keeps about that extra black, and what each of its four
    cases does around the parent of `current`. */
module RbDeleteSpec {
  import BinaryTree
  import TreePath
  import BstUtils
  import BstSpec
  import opened RbSpec

  /** `t` with the node at `p` carrying an extra black: every path
      through it meets one black node more. */
  function Raised(t: RbTree, p: seq<Turn>): RbTree
    requires ValidPath(t, p)
  {
    ReplaceAt(t, p, Raise(SubAt(t, p)))
  }

  /** The state `fixDelete` keeps between rounds, `current` being the
      node (or the sentinel) at `p`: counting the extra black on
      `current`, every path meets as many black nodes; the only red-red
      link may be the one from `current` to its parent (painting
      `current` black removes it); and the root is black unless
      `current` is the root. */
  ghost predicate DeleteInvariant(t: RbTree, p: seq<Turn>)
  {
    ValidPath(t, p) && BlackBalanced(Raised(t, p)) && RedOk(PaintAt(t, p, true)) &&
    (p == [] || !IsRed(t))
  }

  /** Before cases 2 to 4 of `fixDelete`: `current` at `p`, black and
      below its parent, has a black node as its sibling. */
  ghost predicate BlackSibling(t: RbTree, p: seq<Turn>)
  {
    p != [] && ValidPath(t, p) && !IsRed(SubAt(t, p)) &&
    ValidPath(t, p[..|p| - 1]) && SubAt(t, p[..|p| - 1]).Branch? &&
    Child(SubAt(t, p[..|p| - 1]), !p[|p| - 1]).Branch? && !IsRed(Child(SubAt(t, p[..|p| - 1]), !p[|p| - 1]))
  }

  /** `transferColor(parent, sibling)`, `setBlack` on the parent and on
      the far child of the sibling: the colours case 4 gives before its
      rotation, for `current` on side `d` of `g`. */
  function Case4Paint(g: RbTree, d: Turn): RbTree
    requires g.Branch? && Child(g, !d).Branch?
  {
    var w := Child(g, !d);
    WithChild(g.(black := true), !d, WithChild(w.(black := g.black), !d, Paint(Child(w, !d), true)))
  }

  /** Below the root, `current` on side `d` of its parent has a sibling
      that is a node (its side has a black node more than `current`
      has), and the extra black sits inside the parent's subtree. */
  lemma DeleteLocal(t: RbTree, p: seq<Turn>)
    requires DeleteInvariant(t, p) && p != []
    ensures var pp, d := p[..|p| - 1], p[|p| - 1];
      p == pp + [d] && ValidPath(t, pp) && SubAt(t, pp).Branch? &&
      var g := SubAt(t, pp);
      SubAt(t, p) == Child(g, d) && Child(g, !d).Branch? &&
      BlackBalanced(Child(g, d)) && BlackBalanced(Child(g, !d)) &&
      BlackHeight(Child(g, !d)) == BlackHeight(Child(g, d)) + 1 &&
      Raised(t, p) == ReplaceAt(t, pp, WithChild(g, d, Raise(Child(g, d))))
  {
    var pp, d := p[..|p| - 1], p[|p| - 1];
    assert p == pp + [d];
    var g := SubAt(t, pp);
    var x := Child(g, d);
    var gr := WithChild(g, d, Raise(x));
    Extend(t, pp, d, Raise(x));
    ReplaceTwice(t, pp, gr, gr);
    SubBalanced(ReplaceAt(t, pp, gr), pp);
    assert BlackBalanced(gr);
    if d {
      assert gr.left == Raise(x) && gr.right == Child(g, !d);
    } else {
      assert gr.right == Raise(x) && gr.left == Child(g, !d);
    }
  }

  /** A node with at most one child, the sentinel `left` or `right`, is
      replaced by its other child. When it was red nothing else is
      needed; when it was black, that child starts `fixDelete` in its
      invariant. */
  lemma RemoveStart(t: RbTree, q: seq<Turn>)
    requires IsRedBlack(t) && ValidPath(t, q) && SubAt(t, q).Branch?
    requires SubAt(t, q).left == Leaf || SubAt(t, q).right == Leaf
    ensures var z := SubAt(t, q);
      var r := if z.left == Leaf then z.right else z.left;
      var t1 := ReplaceAt(t, q, r);
      ValidPath(t1, q) && SubAt(t1, q) == r &&
      (z.black ==> DeleteInvariant(t1, q)) && (!z.black ==> IsRedBlack(t1))
  {
    var z := SubAt(t, q);
    var r := if z.left == Leaf then z.right else z.left;
    var t1 := ReplaceAt(t, q, r);
    ReplaceTwice(t, q, r, Raise(r));
    ReplaceTwice(t, q, r, Paint(r, true));
    ReplaceSame(t, q);
    SubBalanced(t, q);
    SubRedOk(t, q);
    assert BlackBalanced(r) && RedOk(r);
    if z.black {
      BalancedReplace(t, q, z, Raise(r));
      RedReplace(t, q, z, Paint(r, true));
      if q != [] {
        RootBlack(t, q, r);
      }
    } else {
      assert r == Leaf;
      BalancedReplace(t, q, z, r);
      RedReplace(t, q, z, r);
      RootBlack(t, q, r);
    }
  }

  /** The loop of `fixDelete` stops when `current` is the root or red;
      the closing `setBlack` on `current` then leaves a red-black tree. */
  lemma DeleteFinish(t: RbTree, p: seq<Turn>)
    requires DeleteInvariant(t, p) && (p == [] || IsRed(SubAt(t, p)))
    ensures IsRedBlack(PaintAt(t, p, true))
  {
    var x := SubAt(t, p);
    ReplaceTwice(t, p, Raise(x), Paint(x, true));
    SubBalanced(Raised(t, p), p);
    assert BlackBalanced(Raise(x));
    if p != [] {
      BalancedReplace(t, p, Raise(x), Paint(x, true));
      RootBlack(t, p, Paint(x, true));
    }
  }

  /** Case 1 of `fixDelete`, the sibling red: painting it black and the
      parent red and lifting the sibling over the parent leaves
      `current` two levels lower, below its old parent, now red, with
      the old near child of the sibling, a black node, as its sibling. */
  lemma DeleteRedSibling(t: RbTree, p: seq<Turn>)
    requires DeleteInvariant(t, p) && p != [] && !IsRed(SubAt(t, p))
    requires ValidPath(t, p[..|p| - 1]) && SubAt(t, p[..|p| - 1]).Branch?
    requires IsRed(Child(SubAt(t, p[..|p| - 1]), !p[|p| - 1]))
    ensures var pp, d := p[..|p| - 1], p[|p| - 1];
      var t1 := ReplaceAt(t, pp, PaintPair(SubAt(t, pp), !d));
      ValidPath(t1, pp) && SubAt(t1, pp) == PaintPair(SubAt(t, pp), !d) &&
      var t2 := ReplaceAt(t1, pp, Lift(SubAt(t1, pp), !d));
      ValidPath(t2, pp) && DeleteInvariant(t2, pp + [d, d]) && SubAt(t2, pp + [d, d]) == SubAt(t, p) &&
      (pp + [d, d])[..|pp| + 1] == pp + [d] && (pp + [d, d])[|pp| + 1] == d &&
      IsRed(SubAt(t2, pp + [d])) && SubAt(t2, pp + [d]).Branch? &&
      Child(SubAt(t2, pp + [d]), !d).Branch? && !IsRed(Child(SubAt(t2, pp + [d]), !d)) &&
      BlackSibling(t2, pp + [d, d]) &&
      BinaryTree.InOrder(Shape(t2)) == BinaryTree.InOrder(Shape(t))
  {
    var pp, d := p[..|p| - 1], p[|p| - 1];
    DeleteLocal(t, p);
    var g := SubAt(t, pp);
    var x := Child(g, d);
    var m := PaintPair(g, !d);
    var n := Lift(m, !d);
    PaintKeeps(t, p);
    SubRedOk(t, pp);
    RedSiblingLocal(g, d);
    ReplaceTwice(t, pp, m, n);
    var t2 := ReplaceAt(t, pp, n);
    var nr := WithChild(n, d, WithChild(Child(n, d), d, Raise(x)));
    ReplaceTwice(t, pp, n, nr);
    Extend2(t2, pp, d, d, Raise(x));
    assert Raised(t2, pp + [d, d]) == ReplaceAt(t, pp, nr);
    BalancedReplace(t, pp, WithChild(g, d, Raise(x)), nr);
    PaintKeeps(t2, pp + [d, d]);
    ReplaceSame(t, pp);
    RedReplace(t, pp, g, n);
    RootBlack(t, pp, n);
    LiftOrder(m, !d);
    OrderReplace(t, pp, n, g);
  }

  /** The colour arithmetic of case 1 on the parent alone. */
  lemma RedSiblingLocal(g: RbTree, d: Turn)
    requires g.Branch? && RedOk(g) && !IsRed(Child(g, d)) && IsRed(Child(g, !d))
    requires BlackBalanced(Child(g, d)) && BlackBalanced(Child(g, !d))
    requires BlackHeight(Child(g, !d)) == BlackHeight(Child(g, d)) + 1
    ensures var x := Child(g, d);
      var n := Lift(PaintPair(g, !d), !d);
      n.Branch? && !IsRed(n) && RedOk(n) && Child(n, d).Branch? && IsRed(Child(n, d)) &&
      Child(Child(n, d), d) == x && Child(Child(n, d), !d).Branch? && !IsRed(Child(Child(n, d), !d)) &&
      var nr := WithChild(n, d, WithChild(Child(n, d), d, Raise(x)));
      BlackBalanced(nr) && BlackHeight(nr) == BlackHeight(WithChild(g, d, Raise(x))) &&
      BinaryTree.InOrder(Shape(PaintPair(g, !d))) == BinaryTree.InOrder(Shape(g))
  {
    var x, w := Child(g, d), Child(g, !d);
    assert g.black;
    assert RedOk(w) && BlackBalanced(w);
    assert BlackHeight(w.left) == BlackHeight(w.right) == BlackHeight(w);
    if d {
      assert Lift(PaintPair(g, !d), !d) == Branch(true, Branch(false, x, g.key, w.left), w.key, w.right);
    } else {
      assert Lift(PaintPair(g, !d), !d) == Branch(true, w.left, w.key, Branch(false, w.right, g.key, x));
    }
  }

  /** Case 2 of `fixDelete`, the sibling black with black children:
      painting the sibling red moves the extra black up to the parent,
      whose colour stays as it was. */
  lemma DeleteRecolour(t: RbTree, p: seq<Turn>)
    requires DeleteInvariant(t, p) && p != [] && !IsRed(SubAt(t, p))
    requires ValidPath(t, p[..|p| - 1]) && SubAt(t, p[..|p| - 1]).Branch?
    requires Child(SubAt(t, p[..|p| - 1]), !p[|p| - 1]).Branch?
    requires !IsRed(Child(SubAt(t, p[..|p| - 1]), !p[|p| - 1]))
    requires !IsRed(Child(SubAt(t, p[..|p| - 1]), !p[|p| - 1]).left)
    requires !IsRed(Child(SubAt(t, p[..|p| - 1]), !p[|p| - 1]).right)
    ensures var pp, d := p[..|p| - 1], p[|p| - 1];
      ValidPath(t, pp + [!d]) &&
      var t1 := PaintAt(t, pp + [!d], false);
      DeleteInvariant(t1, pp) && IsRed(SubAt(t1, pp)) == IsRed(SubAt(t, pp)) &&
      BinaryTree.InOrder(Shape(t1)) == BinaryTree.InOrder(Shape(t))
  {
    var pp, d := p[..|p| - 1], p[|p| - 1];
    DeleteLocal(t, p);
    var g := SubAt(t, pp);
    var x, w := Child(g, d), Child(g, !d);
    var g1 := WithChild(g, !d, Paint(w, false));
    Extend(t, pp, !d, Paint(w, false));
    var t1 := ReplaceAt(t, pp, g1);
    ReplaceTwice(t, pp, g1, Raise(g1));
    ReplaceTwice(t, pp, g1, Paint(g1, true));
    PaintKeeps(t, p);
    SubRedOk(t, pp);
    RecolourLocal(g, d);
    BalancedReplace(t, pp, WithChild(g, d, Raise(x)), Raise(g1));
    ReplaceSame(t, pp);
    RedReplace(t, pp, g, Paint(g1, true));
    if pp != [] {
      RootKept(t, pp, g1);
    }
    OrderReplace(t, pp, g1, g);
  }

  /** The colour arithmetic of case 2 on the parent alone. */
  lemma RecolourLocal(g: RbTree, d: Turn)
    requires g.Branch? && RedOk(g) && !IsRed(Child(g, d)) && Child(g, !d).Branch? && !IsRed(Child(g, !d))
    requires !IsRed(Child(g, !d).left) && !IsRed(Child(g, !d).right)
    requires BlackBalanced(Child(g, d)) && BlackBalanced(Child(g, !d))
    requires BlackHeight(Child(g, !d)) == BlackHeight(Child(g, d)) + 1
    ensures var g1 := WithChild(g, !d, Paint(Child(g, !d), false));
      BlackBalanced(Raise(g1)) && BlackHeight(Raise(g1)) == BlackHeight(WithChild(g, d, Raise(Child(g, d)))) &&
      RedOk(Paint(g1, true)) && IsRed(g1) == IsRed(g) &&
      BinaryTree.InOrder(Shape(g1)) == BinaryTree.InOrder(Shape(g))
  {
    var x, w := Child(g, d), Child(g, !d);
    assert RedOk(x) && RedOk(w);
    assert BlackHeight(Paint(w, false)) == BlackHeight(x);
  }

  /** Case 3 of `fixDelete`, the sibling black with a red near child and
      a black far child: painting the near child black and the sibling
      red and lifting the near child over the sibling keeps the
      invariant, and leaves a black sibling whose far child is red. */
  lemma DeleteNearRed(t: RbTree, p: seq<Turn>)
    requires DeleteInvariant(t, p) && p != [] && !IsRed(SubAt(t, p))
    requires ValidPath(t, p[..|p| - 1]) && SubAt(t, p[..|p| - 1]).Branch?
    requires Child(SubAt(t, p[..|p| - 1]), !p[|p| - 1]).Branch?
    requires !IsRed(Child(SubAt(t, p[..|p| - 1]), !p[|p| - 1]))
    requires IsRed(Child(Child(SubAt(t, p[..|p| - 1]), !p[|p| - 1]), p[|p| - 1]))
    requires !IsRed(Child(Child(SubAt(t, p[..|p| - 1]), !p[|p| - 1]), !p[|p| - 1]))
    ensures var pp, d := p[..|p| - 1], p[|p| - 1];
      var q := pp + [!d];
      ValidPath(t, q) && SubAt(t, q).Branch? &&
      var t1 := ReplaceAt(t, q, PaintPair(SubAt(t, q), d));
      ValidPath(t1, q) && SubAt(t1, q) == PaintPair(SubAt(t, q), d) &&
      var t2 := ReplaceAt(t1, q, Lift(SubAt(t1, q), d));
      DeleteInvariant(t2, p) && SubAt(t2, p) == SubAt(t, p) &&
      ValidPath(t2, pp) && SubAt(t2, pp).Branch? && Child(SubAt(t2, pp), !d).Branch? &&
      !IsRed(Child(SubAt(t2, pp), !d)) && IsRed(Child(Child(SubAt(t2, pp), !d), !d)) &&
      IsRed(SubAt(t2, pp)) == IsRed(SubAt(t, pp)) && BlackSibling(t2, p) &&
      BinaryTree.InOrder(Shape(t2)) == BinaryTree.InOrder(Shape(t))
  {
    var pp, d := p[..|p| - 1], p[|p| - 1];
    var q := pp + [!d];
    DeleteLocal(t, p);
    var g := SubAt(t, pp);
    var x, w := Child(g, d), Child(g, !d);
    var m := PaintPair(w, d);
    var w1 := Lift(m, d);
    var g1 := WithChild(g, !d, w1);
    Extend(t, pp, !d, m);
    ReplaceTwice(t, pp, WithChild(g, !d, m), WithChild(g, !d, m));
    Extend(ReplaceAt(t, pp, WithChild(g, !d, m)), pp, !d, w1);
    ReplaceTwice(t, pp, WithChild(g, !d, m), g1);
    var t2 := ReplaceAt(t, pp, g1);
    assert t2 == ReplaceAt(ReplaceAt(t, q, m), q, w1);
    PaintKeeps(t, p);
    SubRedOk(t, pp);
    NearRedLocal(g, d);
    ReplaceTwice(t, pp, g1, g1);
    Extend(t2, pp, d, x);
    var gr := WithChild(g1, d, Raise(x));
    Extend(t2, pp, d, Raise(x));
    ReplaceTwice(t, pp, g1, gr);
    assert Raised(t2, p) == ReplaceAt(t, pp, gr);
    BalancedReplace(t, pp, WithChild(g, d, Raise(x)), gr);
    PaintKeeps(t2, p);
    ReplaceSame(t, pp);
    RedReplace(t, pp, g, g1);
    RootBlack(t, pp, g1);
    OrderReplace(t, pp, g1, g);
  }

  /** The colour arithmetic of case 3 on the parent alone. */
  lemma NearRedLocal(g: RbTree, d: Turn)
    requires g.Branch? && RedOk(g) && !IsRed(Child(g, d)) && Child(g, !d).Branch? && !IsRed(Child(g, !d))
    requires IsRed(Child(Child(g, !d), d)) && !IsRed(Child(Child(g, !d), !d))
    requires BlackBalanced(Child(g, d)) && BlackBalanced(Child(g, !d))
    requires BlackHeight(Child(g, !d)) == BlackHeight(Child(g, d)) + 1
    ensures var x, w := Child(g, d), Child(g, !d);
      var w1 := Lift(PaintPair(w, d), d);
      var g1 := WithChild(g, !d, w1);
      w1.Branch? && !IsRed(w1) && IsRed(Child(w1, !d)) && RedOk(g1) && IsRed(g1) == IsRed(g) &&
      Child(g1, d) == x && Child(g1, !d) == w1 &&
      BlackBalanced(WithChild(g1, d, Raise(x))) &&
      BlackHeight(WithChild(g1, d, Raise(x))) == BlackHeight(WithChild(g, d, Raise(x))) &&
      BinaryTree.InOrder(Shape(g1)) == BinaryTree.InOrder(Shape(g))
  {
    var x, w := Child(g, d), Child(g, !d);
    var nr, f := Child(w, d), Child(w, !d);
    assert RedOk(w) && RedOk(nr) && RedOk(x);
    assert BlackBalanced(nr);
    assert BlackHeight(nr.left) == BlackHeight(nr.right) == BlackHeight(nr) == BlackHeight(f);
    var w1 := Lift(PaintPair(w, d), d);
    LiftOrder(PaintPair(w, d), d);
    if d {
      assert w1 == Branch(true, nr.left, nr.key, Branch(false, nr.right, w.key, f));
      assert BlackHeight(w1) == BlackHeight(w);
    } else {
      assert w1 == Branch(true, Branch(false, f, w.key, nr.left), nr.key, nr.right);
      assert BlackHeight(w1) == BlackHeight(w);
    }
    WithChildOrder(g, !d, w1, w);
  }

  /** Replacing a child by one with the keys in the same order keeps the
      node's order. */
  lemma WithChildOrder(g: RbTree, d: Turn, u: RbTree, w: RbTree)
    requires g.Branch? && BinaryTree.InOrder(Shape(u)) == BinaryTree.InOrder(Shape(w))
    ensures BinaryTree.InOrder(Shape(WithChild(g, d, u))) == BinaryTree.InOrder(Shape(WithChild(g, d, w)))
  {
  }

  /** Case 4 of `fixDelete`, the sibling black with a red far child: the
      sibling takes the parent's colour, the parent and the far child turn
      black, and lifting the sibling over the parent absorbs the extra
      black, so the tree is balanced again with the root as `current`. */
  lemma DeleteFarRed(t: RbTree, p: seq<Turn>)
    requires DeleteInvariant(t, p) && p != [] && !IsRed(SubAt(t, p))
    requires ValidPath(t, p[..|p| - 1]) && SubAt(t, p[..|p| - 1]).Branch?
    requires Child(SubAt(t, p[..|p| - 1]), !p[|p| - 1]).Branch?
    requires !IsRed(Child(SubAt(t, p[..|p| - 1]), !p[|p| - 1]))
    requires IsRed(Child(Child(SubAt(t, p[..|p| - 1]), !p[|p| - 1]), !p[|p| - 1]))
    ensures var pp, d := p[..|p| - 1], p[|p| - 1];
      var t1 := ReplaceAt(t, pp, Case4Paint(SubAt(t, pp), d));
      ValidPath(t1, pp) && SubAt(t1, pp) == Case4Paint(SubAt(t, pp), d) &&
      var t2 := ReplaceAt(t1, pp, Lift(SubAt(t1, pp), !d));
      DeleteInvariant(t2, []) &&
      BinaryTree.InOrder(Shape(t2)) == BinaryTree.InOrder(Shape(t))
  {
    var pp, d := p[..|p| - 1], p[|p| - 1];
    DeleteLocal(t, p);
    var g := SubAt(t, pp);
    var m := Case4Paint(g, d);
    var n := Lift(m, !d);
    ReplaceTwice(t, pp, m, n);
    var t2 := ReplaceAt(t, pp, n);
    PaintKeeps(t, p);
    SubRedOk(t, pp);
    FarRedLocal(g, d);
    BalancedReplace(t, pp, WithChild(g, d, Raise(Child(g, d))), n);
    assert Raised(t2, []) == Raise(t2);
    ReplaceSame(t, pp);
    RedReplace(t, pp, g, n);
    if pp != [] {
      RootKept(t, pp, n);
      assert Paint(t2, true) == t2;
    }
    OrderReplace(t, pp, n, g);
  }

  /** The colour arithmetic of case 4 on the parent alone. */
  lemma FarRedLocal(g: RbTree, d: Turn)
    requires g.Branch? && RedOk(g) && !IsRed(Child(g, d)) && Child(g, !d).Branch? && !IsRed(Child(g, !d))
    requires IsRed(Child(Child(g, !d), !d))
    requires BlackBalanced(Child(g, d)) && BlackBalanced(Child(g, !d))
    requires BlackHeight(Child(g, !d)) == BlackHeight(Child(g, d)) + 1
    ensures var n := Lift(Case4Paint(g, d), !d);
      n.Branch? && n.black == g.black && RedOk(n) && RedOk(Paint(n, true)) &&
      BlackBalanced(n) && BlackHeight(n) == BlackHeight(WithChild(g, d, Raise(Child(g, d)))) &&
      BinaryTree.InOrder(Shape(n)) == BinaryTree.InOrder(Shape(g))
  {
    var x, w := Child(g, d), Child(g, !d);
    var nr, f := Child(w, d), Child(w, !d);
    assert RedOk(w) && RedOk(f) && RedOk(x);
    assert BlackBalanced(f);
    assert BlackHeight(f.left) == BlackHeight(f.right) == BlackHeight(f) == BlackHeight(nr) == BlackHeight(x);
    LiftOrder(Case4Paint(g, d), !d);
    assert Shape(Paint(f, true)) == Shape(f);
    if d {
      assert Case4Paint(g, d) == Branch(true, x, g.key, Branch(g.black, nr, w.key, Paint(f, true)));
      assert Shape(Case4Paint(g, d)) ==
        BinaryTree.Node(Shape(x), g.key, BinaryTree.Node(Shape(nr), w.key, Shape(f))) == Shape(g);
      assert Lift(Case4Paint(g, d), !d) == Branch(g.black, Branch(true, x, g.key, nr), w.key, Paint(f, true));
    } else {
      assert Case4Paint(g, d) == Branch(true, Branch(g.black, Paint(f, true), w.key, nr), g.key, x);
      assert Shape(Case4Paint(g, d)) ==
        BinaryTree.Node(BinaryTree.Node(Shape(f), w.key, Shape(nr)), g.key, Shape(x)) == Shape(g);
      assert Lift(Case4Paint(g, d), !d) == Branch(g.black, Paint(f, true), w.key, Branch(true, nr, g.key, x));
    }
  }

  /** `transferColor(parent, sibling)`, then `setBlack` on the parent and
      on the far child of the sibling, is the replacement of the parent
      by `Case4Paint`. */
  lemma Case4PaintAt(t: RbTree, pp: seq<Turn>, d: Turn)
    requires ValidPath(t, pp) && SubAt(t, pp).Branch? && Child(SubAt(t, pp), !d).Branch?
    ensures ValidPath(t, pp + [!d]) &&
      var t1 := PaintAt(t, pp + [!d], SubAt(t, pp).black);
      ValidPath(t1, pp) &&
      var t2 := PaintAt(t1, pp, true);
      ValidPath(t2, pp + [!d, !d]) &&
      PaintAt(t2, pp + [!d, !d], true) == ReplaceAt(t, pp, Case4Paint(SubAt(t, pp), d))
  {
    var g := SubAt(t, pp);
    var w := Child(g, !d);
    var g1 := WithChild(g, !d, Paint(w, g.black));
    var g2 := Paint(g1, true);
    Extend(t, pp, !d, Paint(w, g.black));
    ReplaceTwice(t, pp, g1, g2);
    var t2 := ReplaceAt(t, pp, g2);
    ReplaceTwice(t, pp, g2, Case4Paint(g, d));
    Extend2(t2, pp, !d, !d, Paint(Child(w, !d), true));
    assert WithChild(g2, !d, WithChild(Child(g2, !d), !d, Paint(Child(w, !d), true))) == Case4Paint(g, d);
  }

  /** Setting the key of the node at `q` keeps every colour rule and the
      invariant of `fixDelete`: the successor taking the place of the
      deleted node only changes a key there. */
  lemma RekeyKeeps(t: RbTree, q: seq<Turn>, k: int, p: seq<Turn>)
    requires ValidPath(t, q) && SubAt(t, q).Branch?
    ensures var t1 := ReplaceAt(t, q, SubAt(t, q).(key := k));
      (IsRedBlack(t1) <==> IsRedBlack(t)) && (DeleteInvariant(t1, p) <==> DeleteInvariant(t, p))
  {
    var z := SubAt(t, q);
    var t1 := ReplaceAt(t, q, z.(key := k));
    ErasePath(t, q, z.(key := k));
    ErasePath(t, q, z);
    ReplaceSame(t, q);
    assert Erase(z.(key := k)) == Erase(z);
    assert Erase(t1) == Erase(t);
    EraseColours(t);
    EraseColours(t1);
    ErasePath(t, p, Raise(Leaf));
    ErasePath(t1, p, Raise(Leaf));
    if ValidPath(t, p) {
      var x, x1 := SubAt(t, p), SubAt(t1, p);
      assert Erase(x1) == Erase(x);
      ErasePath(t, p, Raise(x));
      ErasePath(t1, p, Raise(x1));
      ErasePath(t, p, Paint(x, true));
      ErasePath(t1, p, Paint(x1, true));
      assert Erase(Raise(x1)) == Erase(Raise(x));
      assert Erase(Paint(x1, true)) == Erase(Paint(x, true));
      EraseColours(Raised(t, p));
      EraseColours(Raised(t1, p));
      EraseColours(PaintAt(t, p, true));
      EraseColours(PaintAt(t1, p, true));
    }
  }

  /** The successor loop of `delete` descends from the right child of
      the node to delete, always to the left, to a node without a left
      child: that node holds the smallest key below where it started, and
      putting its right subtree in its place takes exactly that key out. */
  lemma {:induction false} LeftSpine(r: RbTree, ys: seq<Turn>)
    requires r.Branch? && ValidPath(r, ys) && SubAt(r, ys).Branch?
    requires forall i :: 0 <= i < |ys| ==> ys[i] == GoLeft
    ensures TreePath.ValidPath(Shape(r), ys)
    ensures BstUtils.Leftmost(Shape(SubAt(r, ys))) == BstUtils.Leftmost(Shape(r))
    ensures TreePath.ReplaceAt(Shape(r), ys, BstSpec.RemoveLeftmost(Shape(SubAt(r, ys)))) ==
      BstSpec.RemoveLeftmost(Shape(r))
    decreases |ys|
  {
    ShapeAt(r, ys, Leaf);
    if ys != [] {
      var up := ys[..|ys| - 1];
      assert ys == up + [GoLeft];
      LeftSpine(r, up);
      ShapeAt(r, up, Leaf);
      TreePath.Extend(Shape(r), up, GoLeft, BstSpec.RemoveLeftmost(Shape(SubAt(r, ys))));
    }
  }

  /** The two-children case of `delete`: the successor `y`, at `ys` below
      the right child of the node `z` at `pz`, is replaced by its right
      subtree and then takes the place of `z` with `z`'s colour. As a tree
      value that is putting `y`'s right subtree at `y`'s place and then
      writing `y`'s key into `z`; if `y` was black the extra black sits on
      what took its place, otherwise the tree is still red-black. */
  lemma SuccessorSplice(t: RbTree, pz: seq<Turn>, ys: seq<Turn>)
    requires IsRedBlack(t) && ValidPath(t, pz) && SubAt(t, pz).Branch? && SubAt(t, pz).right.Branch?
    requires ValidPath(SubAt(t, pz).right, ys) && SubAt(SubAt(t, pz).right, ys).Branch?
    requires SubAt(SubAt(t, pz).right, ys).left == Leaf
    ensures var zt := SubAt(t, pz); var y := SubAt(zt.right, ys); var yq := pz + [GoRight] + ys;
      var t' := ReplaceAt(t, pz, Branch(zt.black, zt.left, y.key, ReplaceAt(zt.right, ys, y.right)));
      ValidPath(t, yq) && SubAt(t, yq) == y && ValidPath(t', yq) && SubAt(t', yq) == y.right &&
      (y.black ==> DeleteInvariant(t', yq)) && (!y.black ==> IsRedBlack(t'))
  {
    var zt := SubAt(t, pz);
    var y := SubAt(zt.right, ys);
    var q := pz + [GoRight];
    var yq := q + ys;
    var rr := ReplaceAt(zt.right, ys, y.right);
    var w := Branch(zt.black, zt.left, zt.key, rr);
    var t' := ReplaceAt(t, pz, w.(key := y.key));
    Extend(t, pz, GoRight, rr);
    PathConcat(t, q, ys, y.right);
    RemoveStart(t, yq);
    var t1 := ReplaceAt(t, yq, y.right);
    assert t1 == ReplaceAt(t, pz, w);
    ReplaceTwice(t, pz, w, w.(key := y.key));
    RekeyKeeps(t1, pz, y.key, yq);
    ReplaceTwice(t, pz, w.(key := y.key), Leaf);
    ReplaceTwice(zt.right, ys, y.right, y.right);
    Extend(t', pz, GoRight, Leaf);
    PathConcat(t', q, ys, Leaf);
  }

  /** The tree `SuccessorSplice` leaves is the binary search tree without
      the key of the node at `pz`. */
  lemma SuccessorShape(t: RbTree, pz: seq<Turn>, ys: seq<Turn>)
    requires BinaryTree.IsBst(Shape(t)) && ValidPath(t, pz) && SubAt(t, pz).Branch?
    requires SubAt(t, pz).left.Branch? && SubAt(t, pz).right.Branch?
    requires ValidPath(SubAt(t, pz).right, ys) && SubAt(SubAt(t, pz).right, ys).Branch?
    requires SubAt(SubAt(t, pz).right, ys).left == Leaf
    requires forall i :: 0 <= i < |ys| ==> ys[i] == GoLeft
    ensures var zt := SubAt(t, pz); var y := SubAt(zt.right, ys);
      var t' := ReplaceAt(t, pz, Branch(zt.black, zt.left, y.key, ReplaceAt(zt.right, ys, y.right)));
      TreePath.ValidPath(Shape(t), pz) &&
      Shape(t') == TreePath.ReplaceAt(Shape(t), pz, BstSpec.Delete(Shape(zt), zt.key))
  {
    var zt := SubAt(t, pz);
    var y := SubAt(zt.right, ys);
    var rr := ReplaceAt(zt.right, ys, y.right);
    ShapeAt(t, pz, Branch(zt.black, zt.left, y.key, rr));
    TreePath.SubAtBst(Shape(t), pz);
    ShapeAt(zt.right, ys, y.right);
    LeftSpine(zt.right, ys);
    BstSpec.DeleteLeftmost(Shape(zt.right));
  }
}
