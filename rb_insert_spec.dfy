/** The insertion fix-up of the red-black tree, `fixInsert`, as steps
    on tree values: the invariant its loop keeps and what each of its
    cases does to the subtree at the grandparent. */
module RbInsertSpec {
  import BinaryTree
  import opened RbSpec

  /** Inherited colours of case 1 of `fixInsert`: the parent and the
      uncle turn black and the grandparent `g` turns red. */
  function Recoloured(g: RbTree): RbTree
    requires g.Branch?
  {
    Branch(false, Paint(g.left, true), g.key, Paint(g.right, true))
  }

  /** The state `fixInsert` keeps between rounds, `current` being the red
      node at `p`: its children are black, every path meets as many black
      nodes, the only red-red link may be the one from `current` to its
      parent (painting `current` black removes it), and the root is black
      unless `current` is the root. */
  ghost predicate InsertInvariant(t: RbTree, p: seq<Turn>)
  {
    ValidPath(t, p) && IsRed(SubAt(t, p)) &&
    !IsRed(SubAt(t, p).left) && !IsRed(SubAt(t, p).right) &&
    BlackBalanced(t) && RedOk(PaintAt(t, p, true)) && (p == [] || !IsRed(t))
  }

  /** A red node put where a red-black tree has the sentinel starts
      `fixInsert` in its invariant. */
  lemma InsertStart(t: RbTree, p: seq<Turn>, key: int)
    requires IsRedBlack(t) && ValidPath(t, p) && SubAt(t, p) == Leaf
    ensures InsertInvariant(ReplaceAt(t, p, Branch(false, Leaf, key, Leaf)), p)
  {
    var n := Branch(false, Leaf, key, Leaf);
    ReplaceTwice(t, p, n, Paint(n, true));
    ReplaceSame(t, p);
    BalancedReplace(t, p, Leaf, n);
    RedReplace(t, p, Leaf, Paint(n, true));
    if p != [] {
      RootKept(t, p, n);
    }
  }

  /** When the loop of `fixInsert` stops, because the parent of
      `current` is black or `current` is the root, painting the root
      black leaves a red-black tree. */
  lemma InsertFinish(t: RbTree, p: seq<Turn>)
    requires InsertInvariant(t, p)
    requires p == [] || !IsRed(SubAt(t, p[..|p| - 1]))
    ensures IsRedBlack(Paint(t, true))
  {
    if p != [] {
      var up := p[..|p| - 1];
      var d := p[|p| - 1];
      var s := SubAt(t, up);
      var z := SubAt(t, p);
      assert p == up + [d];
      Extend(t, up, d, Paint(z, true));
      var w := WithChild(s, d, Paint(z, true));
      ReplaceTwice(t, up, w, w);
      SubRedOk(ReplaceAt(t, up, w), up);
      assert RedOk(s);
      RedReplace(t, up, w, s);
      ReplaceSame(t, up);
    }
  }

  /** Case 1 of `fixInsert` at the grandparent `g` at `gp`, the parent
      on side `d1` and `current` below it on side `d2`: recolouring keeps
      each path's black count and leaves at most the link from `g` to its
      parent red-red, so `g` carries the invariant on. */
  lemma InsertRecolour(t: RbTree, gp: seq<Turn>, d1: Turn, d2: Turn)
    requires ValidPath(t, gp) && SubAt(t, gp).Branch? && Child(SubAt(t, gp), d1).Branch?
    requires InsertInvariant(t, gp + [d1, d2])
    requires IsRed(Child(SubAt(t, gp), d1)) && IsRed(Child(SubAt(t, gp), !d1))
    ensures InsertInvariant(ReplaceAt(t, gp, Recoloured(SubAt(t, gp))), gp)
    ensures Shape(ReplaceAt(t, gp, Recoloured(SubAt(t, gp)))) == Shape(t)
  {
    var g := SubAt(t, gp);
    var p := Child(g, d1);
    var z := Child(p, d2);
    var gz := WithChild(g, d1, WithChild(p, d2, Paint(z, true)));
    var n := Recoloured(g);
    Extend2(t, gp, d1, d2, Paint(z, true));
    ReplaceTwice(t, gp, gz, gz);
    SubRedOk(ReplaceAt(t, gp, gz), gp);
    SubBalanced(t, gp);
    RecolourLocal(g, d1, d2);
    ReplaceTwice(t, gp, n, Paint(n, true));
    ReplaceSame(t, gp);
    BalancedReplace(t, gp, g, n);
    RedReplace(t, gp, gz, Paint(n, true));
    if gp != [] {
      RootKept(t, gp, n);
    }
    ShapeAt(t, gp, n);
    ShapeAt(t, gp, g);
  }

  /** The colour arithmetic of case 1 on the grandparent alone. */
  lemma RecolourLocal(g: RbTree, d1: Turn, d2: Turn)
    requires g.Branch? && IsRed(Child(g, d1)) && IsRed(Child(g, !d1))
    requires IsRed(Child(Child(g, d1), d2))
    requires !IsRed(Child(Child(g, d1), d2).left) && !IsRed(Child(Child(g, d1), d2).right)
    requires BlackBalanced(g)
    requires RedOk(WithChild(g, d1, WithChild(Child(g, d1), d2, Paint(Child(Child(g, d1), d2), true))))
    ensures BlackBalanced(Recoloured(g)) && BlackHeight(Recoloured(g)) == BlackHeight(g)
    ensures RedOk(Paint(Recoloured(g), true)) && Shape(Recoloured(g)) == Shape(g)
  {
    var p, u := Child(g, d1), Child(g, !d1);
    var z := Child(p, d2);
    var pz := WithChild(p, d2, Paint(z, true));
    assert RedOk(pz) && RedOk(u) && IsRed(pz) by {
      if d1 {
        assert WithChild(g, d1, pz).left == pz;
      } else {
        assert WithChild(g, d1, pz).right == pz;
      }
    }
    assert g.black;
    assert RedOk(Paint(z, true)) && RedOk(Child(p, !d2)) && !IsRed(Child(p, !d2)) by {
      if d2 {
        assert pz.left == Paint(z, true) && pz.right == p.right;
      } else {
        assert pz.right == Paint(z, true) && pz.left == p.left;
      }
    }
    assert RedOk(z) && RedOk(Paint(p, true));
    assert RedOk(Paint(u, true));
  }

  /** Case 1's three writes, `setBlack` on the uncle on side `!d1` and
      on the parent on side `d1`, then `setRed` on the grandparent at
      `gp`, replace the grandparent's subtree by `Recoloured`. */
  lemma RecolourAt(t: RbTree, gp: seq<Turn>, d1: Turn)
    requires ValidPath(t, gp) && SubAt(t, gp).Branch?
    requires Child(SubAt(t, gp), d1).Branch? && Child(SubAt(t, gp), !d1).Branch?
    ensures ValidPath(t, gp + [!d1])
    ensures var t1 := PaintAt(t, gp + [!d1], true);
      ValidPath(t1, gp + [d1]) &&
      var t2 := PaintAt(t1, gp + [d1], true);
      ValidPath(t2, gp) && SubAt(t2, gp).Branch? &&
      PaintAt(t2, gp, false) == ReplaceAt(t, gp, Recoloured(SubAt(t, gp)))
  {
    var g := SubAt(t, gp);
    var g1 := WithChild(g, !d1, Paint(Child(g, !d1), true));
    Extend(t, gp, !d1, Paint(Child(g, !d1), true));
    var t1 := ReplaceAt(t, gp, g1);
    ReplaceTwice(t, gp, g1, g1);
    var g2 := WithChild(g1, d1, Paint(Child(g1, d1), true));
    Extend(t1, gp, d1, Paint(Child(g1, d1), true));
    ReplaceTwice(t, gp, g1, g2);
    ReplaceTwice(t, gp, g2, Recoloured(g));
    assert Paint(g2, false) == Recoloured(g) by {
      if d1 {
        assert g2 == Branch(g.black, Paint(g.left, true), g.key, Paint(g.right, true));
      } else {
        assert g2 == Branch(g.black, Paint(g.left, true), g.key, Paint(g.right, true));
      }
    }
  }

  /** Cases 2 and 3 of `fixInsert` when `current` is the outer
      grandchild on side `d1` of the grandparent `g` at `gp`, the uncle
      black: painting the parent black and `g` red and lifting the parent
      leaves a black subtree root with `current` still red below it on
      side `d1`, and no red-red link anywhere. */
  lemma InsertOuter(t: RbTree, gp: seq<Turn>, d1: Turn)
    requires ValidPath(t, gp) && SubAt(t, gp).Branch? && Child(SubAt(t, gp), d1).Branch?
    requires InsertInvariant(t, gp + [d1, d1])
    requires IsRed(Child(SubAt(t, gp), d1)) && !IsRed(Child(SubAt(t, gp), !d1))
    ensures var t1 := ReplaceAt(t, gp, PaintPair(SubAt(t, gp), d1));
      ValidPath(t1, gp) && SubAt(t1, gp) == PaintPair(SubAt(t, gp), d1) &&
      var t2 := ReplaceAt(t1, gp, Lift(SubAt(t1, gp), d1));
      ValidPath(t2, gp) && !IsRed(SubAt(t2, gp)) && InsertInvariant(t2, gp + [d1]) &&
      BinaryTree.InOrder(Shape(t2)) == BinaryTree.InOrder(Shape(t))
  {
    var g := SubAt(t, gp);
    var p := Child(g, d1);
    var z := Child(p, d1);
    var gz := WithChild(g, d1, WithChild(p, d1, Paint(z, true)));
    var m := PaintPair(g, d1);
    var n := Lift(m, d1);
    Extend2(t, gp, d1, d1, Paint(z, true));
    ReplaceTwice(t, gp, gz, gz);
    SubRedOk(ReplaceAt(t, gp, gz), gp);
    SubBalanced(t, gp);
    OuterLocal(g, d1);
    var nz := WithChild(n, d1, Paint(z, true));
    RedReplace(t, gp, gz, nz);
    RotatedTail(t, gp, g, n, nz, d1);
    ReplaceTwice(t, gp, m, n);
    LiftOrder(m, d1);
    OrderReplace(t, gp, n, g);
    ReplaceSame(t, gp);
  }

  /** The colour arithmetic of the outer case on the grandparent alone. */
  lemma OuterLocal(g: RbTree, d1: Turn)
    requires g.Branch? && Child(g, d1).Branch? && IsRed(Child(g, d1)) && !IsRed(Child(g, !d1))
    requires IsRed(Child(Child(g, d1), d1))
    requires !IsRed(Child(Child(g, d1), d1).left) && !IsRed(Child(Child(g, d1), d1).right)
    requires BlackBalanced(g)
    requires RedOk(WithChild(g, d1, WithChild(Child(g, d1), d1, Paint(Child(Child(g, d1), d1), true))))
    ensures var n := Lift(PaintPair(g, d1), d1);
      n.Branch? && !IsRed(n) && Child(n, d1) == Child(Child(g, d1), d1) &&
      BlackBalanced(n) && BlackHeight(n) == BlackHeight(g) &&
      RedOk(WithChild(n, d1, Paint(Child(n, d1), true))) &&
      Shape(PaintPair(g, d1)) == Shape(g)
  {
    var p, u := Child(g, d1), Child(g, !d1);
    var z, o := Child(p, d1), Child(p, !d1);
    var pz := WithChild(p, d1, Paint(z, true));
    assert RedOk(pz) && RedOk(u) && IsRed(pz) by {
      if d1 {
        assert WithChild(g, d1, pz).left == pz;
      } else {
        assert WithChild(g, d1, pz).right == pz;
      }
    }
    assert g.black;
    assert RedOk(Paint(z, true)) && RedOk(o) && !IsRed(o) by {
      if d1 {
        assert pz.left == Paint(z, true) && pz.right == o;
      } else {
        assert pz.right == Paint(z, true) && pz.left == o;
      }
    }
    var n := Lift(PaintPair(g, d1), d1);
    if d1 {
      assert n == Branch(true, z, p.key, Branch(false, o, g.key, u));
    } else {
      assert n == Branch(true, Branch(false, u, g.key, o), p.key, z);
    }
  }

  /** Case 2 of `fixInsert`: `current` is the inner grandchild, on side
      `!d1` of the parent, which is on side `d1` of the grandparent at
      `gp`, the uncle black. Lifting `current` over the parent makes the
      old parent, still red, the outer grandchild on side `d1`, which is
      where the invariant now stands and case 3 takes over. */
  lemma InsertInner(t: RbTree, gp: seq<Turn>, d1: Turn)
    requires ValidPath(t, gp) && SubAt(t, gp).Branch? && Child(SubAt(t, gp), d1).Branch?
    requires InsertInvariant(t, gp + [d1, !d1])
    requires IsRed(Child(SubAt(t, gp), d1)) && !IsRed(Child(SubAt(t, gp), !d1))
    ensures ValidPath(t, gp + [d1]) && SubAt(t, gp + [d1]) == Child(SubAt(t, gp), d1)
    ensures var t1 := ReplaceAt(t, gp + [d1], Lift(SubAt(t, gp + [d1]), !d1));
      ValidPath(t1, gp) && SubAt(t1, gp).Branch? && Child(SubAt(t1, gp), d1).Branch? &&
      InsertInvariant(t1, gp + [d1, d1]) &&
      IsRed(Child(SubAt(t1, gp), d1)) && !IsRed(Child(SubAt(t1, gp), !d1)) &&
      BinaryTree.InOrder(Shape(t1)) == BinaryTree.InOrder(Shape(t))
  {
    var g := SubAt(t, gp);
    var p := Child(g, d1);
    var z := Child(p, !d1);
    var pz := WithChild(p, !d1, Paint(z, true));
    var p1 := Lift(p, !d1);
    var q := gp + [d1];
    Extend2(t, gp, d1, !d1, Paint(z, true));
    Extend(t, q, !d1, Paint(z, true));
    assert q + [!d1] == gp + [d1, !d1];
    assert PaintAt(t, gp + [d1, !d1], true) == ReplaceAt(t, q, pz);
    ReplaceTwice(t, q, pz, pz);
    SubRedOk(ReplaceAt(t, q, pz), q);
    SubBalanced(t, q);
    InnerLift(p, d1);
    var t1 := ReplaceAt(t, q, p1);
    var p1z := WithChild(p1, d1, Paint(Child(p1, d1), true));
    Extend(t, gp, d1, p1);
    ReplaceTwice(t, gp, WithChild(g, d1, p1), WithChild(g, d1, p1));
    ReplaceTwice(t, q, p1, p1z);
    Extend2(t1, gp, d1, d1, Paint(Child(p1, d1), true));
    assert PaintAt(t1, gp + [d1, d1], true) == ReplaceAt(t, q, p1z);
    ReplaceSame(t, q);
    BalancedReplace(t, q, p, p1);
    RedReplace(t, q, pz, p1z);
    RootKept(t, q, p1);
    OrderReplace(t, q, p1, p);
  }

  /** The colour arithmetic of case 2 on the parent alone. */
  lemma InnerLift(p: RbTree, d1: Turn)
    requires p.Branch? && IsRed(p) && IsRed(Child(p, !d1))
    requires !IsRed(Child(p, !d1).left) && !IsRed(Child(p, !d1).right)
    requires BlackBalanced(p)
    requires RedOk(WithChild(p, !d1, Paint(Child(p, !d1), true)))
    ensures var p1 := Lift(p, !d1);
      p1.Branch? && IsRed(p1) && Child(p1, d1).Branch? && IsRed(Child(p1, d1)) &&
      !IsRed(Child(p1, d1).left) && !IsRed(Child(p1, d1).right) && !IsRed(Child(p1, !d1)) &&
      BlackBalanced(p1) && BlackHeight(p1) == BlackHeight(p) &&
      RedOk(WithChild(p1, d1, Paint(Child(p1, d1), true))) &&
      BinaryTree.InOrder(Shape(p1)) == BinaryTree.InOrder(Shape(p))
  {
    var z, o := Child(p, !d1), Child(p, d1);
    var pz := WithChild(p, !d1, Paint(z, true));
    assert RedOk(Paint(z, true)) && RedOk(o) && !IsRed(o) by {
      if d1 {
        assert pz.right == Paint(z, true) && pz.left == o;
      } else {
        assert pz.left == Paint(z, true) && pz.right == o;
      }
    }
    LiftOrder(p, !d1);
    assert BlackBalanced(z);
    if d1 {
      assert Lift(p, !d1) == Branch(false, Branch(false, o, p.key, z.left), z.key, z.right);
    } else {
      assert Lift(p, !d1) == Branch(false, z.left, z.key, Branch(false, z.right, p.key, o));
    }
  }

  /** The common end of the outer and inner cases: the grandparent's
      subtree `g` at `gp` became `n`, black, balanced as before, with a
      red child on side `d1`, black below, whose painting leaves `nz`
      without red-red links. */
  lemma RotatedTail(t: RbTree, gp: seq<Turn>, g: RbTree, n: RbTree, nz: RbTree, d1: Turn)
    requires ValidPath(t, gp) && g == SubAt(t, gp) && BlackBalanced(t)
    requires gp == [] || !IsRed(t)
    requires n.Branch? && !IsRed(n) && IsRed(Child(n, d1))
    requires !IsRed(Child(n, d1).left) && !IsRed(Child(n, d1).right)
    requires BlackBalanced(n) && BlackHeight(n) == BlackHeight(g)
    requires nz == WithChild(n, d1, Paint(Child(n, d1), true)) && RedOk(ReplaceAt(t, gp, nz))
    ensures ValidPath(ReplaceAt(t, gp, n), gp) && SubAt(ReplaceAt(t, gp, n), gp) == n
    ensures InsertInvariant(ReplaceAt(t, gp, n), gp + [d1])
  {
    var t2 := ReplaceAt(t, gp, n);
    var z := Child(n, d1);
    ReplaceTwice(t, gp, n, nz);
    Extend(t2, gp, d1, Paint(z, true));
    assert SubAt(t2, gp + [d1]) == z;
    assert PaintAt(t2, gp + [d1], true) == ReplaceAt(t, gp, nz);
    BalancedSwap(t, gp, n);
    RootBlack(t, gp, n);
  }
}
