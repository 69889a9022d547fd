/** The rounds of `fixDelete` on the arena. Between two rounds the
    arena holds a tree in the invariant of the repair, `current` being
    the slot (or the sentinel) the descent along `p` meets, and reading
    `current.parent` reaches the node above it; for the sentinel that
    read goes to its own `parent` field, `np` here. Each case below is
    stated on the slots its writes produce, so the methods that make
    those writes only have to match them. */
module RbDeleteArena {
  import BinaryTree
  import opened RbSpec
  import opened RbNode
  import opened RbArena
  import opened RbFixArena
  import RbDeleteSpec

  /** `x.parent` for a node or the sentinel, whose `parent` field is
      `np`. */
  function LinkOf(a: map<Ref, RbSlot>, np: Ref, x: Ref): Ref
    requires x == NIL || x in a
  {
    if x == NIL then np else a[x].parent
  }

  /** The descent along `p` from `r` meets `current`, and the `parent`
      link of `current` reaches the node above it. */
  ghost predicate Reaches(a: map<Ref, RbSlot>, r: Ref, np: Ref, t: RbTree, current: Ref, p: seq<Turn>)
  {
    Holds(a, r, NIL, t) && NIL !in a && ValidPath(t, p) &&
    current == RefAt(a, r, NIL, t, p) && (current == NIL || current in a) &&
    (p != [] ==> LinkOf(a, np, current) == Up(a, r, NIL, t, p))
  }

  /** Between two rounds of `fixDelete`: `current`, at `p`, carries the
      extra black. */
  ghost predicate FixingOn(a: map<Ref, RbSlot>, r: Ref, np: Ref, t: RbTree, current: Ref, p: seq<Turn>)
  {
    Reaches(a, r, np, t, current, p) && RbDeleteSpec.DeleteInvariant(t, p)
  }

  /** Before cases 2 to 4: `current`, black and below its parent, has a
      black sibling. */
  ghost predicate SiblingOn(a: map<Ref, RbSlot>, r: Ref, np: Ref, t: RbTree, current: Ref, p: seq<Turn>)
  {
    FixingOn(a, r, np, t, current, p) && RbDeleteSpec.BlackSibling(t, p)
  }

  /** Where `fixDelete` starts: the slot or the sentinel the descent
      along `p` meets is reached, its `parent` link being that of a real
      node or, for the sentinel, `np`. */
  lemma StartReaches(a: map<Ref, RbSlot>, r: Ref, np: Ref, t: RbTree, current: Ref, p: seq<Turn>)
    requires Holds(a, r, NIL, t) && NIL !in a && ValidPath(t, p) && current == RefAt(a, r, NIL, t, p)
    requires current == NIL && p != [] ==> np == Up(a, r, NIL, t, p)
    ensures current == NIL || current in a
    ensures Reaches(a, r, np, t, current, p)
  {
    SlotColour(a, current, ParentOf(a, current), SubAt(t, p));
    if current != NIL {
      ParentIsUp(a, r, NIL, t, p);
    }
  }

  /** The start of a round: the parent of `current` is a node,
      `current == parent.left` tells the side `current` is on, and the
      sibling on the other side is a node whose colour the slot reports. */
  lemma Sides(a: map<Ref, RbSlot>, r: Ref, np: Ref, t: RbTree, current: Ref, p: seq<Turn>)
    requires FixingOn(a, r, np, t, current, p) && p != []
    ensures var pp, d := p[..|p| - 1], p[|p| - 1]; var x := LinkOf(a, np, current);
      ValidPath(t, pp) && SubAt(t, pp).Branch? && Child(SubAt(t, pp), !d).Branch? &&
      x in a && (current == a[x].left <==> d) && ChildRef(a, x, !d) in a &&
      (RedSlot(a, ChildRef(a, x, !d)) <==> RbSpec.IsRed(Child(SubAt(t, pp), !d)))
  {
    var pp, d := p[..|p| - 1], p[|p| - 1];
    RbDeleteSpec.DeleteLocal(t, p);
    Step(a, r, NIL, t, pp, d);
    Step(a, r, NIL, t, pp, !d);
    TurnOf(a, r, NIL, t, p);
    var y := ChildRef(a, RefAt(a, r, NIL, t, pp), !d);
    SlotColour(a, y, ParentOf(a, y), Child(SubAt(t, pp), !d));
  }

  /** A round whose sibling is black goes straight to cases 2 to 4. */
  lemma BlackSiblingStart(a: map<Ref, RbSlot>, r: Ref, np: Ref, t: RbTree, current: Ref, p: seq<Turn>)
    requires FixingOn(a, r, np, t, current, p) && p != [] && !RbSpec.IsRed(SubAt(t, p))
    requires ValidPath(t, p[..|p| - 1]) && SubAt(t, p[..|p| - 1]).Branch?
    requires Child(SubAt(t, p[..|p| - 1]), !p[|p| - 1]).Branch?
    requires !RbSpec.IsRed(Child(SubAt(t, p[..|p| - 1]), !p[|p| - 1]))
    ensures SiblingOn(a, r, np, t, current, p)
  {
  }

  /** The colours of the children of the black sibling, as its slots
      report them. */
  lemma SiblingChildren(a: map<Ref, RbSlot>, r: Ref, np: Ref, t: RbTree, current: Ref, p: seq<Turn>)
    requires SiblingOn(a, r, np, t, current, p)
    ensures var pp, d := p[..|p| - 1], p[|p| - 1]; var x := LinkOf(a, np, current);
      var w := Child(SubAt(t, pp), !d);
      x in a && ChildRef(a, x, !d) in a &&
      (RedSlot(a, a[ChildRef(a, x, !d)].left) <==> RbSpec.IsRed(w.left)) &&
      (RedSlot(a, a[ChildRef(a, x, !d)].right) <==> RbSpec.IsRed(w.right))
  {
    var pp, d := p[..|p| - 1], p[|p| - 1];
    Sides(a, r, np, t, current, p);
    Step(a, r, NIL, t, pp, !d);
    var q := pp + [!d];
    Step(a, r, NIL, t, q, GoLeft);
    Step(a, r, NIL, t, q, GoRight);
    var y := RefAt(a, r, NIL, t, q);
    SlotColour(a, a[y].left, ParentOf(a, a[y].left), SubAt(t, q).left);
    SlotColour(a, a[y].right, ParentOf(a, a[y].right), SubAt(t, q).right);
  }

  /** Case 1, the sibling `y` red: `setBlack` on it and `setRed` on the
      parent `x`, then the rotation at `x` that lifts `y`. The arena
      then holds the tree of the case on tree values, `current` is two
      levels lower, below `x`, now red, and has a black sibling. */
  lemma RedSiblingArena(a: map<Ref, RbSlot>, r: Ref, np: Ref, t: RbTree, current: Ref, p: seq<Turn>)
    returns (t2: RbTree, p2: seq<Turn>)
    requires FixingOn(a, r, np, t, current, p) && p != [] && !RbSpec.IsRed(SubAt(t, p))
    requires ValidPath(t, p[..|p| - 1]) && SubAt(t, p[..|p| - 1]).Branch?
    requires RbSpec.IsRed(Child(SubAt(t, p[..|p| - 1]), !p[|p| - 1]))
    ensures var d := p[|p| - 1]; var x := LinkOf(a, np, current);
      x in a && ChildRef(a, x, !d) in a &&
      var b := Painted(Painted(a, ChildRef(a, x, !d), true), x, false);
      Rotatable(b, x, !d) &&
      var c := Rotated(b, x, !d);
      var r' := if b[x].parent == NIL then ChildRef(b, x, !d) else r;
      SiblingOn(c, r', np, t2, current, p2) && p2[|p2| - 1] == d && RbSpec.IsRed(SubAt(t2, p2[..|p2| - 1])) &&
      c.Keys == a.Keys && BinaryTree.InOrder(Shape(t2)) == BinaryTree.InOrder(Shape(t))
  {
    var pp, d := p[..|p| - 1], p[|p| - 1];
    assert p == pp + [d];
    TwoDown(pp, d);
    var t1 := ReplaceAt(t, pp, PaintPair(SubAt(t, pp), !d));
    assert ValidPath(t1, pp) && var t' := ReplaceAt(t1, pp, Lift(SubAt(t1, pp), !d));
      RbDeleteSpec.DeleteInvariant(t', pp + [d, d]) && RbDeleteSpec.BlackSibling(t', pp + [d, d]) &&
      RbSpec.IsRed(SubAt(t', pp + [d])) && BinaryTree.InOrder(Shape(t')) == BinaryTree.InOrder(Shape(t)) by {
      RbDeleteSpec.DeleteRedSibling(t, p);
    }
    t2 := ReplaceAt(t1, pp, Lift(SubAt(t1, pp), !d));
    p2 := pp + [d, d];
    var x := RefAt(a, r, NIL, t, pp);
    assert x in a && ChildRef(a, x, !d) in a && x == LinkOf(a, np, current) && current == ChildRef(a, x, d) by {
      Step(a, r, NIL, t, pp, d);
      Step(a, r, NIL, t, pp, !d);
      assert Up(a, r, NIL, t, pp + [d]) == x;
    }
    RedSiblingSlots(a, r, np, t, current, pp, d);
  }

  /** Two turns `d` below `pp`, one step back up. */
  lemma TwoDown(pp: seq<Turn>, d: Turn)
    ensures var p2 := pp + [d, d];
      p2 != [] && p2[..|p2| - 1] == pp + [d] && p2[|p2| - 1] == d && pp + [d] + [d] == p2
  {
    assert (pp + [d, d])[..|pp| + 1] == pp + [d];
  }

  /** The writes of case 1 on the slots, for `current` on side `d` of
      the node `x` at `pp` whose child on side `!d` is a node: after the
      repainting and the rotation at `x`, the arena holds the new tree
      and the descent two turns `d` below `pp` meets `current`, below
      `x`. */
  lemma RedSiblingSlots(a: map<Ref, RbSlot>, r: Ref, np: Ref, t: RbTree, current: Ref, pp: seq<Turn>, d: Turn)
    requires ValidPath(t, pp) && Reaches(a, r, np, t, current, pp + [d])
    requires SubAt(t, pp).Branch? && Child(SubAt(t, pp), !d).Branch?
    ensures var x := RefAt(a, r, NIL, t, pp);
      x in a && ChildRef(a, x, !d) in a &&
      var b := Painted(Painted(a, ChildRef(a, x, !d), true), x, false);
      Rotatable(b, x, !d) &&
      var t1 := ReplaceAt(t, pp, PaintPair(SubAt(t, pp), !d));
      ValidPath(t1, pp) &&
      Reaches(Rotated(b, x, !d), if b[x].parent == NIL then ChildRef(b, x, !d) else r, np,
              ReplaceAt(t1, pp, Lift(SubAt(t1, pp), !d)), current, pp + [d, d]) &&
      Rotated(b, x, !d).Keys == a.Keys
  {
    var x := RefAt(a, r, NIL, t, pp);
    Step(a, r, NIL, t, pp, d);
    Step(a, r, NIL, t, pp, !d);
    PaintPairArena(a, r, t, pp, !d, pp + [d], pp);
    var b := Painted(Painted(a, ChildRef(a, x, !d), true), x, false);
    var t1 := ReplaceAt(t, pp, PaintPair(SubAt(t, pp), !d));
    ReplaceTwice(t, pp, PaintPair(SubAt(t, pp), !d), PaintPair(SubAt(t, pp), !d));
    RotateBelow(b, r, t1, pp, !d);
  }

  /** A rotation at the node `x` at `q` that lifts its child on side
      `e`: the arena holds the lifted tree, and two turns `!e` below `q`
      the descent meets the child `x` had on side `!e`, now below `x`. */
  lemma RotateBelow(b: map<Ref, RbSlot>, r: Ref, t: RbTree, q: seq<Turn>, e: Turn)
    requires Holds(b, r, NIL, t) && NIL !in b && ValidPath(t, q) && SubAt(t, q).Branch? && Child(SubAt(t, q), e).Branch?
    ensures Rotatable(b, RefAt(b, r, NIL, t, q), e)
    ensures var x := RefAt(b, r, NIL, t, q); var o := ChildRef(b, x, !e);
      var c := Rotated(b, x, e); var r' := if b[x].parent == NIL then ChildRef(b, x, e) else r;
      var t2 := ReplaceAt(t, q, Lift(SubAt(t, q), e));
      Holds(c, r', NIL, t2) && c.Keys == b.Keys && ValidPath(t2, q + [!e, !e]) &&
      RefAt(c, r', NIL, t2, q + [!e, !e]) == o && Up(c, r', NIL, t2, q + [!e, !e]) == x &&
      (o != NIL ==> o in c && c[o].parent == x)
  {
    var x := RefAt(b, r, NIL, t, q);
    var s := SubAt(t, q);
    RotateHolds(b, r, t, q, e);
    var c := Rotated(b, x, e);
    var r' := if b[x].parent == NIL then ChildRef(b, x, e) else r;
    var t2 := ReplaceAt(t, q, Lift(s, e));
    assert q + [!e] + [!e] == q + [!e, !e];
    assert Lift(s, e).Branch? && Child(Lift(s, e), !e).Branch?;
    assert Child(Child(Lift(s, e), !e), !e) == Child(s, !e);
    Step(c, r', NIL, t2, q, !e);
    Step(c, r', NIL, t2, q + [!e], !e);
    ChildHolds(b, x, ParentOf(b, x), s, !e);
    SlotColour(b, ChildRef(b, x, !e), x, Child(s, !e));
    if ChildRef(b, x, !e) != NIL {
      ParentIsUp(c, r', NIL, t2, q + [!e, !e]);
    }
  }

  /** Case 2, the sibling `y` black with black children: `setRed` on
      `y`; the parent `x` becomes `current`, and the repair stands one
      level higher with the colour of `x` as it was. */
  lemma BlackChildrenArena(a: map<Ref, RbSlot>, r: Ref, np: Ref, t: RbTree, current: Ref, p: seq<Turn>)
    returns (t1: RbTree)
    requires SiblingOn(a, r, np, t, current, p)
    requires !RbSpec.IsRed(Child(SubAt(t, p[..|p| - 1]), !p[|p| - 1]).left)
    requires !RbSpec.IsRed(Child(SubAt(t, p[..|p| - 1]), !p[|p| - 1]).right)
    ensures var pp, d := p[..|p| - 1], p[|p| - 1]; var x := LinkOf(a, np, current);
      x in a && ChildRef(a, x, !d) in a &&
      var b := Painted(a, ChildRef(a, x, !d), false);
      LinkOf(b, np, current) == x && FixingOn(b, r, np, t1, x, pp) &&
      RbSpec.IsRed(SubAt(t1, pp)) == RbSpec.IsRed(SubAt(t, pp)) &&
      b.Keys == a.Keys && BinaryTree.InOrder(Shape(t1)) == BinaryTree.InOrder(Shape(t))
  {
    var pp, d := p[..|p| - 1], p[|p| - 1];
    RbDeleteSpec.DeleteRecolour(t, p);
    Step(a, r, NIL, t, pp, d);
    Step(a, r, NIL, t, pp, !d);
    PaintStep(a, r, t, pp + [!d], false, pp, pp);
    t1 := PaintAt(t, pp + [!d], false);
    var b := Painted(a, ChildRef(a, RefAt(a, r, NIL, t, pp), !d), false);
    ParentIsUp(b, r, NIL, t1, pp);
  }

  /** Case 3, the sibling `y` black with a red near child `z` and a
      black far child: `setBlack` on `z` and `setRed` on `y`, then the
      rotation at `y` that lifts `z`. `current` stays where it was, and
      its new sibling is black with a red far child. */
  lemma NearRedArena(a: map<Ref, RbSlot>, r: Ref, np: Ref, t: RbTree, current: Ref, p: seq<Turn>)
    returns (t2: RbTree)
    requires SiblingOn(a, r, np, t, current, p)
    requires RbSpec.IsRed(Child(Child(SubAt(t, p[..|p| - 1]), !p[|p| - 1]), p[|p| - 1]))
    requires !RbSpec.IsRed(Child(Child(SubAt(t, p[..|p| - 1]), !p[|p| - 1]), !p[|p| - 1]))
    ensures var pp, d := p[..|p| - 1], p[|p| - 1]; var x := LinkOf(a, np, current);
      x in a && ChildRef(a, x, !d) in a && ChildRef(a, ChildRef(a, x, !d), d) in a &&
      var y := ChildRef(a, x, !d);
      var b := Painted(Painted(a, ChildRef(a, y, d), true), y, false);
      Rotatable(b, y, d) &&
      var c := Rotated(b, y, d);
      b[y].parent != NIL && SiblingOn(c, r, np, t2, current, p) &&
      RbSpec.IsRed(Child(Child(SubAt(t2, pp), !d), !d)) && RbSpec.IsRed(SubAt(t2, pp)) == RbSpec.IsRed(SubAt(t, pp)) &&
      c.Keys == a.Keys && BinaryTree.InOrder(Shape(t2)) == BinaryTree.InOrder(Shape(t))
  {
    var pp, d := p[..|p| - 1], p[|p| - 1];
    assert p == pp + [d];
    var x := RefAt(a, r, NIL, t, pp);
    assert x == LinkOf(a, np, current) by {
      Step(a, r, NIL, t, pp, d);
    }
    NearRedSlots(a, r, np, t, current, pp, d);
    RbDeleteSpec.DeleteNearRed(t, p);
    var q := pp + [!d];
    var t1 := ReplaceAt(t, q, PaintPair(SubAt(t, q), d));
    t2 := ReplaceAt(t1, q, Lift(SubAt(t1, q), d));
  }

  /** The writes of case 3 on the slots, for `current` on side `d` of
      the node `x` at `pp`, whose child `y` on side `!d` has a node as
      its child on side `d`: after the repainting and the rotation at
      `y`, the arena holds the new tree and the descent along `pp + [d]`
      still meets `current`, below `x`. */
  lemma NearRedSlots(a: map<Ref, RbSlot>, r: Ref, np: Ref, t: RbTree, current: Ref, pp: seq<Turn>, d: Turn)
    requires ValidPath(t, pp) && Reaches(a, r, np, t, current, pp + [d])
    requires SubAt(t, pp).Branch? && Child(SubAt(t, pp), !d).Branch? && Child(Child(SubAt(t, pp), !d), d).Branch?
    ensures var x := RefAt(a, r, NIL, t, pp);
      x in a && ChildRef(a, x, !d) in a && ChildRef(a, ChildRef(a, x, !d), d) in a &&
      var y := ChildRef(a, x, !d);
      var b := Painted(Painted(a, ChildRef(a, y, d), true), y, false);
      Rotatable(b, y, d) &&
      var q := pp + [!d];
      ValidPath(t, q) &&
      var t1 := ReplaceAt(t, q, PaintPair(SubAt(t, q), d));
      ValidPath(t1, q) &&
      b[y].parent != NIL &&
      Reaches(Rotated(b, y, d), r, np, ReplaceAt(t1, q, Lift(SubAt(t1, q), d)), current, pp + [d]) &&
      Rotated(b, y, d).Keys == a.Keys
  {
    var x := RefAt(a, r, NIL, t, pp);
    var g := SubAt(t, pp);
    var q := pp + [!d];
    Step(a, r, NIL, t, pp, d);
    Step(a, r, NIL, t, pp, !d);
    Step(a, r, NIL, t, q, d);
    var y := RefAt(a, r, NIL, t, q);
    PaintPairArena(a, r, t, q, d, pp + [d], pp);
    var b := Painted(Painted(a, ChildRef(a, y, d), true), y, false);
    var m := PaintPair(SubAt(t, q), d);
    var t1 := ReplaceAt(t, q, m);
    ReplaceTwice(t, q, m, m);
    RotateHolds(b, r, t1, q, d);
    var c := Rotated(b, y, d);
    var w1 := Lift(m, d);
    var t2 := ReplaceAt(t1, q, w1);
    NearRedTrees(t, pp, d);
    Step(b, r, NIL, t1, pp, !d);
    Step(c, r, NIL, t2, pp, !d);
    Step(c, r, NIL, t2, pp, d);
    SlotColour(a, current, ParentOf(a, current), SubAt(t, pp + [d]));
    if current != NIL {
      ParentIsUp(c, r, NIL, t2, pp + [d]);
    }
  }

  /** The trees of case 3: the replacements at `pp + [!d]` keep the
      node at `pp` and its child on side `d`. */
  lemma NearRedTrees(t: RbTree, pp: seq<Turn>, d: Turn)
    requires ValidPath(t, pp) && SubAt(t, pp).Branch? && Child(SubAt(t, pp), !d).Branch?
    ensures var q := pp + [!d];
      ValidPath(t, q) && SubAt(t, q) == Child(SubAt(t, pp), !d) &&
      var t1 := ReplaceAt(t, q, PaintPair(SubAt(t, q), d));
      ValidPath(t1, q) && SubAt(t1, q) == PaintPair(SubAt(t, q), d) && ValidPath(t1, pp) &&
      SubAt(t1, pp).Branch? &&
      var t2 := ReplaceAt(t1, q, Lift(SubAt(t1, q), d));
      ValidPath(t2, pp) && SubAt(t2, pp).Branch? && Child(SubAt(t2, pp), d) == Child(SubAt(t, pp), d)
  {
    var g := SubAt(t, pp);
    var q := pp + [!d];
    Extend(t, pp, !d, Leaf);
    var m := PaintPair(SubAt(t, q), d);
    var t1 := ReplaceAt(t, q, m);
    ReplaceTwice(t, q, m, m);
    Extend(t, pp, !d, m);
    ReplaceTwice(t, pp, WithChild(g, !d, m), WithChild(g, !d, m));
    var w1 := Lift(m, d);
    Extend(t1, pp, !d, w1);
    var g1 := WithChild(SubAt(t1, pp), !d, w1);
    ReplaceTwice(t1, pp, g1, g1);
  }

  /** Case 4, the sibling `y` black with a red far child `f`: `y` takes
      the colour of the parent `x`, `x` and `f` turn black, and the
      rotation at `x` lifts `y`. The extra black is gone: the arena holds
      a red-black tree, bar the colour of its root, from its root. */
  lemma FarRedArena(a: map<Ref, RbSlot>, r: Ref, np: Ref, t: RbTree, current: Ref, p: seq<Turn>)
    returns (t2: RbTree)
    requires SiblingOn(a, r, np, t, current, p)
    requires RbSpec.IsRed(Child(Child(SubAt(t, p[..|p| - 1]), !p[|p| - 1]), !p[|p| - 1]))
    ensures var d := p[|p| - 1]; var x := LinkOf(a, np, current);
      x in a && ChildRef(a, x, !d) in a && ChildRef(a, x, !d) != NIL && ChildRef(a, ChildRef(a, x, !d), !d) in a &&
      var y := ChildRef(a, x, !d);
      var b := Painted(Painted(Painted(a, y, a[x].black), x, true), ChildRef(a, y, !d), true);
      Rotatable(b, x, !d) &&
      var c := Rotated(b, x, !d);
      var r' := if b[x].parent == NIL then ChildRef(b, x, !d) else r;
      FixingOn(c, r', np, t2, r', []) &&
      c.Keys == a.Keys && BinaryTree.InOrder(Shape(t2)) == BinaryTree.InOrder(Shape(t))
  {
    var pp, d := p[..|p| - 1], p[|p| - 1];
    assert p == pp + [d];
    var x := RefAt(a, r, NIL, t, pp);
    assert x == LinkOf(a, np, current) by {
      Step(a, r, NIL, t, pp, d);
    }
    FarRedSlots(a, r, np, t, pp, d);
    RbDeleteSpec.DeleteFarRed(t, p);
    var t1 := ReplaceAt(t, pp, RbDeleteSpec.Case4Paint(SubAt(t, pp), d));
    t2 := ReplaceAt(t1, pp, Lift(SubAt(t1, pp), !d));
  }

  /** The writes of case 4 on the slots, for the node `x` at `pp` whose
      child `y` on side `!d` has a node as its child on side `!d`: after
      the recolouring and the rotation at `x`, the arena holds the new
      tree from its root. */
  lemma FarRedSlots(a: map<Ref, RbSlot>, r: Ref, np: Ref, t: RbTree, pp: seq<Turn>, d: Turn)
    requires Holds(a, r, NIL, t) && NIL !in a && ValidPath(t, pp) && SubAt(t, pp).Branch?
    requires Child(SubAt(t, pp), !d).Branch? && Child(Child(SubAt(t, pp), !d), !d).Branch?
    ensures var x := RefAt(a, r, NIL, t, pp);
      x in a && ChildRef(a, x, !d) in a && ChildRef(a, x, !d) != NIL && ChildRef(a, ChildRef(a, x, !d), !d) in a &&
      var y := ChildRef(a, x, !d);
      var b := Painted(Painted(Painted(a, y, a[x].black), x, true), ChildRef(a, y, !d), true);
      Rotatable(b, x, !d) &&
      var t1 := ReplaceAt(t, pp, RbDeleteSpec.Case4Paint(SubAt(t, pp), d));
      ValidPath(t1, pp) &&
      var r' := if b[x].parent == NIL then ChildRef(b, x, !d) else r;
      Reaches(Rotated(b, x, !d), r', np, ReplaceAt(t1, pp, Lift(SubAt(t1, pp), !d)), r', []) &&
      Rotated(b, x, !d).Keys == a.Keys
  {
    var x := RefAt(a, r, NIL, t, pp);
    TwoDown(pp, !d);
    Step(a, r, NIL, t, pp, !d);
    Step(a, r, NIL, t, pp + [!d], !d);
    Case4Arena(a, r, t, pp, d, pp, pp);
    var m := RbDeleteSpec.Case4Paint(SubAt(t, pp), d);
    var t1 := ReplaceAt(t, pp, m);
    ReplaceTwice(t, pp, m, m);
    var y := ChildRef(a, x, !d);
    var b := Painted(Painted(Painted(a, y, a[x].black), x, true), ChildRef(a, y, !d), true);
    RotateHolds(b, r, t1, pp, !d);
    SlotColour(a, r, NIL, t);
    if r == NIL {
      LeafPath(pp);
    }
  }
}
