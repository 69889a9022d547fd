/** The recolourings of `fixInsert` and `fixDelete` on the arena: each
    sequence of `setBlack`, `setRed` and `transferColor` calls between two
    rotations repaints the nodes it names and leaves every link, so the
    arena holds the repainted tree and every descent meets the same
    slots. */
module RbFixArena {
  import opened RbSpec
  import opened RbNode
  import opened RbArena
  import RbInsertSpec
  import RbDeleteSpec

  /** `x.isRed()` on the arena; the sentinel, which has no slot, is
      black. */
  predicate RedSlot(a: map<Ref, RbSlot>, x: Ref)
  {
    x in a && RbNode.IsRed(a[x])
  }

  /** The colour a slot reports is the colour of the subtree it holds;
      the sentinel holds `Leaf`, which is black. */
  lemma SlotColour(a: map<Ref, RbSlot>, x: Ref, p: Ref, s: RbTree)
    requires Holds(a, x, p, s) && NIL !in a
    ensures RedSlot(a, x) == RbSpec.IsRed(s)
    ensures x == NIL <==> s == Leaf
  {
  }

  /** One `setBlack` or `setRed` on the node at `q`: the arena holds the
      repainted tree, and the descents along `w1` and `w2` meet the same
      slots as before. */
  lemma PaintStep(a: map<Ref, RbSlot>, r: Ref, t: RbTree, q: seq<Turn>, black: bool, w1: seq<Turn>, w2: seq<Turn>)
    requires Holds(a, r, NIL, t) && ValidPath(t, q) && SubAt(t, q).Branch? && ValidPath(t, w1) && ValidPath(t, w2)
    ensures RefAt(a, r, NIL, t, q) in a
    ensures var b := Painted(a, RefAt(a, r, NIL, t, q), black); var t' := PaintAt(t, q, black);
      Holds(b, r, NIL, t') && b.Keys == a.Keys && Shape(t') == Shape(t) &&
      ValidPath(t', w1) && RefAt(b, r, NIL, t', w1) == RefAt(a, r, NIL, t, w1) &&
      ValidPath(t', w2) && RefAt(b, r, NIL, t', w2) == RefAt(a, r, NIL, t, w2)
  {
    PaintHolds(a, r, NIL, t, q, black);
    PaintRefAt(a, r, NIL, t, q, black, w1);
    PaintRefAt(a, r, NIL, t, q, black, w2);
  }

  /** `setBlack` on the child on side `d` of the node at `q`, then
      `setRed` on that node: case 3 of `fixInsert` before its rotation,
      and cases 1 and 3 of `fixDelete` before theirs. */
  lemma PaintPairArena(a: map<Ref, RbSlot>, r: Ref, t: RbTree, q: seq<Turn>, d: Turn, w1: seq<Turn>, w2: seq<Turn>)
    requires Holds(a, r, NIL, t) && ValidPath(t, q) && SubAt(t, q).Branch? && Child(SubAt(t, q), d).Branch?
    requires ValidPath(t, w1) && ValidPath(t, w2)
    ensures ValidPath(t, q + [d]) && RefAt(a, r, NIL, t, q + [d]) in a && RefAt(a, r, NIL, t, q) in a
    ensures var b := Painted(Painted(a, RefAt(a, r, NIL, t, q + [d]), true), RefAt(a, r, NIL, t, q), false);
      var t' := ReplaceAt(t, q, PaintPair(SubAt(t, q), d));
      Holds(b, r, NIL, t') && b.Keys == a.Keys && Shape(t') == Shape(t) &&
      ValidPath(t', w1) && RefAt(b, r, NIL, t', w1) == RefAt(a, r, NIL, t, w1) &&
      ValidPath(t', w2) && RefAt(b, r, NIL, t', w2) == RefAt(a, r, NIL, t, w2)
  {
    PaintPairAt(t, q, d);
    Extend(t, q, d, Leaf);
    var t1 := PaintAt(t, q + [d], true);
    PaintStep(a, r, t, q + [d], true, w1, w2);
    PaintStep(a, r, t, q + [d], true, q, q);
    var a1 := Painted(a, RefAt(a, r, NIL, t, q + [d]), true);
    PaintStep(a1, r, t1, q, false, w1, w2);
  }


  /** Case 1 of `fixInsert`: `setBlack` on the uncle, on side `!d1` of
      the grandparent at `gp`, and on the parent, on side `d1`, then
      `setRed` on the grandparent. */
  lemma RecolourArena(a: map<Ref, RbSlot>, r: Ref, t: RbTree, gp: seq<Turn>, d1: Turn, w1: seq<Turn>, w2: seq<Turn>)
    requires Holds(a, r, NIL, t) && ValidPath(t, gp) && SubAt(t, gp).Branch?
    requires Child(SubAt(t, gp), d1).Branch? && Child(SubAt(t, gp), !d1).Branch?
    requires ValidPath(t, w1) && ValidPath(t, w2)
    ensures ValidPath(t, gp + [d1]) && ValidPath(t, gp + [!d1])
    ensures RefAt(a, r, NIL, t, gp + [!d1]) in a && RefAt(a, r, NIL, t, gp + [d1]) in a && RefAt(a, r, NIL, t, gp) in a
    ensures var b := Painted(Painted(Painted(a, RefAt(a, r, NIL, t, gp + [!d1]), true),
                                     RefAt(a, r, NIL, t, gp + [d1]), true), RefAt(a, r, NIL, t, gp), false);
      var t' := ReplaceAt(t, gp, RbInsertSpec.Recoloured(SubAt(t, gp)));
      Holds(b, r, NIL, t') && b.Keys == a.Keys && Shape(t') == Shape(t) &&
      ValidPath(t', w1) && RefAt(b, r, NIL, t', w1) == RefAt(a, r, NIL, t, w1) &&
      ValidPath(t', w2) && RefAt(b, r, NIL, t', w2) == RefAt(a, r, NIL, t, w2)
  {
    RbInsertSpec.RecolourAt(t, gp, d1);
    Extend(t, gp, d1, Leaf);
    Extend(t, gp, !d1, Leaf);
    var t1 := PaintAt(t, gp + [!d1], true);
    PaintStep(a, r, t, gp + [!d1], true, w1, w2);
    PaintStep(a, r, t, gp + [!d1], true, gp + [d1], gp);
    var a1 := Painted(a, RefAt(a, r, NIL, t, gp + [!d1]), true);
    var t2 := PaintAt(t1, gp + [d1], true);
    PaintStep(a1, r, t1, gp + [d1], true, w1, w2);
    PaintStep(a1, r, t1, gp + [d1], true, gp, gp);
    var a2 := Painted(a1, RefAt(a, r, NIL, t, gp + [d1]), true);
    PaintStep(a2, r, t2, gp, false, w1, w2);
  }


  /** Case 4 of `fixDelete`, for `current` on side `d` of its parent at
      `pp`: `transferColor(parent, sibling)`, then `setBlack` on the
      parent and on the sibling's far child. */
  lemma Case4Arena(a: map<Ref, RbSlot>, r: Ref, t: RbTree, pp: seq<Turn>, d: Turn, w1: seq<Turn>, w2: seq<Turn>)
    requires Holds(a, r, NIL, t) && ValidPath(t, pp) && SubAt(t, pp).Branch?
    requires Child(SubAt(t, pp), !d).Branch? && Child(Child(SubAt(t, pp), !d), !d).Branch?
    requires ValidPath(t, w1) && ValidPath(t, w2)
    ensures ValidPath(t, pp + [!d]) && ValidPath(t, pp + [!d, !d])
    ensures RefAt(a, r, NIL, t, pp + [!d]) in a && RefAt(a, r, NIL, t, pp + [!d, !d]) in a && RefAt(a, r, NIL, t, pp) in a
    ensures var x := RefAt(a, r, NIL, t, pp);
      var b := Painted(Painted(Painted(a, RefAt(a, r, NIL, t, pp + [!d]), a[x].black), x, true),
                       RefAt(a, r, NIL, t, pp + [!d, !d]), true);
      var t' := ReplaceAt(t, pp, RbDeleteSpec.Case4Paint(SubAt(t, pp), d));
      Holds(b, r, NIL, t') && b.Keys == a.Keys && Shape(t') == Shape(t) &&
      ValidPath(t', w1) && RefAt(b, r, NIL, t', w1) == RefAt(a, r, NIL, t, w1) &&
      ValidPath(t', w2) && RefAt(b, r, NIL, t', w2) == RefAt(a, r, NIL, t, w2)
  {
    RbDeleteSpec.Case4PaintAt(t, pp, d);
    Extend2(t, pp, !d, !d, Leaf);
    var x := RefAt(a, r, NIL, t, pp);
    ParentIsUp(a, r, NIL, t, pp);
    var black := SubAt(t, pp).black;
    var t1 := PaintAt(t, pp + [!d], black);
    PaintStep(a, r, t, pp + [!d], black, w1, w2);
    PaintStep(a, r, t, pp + [!d], black, pp, pp + [!d, !d]);
    var a1 := Painted(a, RefAt(a, r, NIL, t, pp + [!d]), black);
    var t2 := PaintAt(t1, pp, true);
    PaintStep(a1, r, t1, pp, true, w1, w2);
    PaintStep(a1, r, t1, pp, true, pp + [!d, !d], pp + [!d, !d]);
    var a2 := Painted(a1, x, true);
    PaintStep(a2, r, t2, pp + [!d, !d], true, w1, w2);
  }

  /** In `fixInsert`, a red `parent` is neither the sentinel nor the
      black root: `current` at `p` has a grandparent, at `gp`, and the
      parent is its child on side `d1`. */
  lemma RedParent(a: map<Ref, RbSlot>, r: Ref, t: RbTree, p: seq<Turn>, parent: Ref)
    requires Holds(a, r, NIL, t) && NIL !in a && RbInsertSpec.InsertInvariant(t, p)
    requires parent == Up(a, r, NIL, t, p) && RedSlot(a, parent)
    ensures |p| >= 2
    ensures var gp, d1 := p[..|p| - 2], p[|p| - 2];
      p == gp + [d1, p[|p| - 1]] && p[..|p| - 1] == gp + [d1] &&
      ValidPath(t, gp) && SubAt(t, gp).Branch? && ValidPath(t, gp + [d1]) &&
      Child(SubAt(t, gp), d1).Branch? && RbSpec.IsRed(Child(SubAt(t, gp), d1)) &&
      parent == RefAt(a, r, NIL, t, gp + [d1])
  {
    if p != [] {
      var up := p[..|p| - 1];
      SlotColour(a, parent, ParentOf(a, parent), SubAt(t, up));
      if |p| == 1 {
        assert false;
      }
      Split2(t, p);
      Extend(t, p[..|p| - 2], p[|p| - 2], Leaf);
    }
  }

  /** When the loop of `fixInsert` stops, because `current` is the root
      or its parent is black, painting the root black finishes the
      repair. */
  lemma InsertExit(a: map<Ref, RbSlot>, r: Ref, t: RbTree, p: seq<Turn>, current: Ref, parent: Ref)
    requires Holds(a, r, NIL, t) && NIL !in a && RbInsertSpec.InsertInvariant(t, p)
    requires current == RefAt(a, r, NIL, t, p) && parent == Up(a, r, NIL, t, p)
    requires current == r || !RedSlot(a, parent)
    ensures p == [] || !RbSpec.IsRed(SubAt(t, p[..|p| - 1]))
  {
    if p != [] {
      Beneath(a, r, NIL, t, p);
      SlotColour(a, parent, ParentOf(a, parent), SubAt(t, p[..|p| - 1]));
    }
  }

  /** When the loop of `fixDelete` stops, because `current` is the root
      or red, painting `current` black finishes the repair. */
  lemma DeleteExit(a: map<Ref, RbSlot>, r: Ref, t: RbTree, p: seq<Turn>, current: Ref)
    requires Holds(a, r, NIL, t) && NIL !in a && ValidPath(t, p) && current == RefAt(a, r, NIL, t, p)
    requires current == r || RedSlot(a, current)
    ensures p == [] || RbSpec.IsRed(SubAt(t, p))
  {
    if p != [] {
      Beneath(a, r, NIL, t, p);
      SlotColour(a, current, ParentOf(a, current), SubAt(t, p));
      if r == NIL {
        LeafPath(p);
      }
    }
  }

  /** Before case 3 of `fixInsert`, on the slots: `current` is the outer
      grandchild, on side `d1` of `parent`, itself red on side `d1` of the
      grandparent at `gp`, whose other child is black. */
  ghost predicate OuterOn(a: map<Ref, RbSlot>, r: Ref, t: RbTree, current: Ref, parent: Ref, grandParent: Ref,
                          gp: seq<Turn>, d1: Turn)
  {
    Holds(a, r, NIL, t) && NIL !in a && ValidPath(t, gp) && SubAt(t, gp).Branch? && Child(SubAt(t, gp), d1).Branch? &&
    RbSpec.IsRed(Child(SubAt(t, gp), d1)) && !RbSpec.IsRed(Child(SubAt(t, gp), !d1)) &&
    ValidPath(t, gp + [d1]) && RbInsertSpec.InsertInvariant(t, gp + [d1, d1]) &&
    current == RefAt(a, r, NIL, t, gp + [d1, d1]) &&
    parent == RefAt(a, r, NIL, t, gp + [d1]) && grandParent == RefAt(a, r, NIL, t, gp)
  }

  /** Case 2 of `fixInsert` on the slots: the rotation at the parent
      `x`, the node at `gp + [d1]`, lifts the inner grandchild. The old
      parent is then the outer grandchild, and its `parent` link and that
      of its new parent reach the new parent and the grandparent. */
  lemma InnerArena(a: map<Ref, RbSlot>, r: Ref, t: RbTree, gp: seq<Turn>, d1: Turn)
    requires Holds(a, r, NIL, t) && NIL !in a && ValidPath(t, gp) && SubAt(t, gp).Branch? && Child(SubAt(t, gp), d1).Branch?
    requires RbInsertSpec.InsertInvariant(t, gp + [d1, !d1])
    requires RbSpec.IsRed(Child(SubAt(t, gp), d1)) && !RbSpec.IsRed(Child(SubAt(t, gp), !d1))
    ensures ValidPath(t, gp + [d1])
    ensures var x := RefAt(a, r, NIL, t, gp + [d1]);
      Rotatable(a, x, !d1) && a[x].parent != NIL &&
      var c := Rotated(a, x, !d1);
      var t1 := ReplaceAt(t, gp + [d1], Lift(SubAt(t, gp + [d1]), !d1));
      x in c && c[x].parent in c &&
      OuterOn(c, r, t1, x, c[x].parent, c[c[x].parent].parent, gp, d1) &&
      c.Keys == a.Keys && BinaryTree.InOrder(Shape(t1)) == BinaryTree.InOrder(Shape(t))
  {
    var q := gp + [d1];
    RbInsertSpec.InsertInner(t, gp, d1);
    Extend(t, q, !d1, Leaf);
    assert q + [!d1] == gp + [d1, !d1];
    Step(a, r, NIL, t, gp, d1);
    RotateHolds(a, r, t, q, !d1);
    var x := RefAt(a, r, NIL, t, q);
    var c := Rotated(a, x, !d1);
    var t1 := ReplaceAt(t, q, Lift(SubAt(t, q), !d1));
    Step(c, r, NIL, t1, gp, d1);
    Step(c, r, NIL, t1, q, d1);
    assert q + [d1] == gp + [d1, d1];
    ParentIsUp(c, r, NIL, t1, q + [d1]);
    ParentIsUp(c, r, NIL, t1, q);
  }
}
