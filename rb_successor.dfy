/** The two-children case of `delete` on the arena: the in-order
    successor `y` of the node `z` (the leftmost node of its right subtree)
    is unlinked, its right child taking its place, and then takes the
    place of `z`, with `z`'s children and colour. */
module RbSuccessor {
  import opened RbSpec
  import opened RbNode
  import opened RbArena
  import opened RbReplace

  /** `x.parent = p` on the slots; when `x` is the sentinel that write
      goes to the tree's own field for the sentinel's `parent`. */
  function ParentSet(a: map<Ref, RbSlot>, x: Ref, p: Ref): map<Ref, RbSlot>
    requires x == NIL || x in a
  {
    if x == NIL then a else Reparented(a, x, p)
  }

  /** The writes before `ReplaceSubTree(nodeToDelete, successor)`: when
      the successor `y` is not the right child of `z`, it is replaced by
      its right child and takes `z`'s right subtree; then the right child
      of `y` gets `y` as its parent. */
  function SuccessorRight(a: map<Ref, RbSlot>, z: Ref, y: Ref): map<Ref, RbSlot>
    requires z in a && y in a && z != y
    requires a[y].parent == NIL || a[y].parent in a
    requires a[y].right == NIL || a[y].right in a
    requires a[z].right == NIL || a[z].right in a
    requires a[y].parent != z ==> a[y].parent != y && a[y].right != z
  {
    if a[y].parent != z then
      var a1 := Replaced(a, y, a[y].right);
      var a2 := a1[y := a1[y].(right := a1[z].right)];
      ParentSet(a2, a2[y].right, y)
    else ParentSet(a, a[y].right, y)
  }

  /** The writes from `ReplaceSubTree(nodeToDelete, successor)` on: `y`
      takes the place of `z` below `z`'s parent, takes `z`'s left
      subtree, and takes `z`'s colour by `transferColor`. */
  function SuccessorJoined(a: map<Ref, RbSlot>, z: Ref, y: Ref): map<Ref, RbSlot>
    requires z in a && y in a && z != y
    requires a[z].parent == NIL || a[z].parent in a
    requires a[z].parent != z && a[z].left in a
  {
    var a4 := Replaced(a, z, y);
    var a5 := a4[y := a4[y].(left := a4[z].left)];
    var a6 := ParentSet(a5, a5[y].left, y);
    Painted(a6, y, a6[z].black)
  }

  /** A descent along `q` and then along `w` meets what a descent along
      `w` from the node at `q` meets. */
  lemma {:induction false} RefAtConcat(a: map<Ref, RbSlot>, r: Ref, rp: Ref, t: RbTree, q: seq<Turn>, w: seq<Turn>, xp: Ref)
    requires Holds(a, r, rp, t) && ValidPath(t, q) && ValidPath(SubAt(t, q), w)
    requires Holds(a, RefAt(a, r, rp, t, q), xp, SubAt(t, q))
    ensures ValidPath(t, q + w) && SubAt(t, q + w) == SubAt(SubAt(t, q), w)
    ensures RefAt(a, r, rp, t, q + w) == RefAt(a, RefAt(a, r, rp, t, q), xp, SubAt(t, q), w)
    ensures w != [] ==> Up(a, r, rp, t, q + w) == Up(a, RefAt(a, r, rp, t, q), xp, SubAt(t, q), w)
    decreases |w|
  {
    PathConcat(t, q, w, Leaf);
    if w == [] {
      assert q + w == q;
    } else {
      var w1 := w[..|w| - 1];
      assert (q + w)[..|q + w| - 1] == q + w1;
      assert (q + w)[|q + w| - 1] == w[|w| - 1];
      PathConcat(t, q, w1, Leaf);
      RefAtConcat(a, r, rp, t, q, w1, xp);
    }
  }

  /** Descents in two arenas whose child links agree on the slots of a
      held subtree meet the same slots, whatever the parent links of the
      subtree's root. */
  lemma {:induction false} RefAtOn(a: map<Ref, RbSlot>, b: map<Ref, RbSlot>, r: Ref, p: Ref, p': Ref, t: RbTree, w: seq<Turn>)
    requires Holds(a, r, p, t) && Holds(b, r, p', t) && ValidPath(t, w)
    requires forall q :: q in Refs(a, r, t) ==> q in a && q in b && b[q].left == a[q].left && b[q].right == a[q].right
    ensures RefAt(b, r, p', t, w) == RefAt(a, r, p, t, w)
    ensures w != [] ==> Up(b, r, p', t, w) == Up(a, r, p, t, w)
    decreases |w|
  {
    if w != [] {
      var w1 := w[..|w| - 1];
      RefAtOn(a, b, r, p, p', t, w1);
      var x := RefAt(a, r, p, t, w1);
      RefsInside(a, x, ParentOf(a, x), SubAt(t, w1));
    }
  }

  /** The successor is the right child of `z`: its right child already
      has it as parent, so the writes before `ReplaceSubTree` change
      nothing. */
  lemma RightPartNear(a: map<Ref, RbSlot>, z: Ref, zp: Ref, zt: RbTree, y: Ref)
    requires Holds(a, z, zp, zt) && zt.Branch? && zt.right.Branch? && zt.right.left == Leaf
    requires y == a[z].right
    ensures y in a && z != y && a[y].parent == z && (a[y].right == NIL || a[y].right in a) && a[z].right in a
    ensures SuccessorRight(a, z, y) == a
    ensures Holds(a, a[y].right, y, zt.right.right)
    ensures Refs(a, a[y].right, zt.right.right) <= Refs(a, y, zt.right) - {y}
  {
    RefsSplit(a, z, zp, zt, GoRight);
    RefsSplit(a, y, z, zt.right, GoRight);
    var x := a[y].right;
    if x != NIL {
      assert a[x].(parent := y) == a[x];
      assert Reparented(a, x, y) == a;
    }
  }

  /** The slots around the successor `y` deep below the right child of
      `z`: its parent `yp` and its right child `x`, all in the right
      subtree of `z`, and apart from each other. */
  lemma DeepFacts(a: map<Ref, RbSlot>, z: Ref, zp: Ref, zt: RbTree, y: Ref, ys: seq<Turn>)
    requires Holds(a, z, zp, zt) && zt.Branch? && zt.left.Branch? && zt.right.Branch? && ys != []
    requires ValidPath(zt.right, ys) && SubAt(zt.right, ys).Branch?
    requires y == RefAt(a, a[z].right, z, zt.right, ys)
    ensures var R, Y := zt.right, SubAt(zt.right, ys); var zr := a[z].right;
      y in a && z in a && y != z && zr in a && zr in Refs(a, zr, R) &&
      a[y].parent in a && a[y].parent in Refs(a, zr, R) && a[y].parent != z && a[y].parent != y &&
      (a[y].right == NIL || a[y].right in a) && a[y].right != z && a[y].right != a[y].parent &&
      y in Refs(a, zr, R) && y !in Refs(a, a[y].right, Y.right) &&
      Refs(a, a[y].right, Y.right) <= Refs(a, y, Y) && Refs(a, y, Y) <= Refs(a, zr, R) &&
      a[y].parent == Up(a, zr, z, R, ys) && a[y].parent !in Refs(a, y, Y) &&
      Holds(a, a[y].right, y, Y.right) &&
      z !in Refs(a, zr, R) && Refs(a, zr, R) !! Refs(a, a[z].left, zt.left) && a[z].left in a
  {
    var R, Y := zt.right, SubAt(zt.right, ys);
    var zr := a[z].right;
    RefsSplit(a, z, zp, zt, GoRight);
    RefsInside(a, zr, z, R);
    ParentIsUp(a, zr, z, R, ys);
    var yp := a[y].parent;
    var up := ys[..|ys| - 1];
    RefsSplit(a, yp, ParentOf(a, yp), SubAt(R, up), ys[|ys| - 1]);
    RefsSplit(a, y, yp, Y, GoRight);
  }

  /** The successor `y` below the right child of `z`: after
      `ReplaceSubTree(successor, successor.right)` the right subtree of
      `z` is held without `y`, the descent to `y`'s place meeting its old
      right child below `y`'s old parent. */
  lemma DeepSplice(a: map<Ref, RbSlot>, z: Ref, zp: Ref, zt: RbTree, y: Ref, ys: seq<Turn>)
    requires Holds(a, z, zp, zt) && zt.Branch? && zt.left.Branch? && zt.right.Branch? && ys != []
    requires ValidPath(zt.right, ys) && SubAt(zt.right, ys).Branch? && SubAt(zt.right, ys).left == Leaf
    requires y == RefAt(a, a[z].right, z, zt.right, ys)
    ensures y in a && z in a && y != z && a[y].parent in a && (a[y].right == NIL || a[y].right in a)
    ensures a[y].parent != z && a[z].right in a && a[y].parent != y && a[y].right != z
    ensures var R, Y := zt.right, SubAt(zt.right, ys); var zr := a[z].right;
      var a1 := Replaced(a, y, a[y].right); var R' := ReplaceAt(R, ys, Y.right);
      Holds(a1, zr, z, R') && ValidPath(R', ys) && R'.Branch? &&
      RefAt(a1, zr, z, R', ys) == a[y].right && Up(a1, zr, z, R', ys) == a[y].parent &&
      Refs(a1, zr, R') <= Refs(a, zr, R) - {y} &&
      (forall q :: q in a && q !in Refs(a, zr, R) ==> q in a1 && a1[q] == a[q]) &&
      a1[y] == a[y] && a1[z] == a[z]
  {
    var R, Y := zt.right, SubAt(zt.right, ys);
    var zr := a[z].right;
    DeepFacts(a, z, zp, zt, y, ys);
    var yp := a[y].parent;
    var x := a[y].right;
    var X := Y.right;
    var b0 := ParentSet(a, x, yp);
    if x != NIL {
      Reparent(a, x, y, yp, X);
    }
    TurnOf(a, zr, z, R, ys);
    ReplacedIsLink(a, y, x, ys[|ys| - 1]);
    Splice(a, b0, zr, z, R, ys, x, X);
    RootKept(R, ys, X);
  }

  /** After the successor `y` deep below the right child of `z` is
      unlinked, `successor.right = nodeToDelete.right` and
      `successor.right.parent = successor` make the right subtree of `z`,
      without `y`, hang below `y`. */
  lemma RightPartDeep(a: map<Ref, RbSlot>, z: Ref, zp: Ref, zt: RbTree, y: Ref, ys: seq<Turn>)
    requires Holds(a, z, zp, zt) && zt.Branch? && zt.left.Branch? && zt.right.Branch? && ys != []
    requires ValidPath(zt.right, ys) && SubAt(zt.right, ys).Branch? && SubAt(zt.right, ys).left == Leaf
    requires y == RefAt(a, a[z].right, z, zt.right, ys)
    ensures y in a && z in a && z != y && (a[y].parent == NIL || a[y].parent in a) && a[y].parent != z
    ensures (a[y].right == NIL || a[y].right in a) && a[z].right in a && a[y].parent != y && a[y].right != z
    ensures var R, Y := zt.right, SubAt(zt.right, ys); var zr := a[z].right;
      var b := SuccessorRight(a, z, y); var R' := ReplaceAt(R, ys, Y.right);
      Holds(b, zr, y, R') && ValidPath(R', ys) && Refs(b, zr, R') <= Refs(a, zr, R) - {y}
  {
    var R, Y := zt.right, SubAt(zt.right, ys);
    var zr := a[z].right;
    DeepSplice(a, z, zp, zt, y, ys);
    var a1 := Replaced(a, y, a[y].right);
    var R' := ReplaceAt(R, ys, Y.right);
    var a2 := a1[y := a1[y].(right := zr)];
    assert Holds(a2, zr, z, R') && Refs(a2, zr, R') == Refs(a1, zr, R') by {
      RefsInside(a1, zr, z, R');
      Frame(a1, a2, zr, z, R');
    }
    var b := Reparented(a2, zr, y);
    assert Holds(b, zr, y, R') && Refs(b, zr, R') == Refs(a1, zr, R') by {
      Reparent(a2, zr, z, y, R');
    }
    assert b == SuccessorRight(a, z, y);
  }

  /** Below the new right child of `y`, the path to the old place of `y`
      leads to the old right child of `y`, under the old parent of `y`. */
  lemma RightPartDeepPath(a: map<Ref, RbSlot>, z: Ref, zp: Ref, zt: RbTree, y: Ref, ys: seq<Turn>)
    requires Holds(a, z, zp, zt) && zt.Branch? && zt.left.Branch? && zt.right.Branch? && ys != []
    requires ValidPath(zt.right, ys) && SubAt(zt.right, ys).Branch? && SubAt(zt.right, ys).left == Leaf
    requires y == RefAt(a, a[z].right, z, zt.right, ys)
    requires y in a && z in a && z != y && (a[y].parent == NIL || a[y].parent in a) && a[y].parent != z
    requires (a[y].right == NIL || a[y].right in a) && a[z].right in a && a[y].parent != y && a[y].right != z
    requires var R' := ReplaceAt(zt.right, ys, SubAt(zt.right, ys).right);
      Holds(SuccessorRight(a, z, y), a[z].right, y, R') && ValidPath(R', ys)
    ensures var R, Y := zt.right, SubAt(zt.right, ys); var zr := a[z].right;
      var b := SuccessorRight(a, z, y); var R' := ReplaceAt(R, ys, Y.right);
      RefAt(b, zr, y, R', ys) == a[y].right && Up(b, zr, y, R', ys) == a[y].parent
  {
    var R, Y := zt.right, SubAt(zt.right, ys);
    var zr := a[z].right;
    DeepSplice(a, z, zp, zt, y, ys);
    var a1 := Replaced(a, y, a[y].right);
    var R' := ReplaceAt(R, ys, Y.right);
    RefsInside(a1, zr, z, R');
    RefAtOn(a1, SuccessorRight(a, z, y), zr, z, y, R', ys);
  }

  /** The slots those writes touch: `y`, and slots of the right subtree of
      `z` only. */
  lemma RightPartDeepSlots(a: map<Ref, RbSlot>, z: Ref, zp: Ref, zt: RbTree, y: Ref, ys: seq<Turn>)
    requires Holds(a, z, zp, zt) && zt.Branch? && zt.left.Branch? && zt.right.Branch? && ys != []
    requires ValidPath(zt.right, ys) && SubAt(zt.right, ys).Branch? && SubAt(zt.right, ys).left == Leaf
    requires y == RefAt(a, a[z].right, z, zt.right, ys)
    requires y in a && z in a && z != y && (a[y].parent == NIL || a[y].parent in a) && a[y].parent != z
    requires (a[y].right == NIL || a[y].right in a) && a[z].right in a && a[y].parent != y && a[y].right != z
    ensures var R, zr := zt.right, a[z].right; var b := SuccessorRight(a, z, y);
      (forall q :: q in a && q !in Refs(a, zr, R) ==> q in b && b[q] == a[q]) &&
      b.Keys == a.Keys && b[y] == a[y].(right := zr) && y in Refs(a, zr, R)
  {
    DeepFacts(a, z, zp, zt, y, ys);
    DeepSplice(a, z, zp, zt, y, ys);
  }

  /** The slots `SuccessorJoined` writes: `z`'s parent, `y`, and `z`'s
      left child. */
  lemma JoinedSlots(a: map<Ref, RbSlot>, z: Ref, y: Ref)
    requires z in a && y in a && z != y && y != NIL
    requires a[z].parent == NIL || (a[z].parent in a && a[z].parent != y)
    requires a[z].parent != z && a[z].left in a && a[z].left != NIL
    requires a[z].left != y && a[z].left != a[z].parent && a[z].left != z
    ensures var b := SuccessorJoined(a, z, y); var zp, zl := a[z].parent, a[z].left;
      b.Keys == a.Keys &&
      b[y] == a[y].(left := zl, parent := zp, black := a[z].black) &&
      b[zl] == a[zl].(parent := y) &&
      (zp != NIL ==> b[zp] == WithLink(a[zp], z == a[zp].left, y)) &&
      (forall q :: q in a && q != y && q != zl && q != zp ==> b[q] == a[q])
  {
    var zp, zl := a[z].parent, a[z].left;
    var a4 := Replaced(a, z, y);
    assert a4[z] == a[z] && a4[zl] == a[zl];
    assert a4[y] == a[y].(parent := zp);
  }

  /** Below `y`, `SuccessorJoined` keeps the right part `c` whole. */
  lemma JoinRight(a: map<Ref, RbSlot>, b3: map<Ref, RbSlot>, z: Ref, zp: Ref, zt: RbTree, y: Ref, c: Ref, R': RbTree)
    requires Holds(a, z, zp, zt) && zt.Branch? && zt.left.Branch? && zt.right.Branch?
    requires zp == NIL || (zp in a && zp !in Refs(a, z, zt))
    requires y in a && y in Refs(a, a[z].right, zt.right)
    requires Holds(b3, c, y, R') && Refs(b3, c, R') <= Refs(a, a[z].right, zt.right) - {y}
    requires forall q :: q in a && q !in Refs(a, a[z].right, zt.right) ==> q in b3 && b3[q] == a[q]
    requires b3.Keys == a.Keys && b3[y] == a[y].(right := c)
    ensures z in b3 && y in b3 && z != y && (b3[z].parent == NIL || b3[z].parent in b3)
    ensures b3[z].parent != z && b3[z].left in b3 && b3[z] == a[z]
    ensures var b := SuccessorJoined(b3, z, y);
      y in b && b[y] == a[y].(right := c, left := a[z].left, parent := zp, black := zt.black) &&
      Holds(b, c, y, R') && Refs(b, c, R') == Refs(b3, c, R')
  {
    RefsSplit(a, z, zp, zt, GoLeft);
    RefsInside(a, a[z].left, z, zt.left);
    RefsInside(b3, c, y, R');
    JoinedSlots(b3, z, y);
    Frame(b3, SuccessorJoined(b3, z, y), c, y, R');
  }

  /** On a set `S` of slots holding `z`'s left child but neither `y` nor
      `z`'s parent, and agreeing between `a` and `b3`, `SuccessorJoined`
      only reparents that child to `y`. */
  lemma JoinedOn(a: map<Ref, RbSlot>, b3: map<Ref, RbSlot>, z: Ref, y: Ref, S: set<Ref>)
    requires z in b3 && y in b3 && z != y && y != NIL
    requires b3[z].parent == NIL || (b3[z].parent in b3 && b3[z].parent != y)
    requires b3[z].parent != z && b3[z].left in b3 && b3[z].left != NIL
    requires b3[z].left != y && b3[z].left != b3[z].parent && b3[z].left != z
    requires b3[z].left in S && y !in S && b3[z].parent !in S
    requires forall q :: q in S ==> q in a && q in b3 && b3[q] == a[q]
    ensures forall q :: q in S ==>
      q in a && q in SuccessorJoined(b3, z, y) && SuccessorJoined(b3, z, y)[q] == Reparented(a, b3[z].left, y)[q]
  {
    JoinedSlots(b3, z, y);
  }

  /** A subtree whose slots `b` holds as `a` does but for its root's
      parent, now `y`, hangs below `y` in `b`. */
  lemma LeftMoved(a: map<Ref, RbSlot>, b: map<Ref, RbSlot>, zl: Ref, z: Ref, L: RbTree, y: Ref)
    requires Holds(a, zl, z, L) && L.Branch?
    requires forall q :: q in Refs(a, zl, L) ==> q in a && q in b && b[q] == Reparented(a, zl, y)[q]
    ensures Holds(b, zl, y, L) && Refs(b, zl, L) == Refs(a, zl, L)
  {
    Reparent(a, zl, z, y, L);
    Frame(Reparented(a, zl, y), b, zl, y, L);
  }

  /** The links of `SuccessorJoined` once the right part `c` hangs below
      `y`: the node `y` holds with `z`'s left subtree and `c`'s. */
  lemma JoinHolds(a: map<Ref, RbSlot>, b3: map<Ref, RbSlot>, z: Ref, zp: Ref, zt: RbTree, y: Ref, c: Ref, R': RbTree)
    requires Holds(a, z, zp, zt) && zt.Branch? && zt.left.Branch? && zt.right.Branch?
    requires zp == NIL || (zp in a && zp !in Refs(a, z, zt))
    requires y in a && y in Refs(a, a[z].right, zt.right)
    requires Holds(b3, c, y, R') && Refs(b3, c, R') <= Refs(a, a[z].right, zt.right) - {y}
    requires forall q :: q in a && q !in Refs(a, a[z].right, zt.right) ==> q in b3 && b3[q] == a[q]
    requires b3.Keys == a.Keys && b3[y] == a[y].(right := c)
    ensures z in b3 && y in b3 && z != y && (b3[z].parent == NIL || b3[z].parent in b3)
    ensures b3[z].parent != z && b3[z].left in b3 && b3[z] == a[z]
    ensures var b := SuccessorJoined(b3, z, y); var N := Branch(zt.black, zt.left, a[y].key, R');
      Holds(b, y, zp, N) && Refs(b, y, N) <= Refs(a, z, zt)
  {
    JoinRight(a, b3, z, zp, zt, y, c, R');
    var zl, L := a[z].left, zt.left;
    RefsSplit(a, z, zp, zt, GoLeft);
    RefsInside(a, zl, z, L);
    JoinedOn(a, b3, z, y, Refs(a, zl, L));
    LeftMoved(a, SuccessorJoined(b3, z, y), zl, z, L, y);
    Join(SuccessorJoined(b3, z, y), y, zp, zt.left, R');
  }

  /** The slots `SuccessorJoined` leaves alone once the right part `c`
      hangs below `y`: those outside `z`'s subtree but for `z`'s parent. */
  lemma JoinOutside(a: map<Ref, RbSlot>, b3: map<Ref, RbSlot>, z: Ref, zp: Ref, zt: RbTree, y: Ref, c: Ref, R': RbTree)
    requires Holds(a, z, zp, zt) && zt.Branch? && zt.left.Branch? && zt.right.Branch?
    requires zp == NIL || (zp in a && zp !in Refs(a, z, zt))
    requires y in a && y in Refs(a, a[z].right, zt.right)
    requires Holds(b3, c, y, R') && Refs(b3, c, R') <= Refs(a, a[z].right, zt.right) - {y}
    requires forall q :: q in a && q !in Refs(a, a[z].right, zt.right) ==> q in b3 && b3[q] == a[q]
    requires b3.Keys == a.Keys && b3[y] == a[y].(right := c)
    requires z in b3 && y in b3 && z != y && (b3[z].parent == NIL || b3[z].parent in b3)
    requires b3[z].parent != z && b3[z].left in b3 && b3[z] == a[z]
    ensures var b := SuccessorJoined(b3, z, y);
      b.Keys == a.Keys && b[y].right == c &&
      (forall q :: q in a && q !in Refs(a, z, zt) && q != zp ==> q in b && b[q] == a[q]) &&
      (zp != NIL ==> b[zp] == WithLink(a[zp], z == a[zp].left, y))
  {
    RefsSplit(a, z, zp, zt, GoLeft);
    RefsInside(a, a[z].left, z, zt.left);
    JoinedSlots(b3, z, y);
  }

  /** ... and those of the subtree of `c`. */
  lemma JoinInside(a: map<Ref, RbSlot>, b3: map<Ref, RbSlot>, z: Ref, zp: Ref, zt: RbTree, y: Ref, c: Ref, R': RbTree)
    requires Holds(a, z, zp, zt) && zt.Branch? && zt.left.Branch? && zt.right.Branch?
    requires zp == NIL || (zp in a && zp !in Refs(a, z, zt))
    requires y in a && y in Refs(a, a[z].right, zt.right)
    requires Holds(b3, c, y, R') && Refs(b3, c, R') <= Refs(a, a[z].right, zt.right) - {y}
    requires forall q :: q in a && q !in Refs(a, a[z].right, zt.right) ==> q in b3 && b3[q] == a[q]
    requires b3.Keys == a.Keys && b3[y] == a[y].(right := c)
    requires z in b3 && y in b3 && z != y && (b3[z].parent == NIL || b3[z].parent in b3)
    requires b3[z].parent != z && b3[z].left in b3 && b3[z] == a[z]
    ensures var b := SuccessorJoined(b3, z, y);
      forall q :: q in Refs(b3, c, R') ==> q in b && b[q] == b3[q]
  {
    RefsSplit(a, z, zp, zt, GoLeft);
    RefsInside(a, a[z].left, z, zt.left);
    RefsInside(b3, c, y, R');
    JoinedSlots(b3, z, y);
  }

  /** `ReplaceSubTree(nodeToDelete, successor)`, `successor.left =
      nodeToDelete.left`, `successor.left.parent = successor` and
      `transferColor(nodeToDelete, successor)`: once the right part `c`
      hangs below `y`, `y` holds `z`'s node with `y`'s key, below `z`'s
      parent. Outside the subtree of `z` only that parent changes, its
      link to `z` now leading to `y`. */
  lemma LocalJoin(a: map<Ref, RbSlot>, b3: map<Ref, RbSlot>, z: Ref, zp: Ref, zt: RbTree, y: Ref, c: Ref, R': RbTree)
    requires Holds(a, z, zp, zt) && zt.Branch? && zt.left.Branch? && zt.right.Branch?
    requires zp == NIL || (zp in a && zp !in Refs(a, z, zt))
    requires y in a && y in Refs(a, a[z].right, zt.right)
    requires Holds(b3, c, y, R') && Refs(b3, c, R') <= Refs(a, a[z].right, zt.right) - {y}
    requires forall q :: q in a && q !in Refs(a, a[z].right, zt.right) ==> q in b3 && b3[q] == a[q]
    requires b3.Keys == a.Keys && b3[y] == a[y].(right := c)
    ensures z in b3 && y in b3 && z != y && (b3[z].parent == NIL || b3[z].parent in b3)
    ensures b3[z].parent != z && b3[z].left in b3 && b3[z] == a[z]
    ensures var b := SuccessorJoined(b3, z, y); var N := Branch(zt.black, zt.left, a[y].key, R');
      Holds(b, y, zp, N) && Refs(b, y, N) <= Refs(a, z, zt) && b.Keys == a.Keys && b[y].right == c &&
      (forall q :: q in Refs(b3, c, R') ==> q in b && b[q] == b3[q]) &&
      (forall q :: q in a && q !in Refs(a, z, zt) && q != zp ==> q in b && b[q] == a[q]) &&
      (zp != NIL ==> b[zp] == WithLink(a[zp], z == a[zp].left, y))
  {
    JoinHolds(a, b3, z, zp, zt, y, c, R');
    JoinOutside(a, b3, z, zp, zt, y, c, R');
    JoinInside(a, b3, z, zp, zt, y, c, R');
  }

  /** The writes of the two-children case below the parent of `z`: `y`
      holds `z`'s node with `y`'s key and, as its right subtree, the old
      one without `y`, in which the descent to `y`'s old place now meets
      `y`'s old right child. */
  lemma SuccessorLocal(a: map<Ref, RbSlot>, z: Ref, zp: Ref, zt: RbTree, y: Ref, ys: seq<Turn>)
    requires Holds(a, z, zp, zt) && zt.Branch? && zt.left.Branch? && zt.right.Branch?
    requires zp == NIL || (zp in a && zp !in Refs(a, z, zt))
    requires ValidPath(zt.right, ys) && SubAt(zt.right, ys).Branch? && SubAt(zt.right, ys).left == Leaf
    requires y == RefAt(a, a[z].right, z, zt.right, ys)
    ensures y in a && z in a && z != y && (a[y].parent == NIL || a[y].parent in a)
    ensures (a[y].right == NIL || a[y].right in a) && a[z].right in a
    ensures a[y].parent != z ==> a[y].parent != y && a[y].right != z
    ensures a[y].parent == z <==> ys == []
    ensures ys != [] ==> a[y].parent != NIL
    ensures var b3 := SuccessorRight(a, z, y);
      z in b3 && y in b3 && (b3[z].parent == NIL || b3[z].parent in b3) && b3[z].parent != z && b3[z].left in b3 &&
      b3[z] == a[z]
    ensures var b := SuccessorJoined(SuccessorRight(a, z, y), z, y); var Y := SubAt(zt.right, ys);
      var R' := ReplaceAt(zt.right, ys, Y.right); var N := Branch(zt.black, zt.left, a[y].key, R');
      var c := if ys == [] then a[y].right else a[z].right;
      Holds(b, y, zp, N) && Refs(b, y, N) <= Refs(a, z, zt) && b.Keys == a.Keys && b[y].right == c &&
      (forall q :: q in a && q !in Refs(a, z, zt) && q != zp ==> q in b && b[q] == a[q]) &&
      (zp != NIL ==> b[zp] == WithLink(a[zp], z == a[zp].left, y)) &&
      Holds(b, c, y, R') && ValidPath(R', ys) && RefAt(b, c, y, R', ys) == a[y].right &&
      (ys != [] ==> Up(b, c, y, R', ys) == a[y].parent)
  {
    var R, Y := zt.right, SubAt(zt.right, ys);
    var R' := ReplaceAt(R, ys, Y.right);
    RefsSplit(a, z, zp, zt, GoRight);
    if ys == [] {
      RightPartNear(a, z, zp, zt, y);
      RefsInside(a, y, z, R);
      var b3 := SuccessorRight(a, z, y);
      LocalJoin(a, b3, z, zp, zt, y, a[y].right, R');
    } else {
      RightPartDeep(a, z, zp, zt, y, ys);
      RightPartDeepPath(a, z, zp, zt, y, ys);
      RightPartDeepSlots(a, z, zp, zt, y, ys);
      var b3 := SuccessorRight(a, z, y);
      LocalJoin(a, b3, z, zp, zt, y, a[z].right, R');
      var b := SuccessorJoined(b3, z, y);
      RefsInside(b3, a[z].right, y, R');
      Frame(b3, b, a[z].right, y, R');
      RefAtOn(b3, b, a[z].right, y, y, R', ys);
    }
  }

  /** The node `z` at `pz` and its parent, seen from the arena. */
  lemma NodeFacts(a: map<Ref, RbSlot>, r: Ref, t: RbTree, pz: seq<Turn>)
    requires Holds(a, r, NIL, t) && ValidPath(t, pz) && SubAt(t, pz).Branch?
    ensures var z := RefAt(a, r, NIL, t, pz); var zp := ParentOf(a, z);
      z in a && zp == a[z].parent && Holds(a, z, zp, SubAt(t, pz)) && (zp == NIL <==> pz == []) &&
      (zp == NIL || (zp in a && zp !in Refs(a, z, SubAt(t, pz)))) &&
      (pz != [] ==> zp == Up(a, r, NIL, t, pz) && (z == a[zp].left <==> pz[|pz| - 1]))
  {
    var z := RefAt(a, r, NIL, t, pz);
    ParentIsUp(a, r, NIL, t, pz);
    RefsInside(a, z, ParentOf(a, z), SubAt(t, pz));
    if pz != [] {
      var up := pz[..|pz| - 1];
      var zp := a[z].parent;
      RefsInside(a, zp, ParentOf(a, zp), SubAt(t, up));
      TurnOf(a, r, NIL, t, pz);
      RefsSplit(a, zp, ParentOf(a, zp), SubAt(t, up), pz[|pz| - 1]);
    }
  }

  /** When `b` rebuilds the subtree at `pz` at `y`, over its own slots,
      and relinks the node above it to `y`, `b` holds the tree with that
      subtree replaced. */
  lemma SpliceBelow(a: map<Ref, RbSlot>, b: map<Ref, RbSlot>, r: Ref, t: RbTree, pz: seq<Turn>, y: Ref, N: RbTree)
    requires Holds(a, r, NIL, t) && ValidPath(t, pz) && pz != [] && Up(a, r, NIL, t, pz) in a
    requires Up(a, r, NIL, t, pz) !in Refs(a, RefAt(a, r, NIL, t, pz), SubAt(t, pz))
    requires Holds(b, y, Up(a, r, NIL, t, pz), N)
    requires Refs(b, y, N) <= Refs(a, RefAt(a, r, NIL, t, pz), SubAt(t, pz))
    requires forall q :: q in a && q !in Refs(a, RefAt(a, r, NIL, t, pz), SubAt(t, pz)) && q != Up(a, r, NIL, t, pz) ==>
      q in b && b[q] == a[q]
    requires Up(a, r, NIL, t, pz) in b
    requires b[Up(a, r, NIL, t, pz)] == WithLink(a[Up(a, r, NIL, t, pz)], pz[|pz| - 1], y)
    ensures Holds(b, r, NIL, ReplaceAt(t, pz, N)) && ValidPath(ReplaceAt(t, pz, N), pz)
    ensures SubAt(ReplaceAt(t, pz, N), pz) == N && RefAt(b, r, NIL, ReplaceAt(t, pz, N), pz) == y
  {
    var zp := Up(a, r, NIL, t, pz);
    var bx := b[zp := a[zp]];
    RefsInside(b, y, zp, N);
    Frame(b, bx, y, zp, N);
    Splice(a, bx, r, NIL, t, pz, y, N);
    LinkBack(b, zp, a[zp], pz[|pz| - 1], y);
  }

  /** The two-children case of `delete` down to `y`'s new place: the
      arena holds the tree with the subtree at `pz` rebuilt at `y`. */
  lemma SuccessorTop(a: map<Ref, RbSlot>, r: Ref, t: RbTree, pz: seq<Turn>, ys: seq<Turn>)
    requires Holds(a, r, NIL, t) && ValidPath(t, pz)
    requires SubAt(t, pz).Branch? && SubAt(t, pz).left.Branch? && SubAt(t, pz).right.Branch?
    requires ValidPath(SubAt(t, pz).right, ys) && SubAt(SubAt(t, pz).right, ys).Branch?
    requires SubAt(SubAt(t, pz).right, ys).left == Leaf
    ensures var z := RefAt(a, r, NIL, t, pz); z in a && Holds(a, a[z].right, z, SubAt(t, pz).right)
    ensures var z := RefAt(a, r, NIL, t, pz); var y := RefAt(a, a[z].right, z, SubAt(t, pz).right, ys);
      z in a && y in a && z != y && (a[y].parent == NIL || a[y].parent in a) &&
      (a[y].right == NIL || a[y].right in a) && a[z].right in a &&
      (a[y].parent != z ==> a[y].parent != y && a[y].right != z)
    ensures var z := RefAt(a, r, NIL, t, pz); var y := RefAt(a, a[z].right, z, SubAt(t, pz).right, ys);
      var b3 := SuccessorRight(a, z, y);
      z in b3 && y in b3 && (b3[z].parent == NIL || b3[z].parent in b3) && b3[z].parent != z && b3[z].left in b3 &&
      b3[z] == a[z]
    ensures var z := RefAt(a, r, NIL, t, pz); var y := RefAt(a, a[z].right, z, SubAt(t, pz).right, ys);
      var zt := SubAt(t, pz); var Y := SubAt(zt.right, ys);
      var b := SuccessorJoined(SuccessorRight(a, z, y), z, y);
      var r' := if pz == [] then y else r;
      var N := Branch(zt.black, zt.left, a[y].key, ReplaceAt(zt.right, ys, Y.right));
      var t' := ReplaceAt(t, pz, N);
      Holds(b, r', NIL, t') && ValidPath(t', pz) && SubAt(t', pz) == N && RefAt(b, r', NIL, t', pz) == y
  {
    NodeFacts(a, r, t, pz);
    var z := RefAt(a, r, NIL, t, pz);
    var zt := SubAt(t, pz);
    var zp := a[z].parent;
    var y := RefAt(a, a[z].right, z, zt.right, ys);
    SuccessorLocal(a, z, zp, zt, y, ys);
    var b := SuccessorJoined(SuccessorRight(a, z, y), z, y);
    var N := Branch(zt.black, zt.left, a[y].key, ReplaceAt(zt.right, ys, SubAt(zt.right, ys).right));
    if pz != [] {
      SpliceBelow(a, b, r, t, pz, y, N);
    }
  }

  /** Below the node `y` at `pz`, a descent into its right subtree `R'`
      along `ys` meets what the same descent from `y`'s right child
      meets. */
  lemma PathDown(b: map<Ref, RbSlot>, r: Ref, t: RbTree, pz: seq<Turn>, ys: seq<Turn>, c: Ref, R': RbTree)
    requires Holds(b, r, NIL, t) && ValidPath(t, pz) && SubAt(t, pz).Branch? && SubAt(t, pz).right == R'
    requires RefAt(b, r, NIL, t, pz) in b && b[RefAt(b, r, NIL, t, pz)].right == c
    requires Holds(b, c, RefAt(b, r, NIL, t, pz), R') && ValidPath(R', ys)
    ensures ValidPath(t, pz + [GoRight] + ys)
    ensures RefAt(b, r, NIL, t, pz + [GoRight] + ys) == RefAt(b, c, RefAt(b, r, NIL, t, pz), R', ys)
    ensures Up(b, r, NIL, t, pz + [GoRight] + ys) ==
      if ys == [] then RefAt(b, r, NIL, t, pz) else Up(b, c, RefAt(b, r, NIL, t, pz), R', ys)
  {
    Step(b, r, NIL, t, pz, GoRight);
    RefAtConcat(b, r, NIL, t, pz + [GoRight], ys, RefAt(b, r, NIL, t, pz));
    if ys == [] {
      assert pz + [GoRight] + ys == pz + [GoRight];
    }
  }

  /** The two-children case of `delete` on the whole tree, `z` being the
      node at `pz` with two children and `y` the node reached from `z`'s
      right child along `ys`, which has no left child: the arena holds
      the tree with `z`'s node carrying `y`'s key and, in its right
      subtree, `y`'s node replaced by its right subtree; from `y` when
      `z` was the root. The descent to `y`'s old place now meets `y`'s
      old right child `x`; when `x` is the sentinel, the node above is
      the one the sentinel's `parent` field receives. */
  lemma SuccessorHolds(a: map<Ref, RbSlot>, r: Ref, t: RbTree, pz: seq<Turn>, ys: seq<Turn>)
    requires Holds(a, r, NIL, t) && ValidPath(t, pz)
    requires SubAt(t, pz).Branch? && SubAt(t, pz).left.Branch? && SubAt(t, pz).right.Branch?
    requires ValidPath(SubAt(t, pz).right, ys) && SubAt(SubAt(t, pz).right, ys).Branch?
    requires SubAt(SubAt(t, pz).right, ys).left == Leaf
    ensures var z := RefAt(a, r, NIL, t, pz);
      z in a && Holds(a, a[z].right, z, SubAt(t, pz).right) && (a[z].parent == NIL <==> pz == [])
    ensures var z := RefAt(a, r, NIL, t, pz); var y := RefAt(a, a[z].right, z, SubAt(t, pz).right, ys);
      y in a && z in a && z != y && (a[y].parent == NIL || a[y].parent in a) &&
      (a[y].right == NIL || a[y].right in a) && a[z].right in a &&
      (a[y].parent != z ==> a[y].parent != y && a[y].right != z) &&
      (a[y].parent == z <==> ys == []) && (ys != [] ==> a[y].parent != NIL)
    ensures var z := RefAt(a, r, NIL, t, pz); var y := RefAt(a, a[z].right, z, SubAt(t, pz).right, ys);
      var b3 := SuccessorRight(a, z, y);
      z in b3 && y in b3 && (b3[z].parent == NIL || b3[z].parent in b3) && b3[z].parent != z && b3[z].left in b3 &&
      b3[z] == a[z]
    ensures var z := RefAt(a, r, NIL, t, pz); var y := RefAt(a, a[z].right, z, SubAt(t, pz).right, ys);
      var zt := SubAt(t, pz); var Y := SubAt(zt.right, ys);
      var b := SuccessorJoined(SuccessorRight(a, z, y), z, y);
      var r' := if pz == [] then y else r;
      var t' := ReplaceAt(t, pz, Branch(zt.black, zt.left, a[y].key, ReplaceAt(zt.right, ys, Y.right)));
      Holds(b, r', NIL, t') && b.Keys == a.Keys && ValidPath(t', pz + [GoRight] + ys) &&
      RefAt(b, r', NIL, t', pz + [GoRight] + ys) == a[y].right &&
      Up(b, r', NIL, t', pz + [GoRight] + ys) == (if ys == [] then y else a[y].parent)
  {
    NodeFacts(a, r, t, pz);
    var z := RefAt(a, r, NIL, t, pz);
    var zt := SubAt(t, pz);
    var y := RefAt(a, a[z].right, z, zt.right, ys);
    SuccessorLocal(a, z, a[z].parent, zt, y, ys);
    SuccessorTop(a, r, t, pz, ys);
    var b := SuccessorJoined(SuccessorRight(a, z, y), z, y);
    var r' := if pz == [] then y else r;
    var R' := ReplaceAt(zt.right, ys, SubAt(zt.right, ys).right);
    var t' := ReplaceAt(t, pz, Branch(zt.black, zt.left, a[y].key, R'));
    PathDown(b, r', t', pz, ys, if ys == [] then a[y].right else a[z].right, R');
  }
}
