/** `ReplaceSubTree` of the red-black tree on the arena: the parent of the
    target (or `root`) is pointed at the replacer, and the replacer's
    `parent` link at the target's parent. When the replacer is the
    sentinel, that last write goes to the sentinel's own `parent` field,
    which `fixDelete` reads later. */
module RbReplace {
  import opened RbSpec
  import opened RbNode
  import opened RbArena

  /** The writes of `ReplaceSubTree(target, replacer)` to the slots; the
      write to `root` when `target` has no parent and the write to the
      sentinel's `parent` when `replacer` is the sentinel are the
      caller's. */
  function Replaced(a: map<Ref, RbSlot>, target: Ref, replacer: Ref): (b: map<Ref, RbSlot>)
    requires target in a && (a[target].parent == NIL || a[target].parent in a)
    requires replacer == NIL || replacer in a
    ensures b.Keys == a.Keys
  {
    var p := a[target].parent;
    var a1 := if p == NIL then a
      else if target == a[p].left then a[p := a[p].(left := replacer)]
      else a[p := a[p].(right := replacer)];
    if replacer == NIL then a1 else Reparented(a1, replacer, a1[target].parent)
  }

  /** Below a parent, the writes of `ReplaceSubTree` are the relinking of
      the parent on the target's side after the reparenting of a real
      replacer. */
  lemma ReplacedIsLink(a: map<Ref, RbSlot>, x: Ref, c: Ref, d: Turn)
    requires x in a && a[x].parent != NIL && a[x].parent in a && (c == NIL || c in a)
    requires (x == a[a[x].parent].left) == d && c != a[x].parent && x != a[x].parent
    ensures c == NIL ==> Replaced(a, x, c) == Link(a, a[x].parent, d, c)
    ensures c != NIL ==> Replaced(a, x, c) == Link(Reparented(a, c, a[x].parent), a[x].parent, d, c)
  {
  }

  /** `ReplaceSubTree(x, c)` for the node `x` at `q` whose child on the
      other side than `e` is the sentinel, `c` being its child on side
      `e`: the arena holds the tree with that node replaced by its child,
      from `c` when `x` was the root, and the descent along `q` now meets
      `c`, below the same node as before. */
  lemma ReplaceHolds(a: map<Ref, RbSlot>, r: Ref, t: RbTree, q: seq<Turn>, e: Turn)
    requires Holds(a, r, NIL, t) && ValidPath(t, q) && SubAt(t, q).Branch? && Child(SubAt(t, q), !e) == Leaf
    ensures var x := RefAt(a, r, NIL, t, q);
      x in a && (a[x].parent == NIL || a[x].parent in a) && (ChildRef(a, x, e) == NIL || ChildRef(a, x, e) in a) &&
      (a[x].parent == NIL <==> q == []) && a[x].parent == Up(a, r, NIL, t, q)
    ensures var x := RefAt(a, r, NIL, t, q); var c := ChildRef(a, x, e);
      var b := Replaced(a, x, c); var r' := if q == [] then c else r;
      var t' := ReplaceAt(t, q, Child(SubAt(t, q), e));
      Holds(b, r', NIL, t') && b.Keys == a.Keys && ValidPath(t', q) && SubAt(t', q) == Child(SubAt(t, q), e) &&
      RefAt(b, r', NIL, t', q) == c && Up(b, r', NIL, t', q) == Up(a, r, NIL, t, q)
  {
    var x := RefAt(a, r, NIL, t, q);
    var s := SubAt(t, q);
    ParentIsUp(a, r, NIL, t, q);
    var p := a[x].parent;
    var c, cs := ChildRef(a, x, e), Child(s, e);
    RefsSplit(a, x, p, s, e);
    RefsInside(a, c, x, cs);
    ReplaceTwice(t, q, cs, cs);
    if q == [] {
      if c != NIL {
        Reparent(a, c, x, NIL, cs);
      }
    } else {
      var up := q[..|q| - 1];
      var d := q[|q| - 1];
      RefsInside(a, p, ParentOf(a, p), SubAt(t, up));
      TurnOf(a, r, NIL, t, q);
      ReplacedIsLink(a, x, c, d);
      if c != NIL {
        Reparent(a, c, x, p, cs);
        Splice(a, Reparented(a, c, p), r, NIL, t, q, c, cs);
      } else {
        Splice(a, a, r, NIL, t, q, c, cs);
      }
    }
  }
}
