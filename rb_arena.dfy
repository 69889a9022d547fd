/** The nodes of a red-black tree as slots of an arena, as `RbNode`
    objects linked by their `left`, `right` and `parent` fields. `Holds`
    says which coloured tree the links from a slot spell out: every node
    once, each child's `parent` link pointing back at the node above it,
    and the sentinel `NIL` at every bottom link. */
module RbArena {
  import opened RbSpec
  import opened RbNode

  /** The slots that spell out `t` from `r`. */
  ghost function Refs(a: map<Ref, RbSlot>, r: Ref, t: RbTree): set<Ref>
    decreases t
  {
    match t
    case Leaf => {}
    case Branch(_, l, _, rt) =>
      if r in a then {r} + Refs(a, a[r].left, l) + Refs(a, a[r].right, rt) else {r}
  }

  /** The links from `r`, whose `parent` link is `p`, spell out `t`: the
      sentinel for `Leaf`, otherwise a slot with `t`'s key and colour
      whose children spell out `t`'s subtrees with `r` as their parent,
      no slot taking two places. */
  ghost predicate Holds(a: map<Ref, RbSlot>, r: Ref, p: Ref, t: RbTree)
    decreases t
  {
    match t
    case Leaf => r == NIL
    case Branch(c, l, k, rt) =>
      r != NIL && r in a && a[r].key == k && a[r].black == c && a[r].parent == p &&
      Holds(a, a[r].left, r, l) && Holds(a, a[r].right, r, rt) &&
      r !in Refs(a, a[r].left, l) && r !in Refs(a, a[r].right, rt) &&
      Refs(a, a[r].left, l) !! Refs(a, a[r].right, rt)
  }

  /** The slots of a held tree are allocated, and the sentinel is not
      one of them. */
  lemma {:induction false} RefsInside(a: map<Ref, RbSlot>, r: Ref, p: Ref, t: RbTree)
    requires Holds(a, r, p, t)
    ensures Refs(a, r, t) <= a.Keys && NIL !in Refs(a, r, t)
    ensures t.Branch? ==> r in Refs(a, r, t)
    decreases t
  {
    match t
    case Leaf =>
    case Branch(_, l, _, rt) =>
      RefsInside(a, a[r].left, r, l);
      RefsInside(a, a[r].right, r, rt);
  }

  /** A held tree stays held, over the same slots, when none of its slots
      changes. */
  lemma {:induction false} Frame(a: map<Ref, RbSlot>, b: map<Ref, RbSlot>, r: Ref, p: Ref, t: RbTree)
    requires Holds(a, r, p, t)
    requires forall q :: q in Refs(a, r, t) ==> q in a && q in b && b[q] == a[q]
    ensures Holds(b, r, p, t) && Refs(b, r, t) == Refs(a, r, t)
    decreases t
  {
    match t
    case Leaf =>
    case Branch(_, l, _, rt) =>
      Frame(a, b, a[r].left, r, l);
      Frame(a, b, a[r].right, r, rt);
  }

  /** A node built from a slot `r` outside two held, disjoint subtrees
      holds their join. */
  lemma Join(a: map<Ref, RbSlot>, r: Ref, p: Ref, l: RbTree, rt: RbTree)
    requires r != NIL && r in a && a[r].parent == p
    requires Holds(a, a[r].left, r, l) && Holds(a, a[r].right, r, rt)
    requires r !in Refs(a, a[r].left, l) && r !in Refs(a, a[r].right, rt)
    requires Refs(a, a[r].left, l) !! Refs(a, a[r].right, rt)
    ensures Holds(a, r, p, Branch(a[r].black, l, a[r].key, rt))
    ensures Refs(a, r, Branch(a[r].black, l, a[r].key, rt)) == {r} + Refs(a, a[r].left, l) + Refs(a, a[r].right, rt)
  {
  }

  /** Every slot of `a` lies strictly between the sentinel and
      `bound`. */
  ghost predicate Below(a: map<Ref, RbSlot>, bound: Ref)
  {
    NIL < bound && forall q :: q in a ==> NIL < q < bound
  }

  /** The child link of `p` on side `d`. */
  function ChildRef(a: map<Ref, RbSlot>, p: Ref, d: Turn): Ref
    requires p in a
  {
    if d then a[p].left else a[p].right
  }

  /** `parent.left = y` when `d` turns left, `parent.right = y`
      otherwise. */
  function Link(b: map<Ref, RbSlot>, parent: Ref, d: Turn, y: Ref): map<Ref, RbSlot>
    requires parent in b
  {
    b[parent := WithLink(b[parent], d, y)]
  }

  /** A slot with its link on side `d` pointing at `y`. */
  function WithLink(s: RbSlot, d: Turn, y: Ref): RbSlot
  {
    if d then s.(left := y) else s.(right := y)
  }

  /** `x.parent = p`. */
  function Reparented(a: map<Ref, RbSlot>, x: Ref, p: Ref): map<Ref, RbSlot>
    requires x in a
  {
    a[x := a[x].(parent := p)]
  }

  /** The `parent` link of a slot; the sentinel's own is a field of the
      tree and does not count here. */
  function ParentOf(a: map<Ref, RbSlot>, x: Ref): Ref
  {
    if x in a then a[x].parent else NIL
  }

  /** Setting the `parent` link of the root of a held subtree makes it
      hold the same subtree under the new parent. */
  lemma Reparent(a: map<Ref, RbSlot>, r: Ref, p: Ref, p': Ref, t: RbTree)
    requires Holds(a, r, p, t) && t.Branch?
    ensures Holds(Reparented(a, r, p'), r, p', t) && Refs(Reparented(a, r, p'), r, t) == Refs(a, r, t)
  {
    var b := Reparented(a, r, p');
    RefsInside(a, a[r].left, r, t.left);
    RefsInside(a, a[r].right, r, t.right);
    Frame(a, b, a[r].left, r, t.left);
    Frame(a, b, a[r].right, r, t.right);
    Join(b, r, p', t.left, t.right);
  }

  /** Setting the colour of the root of a held subtree, with `setBlack`
      or `setRed`, makes it hold the painted subtree. */
  lemma Recolour(a: map<Ref, RbSlot>, r: Ref, p: Ref, t: RbTree, black: bool)
    requires Holds(a, r, p, t) && t.Branch?
    ensures Holds(a[r := a[r].(black := black)], r, p, Paint(t, black))
    ensures Refs(a[r := a[r].(black := black)], r, Paint(t, black)) == Refs(a, r, t)
  {
    var b := a[r := a[r].(black := black)];
    RefsInside(a, a[r].left, r, t.left);
    RefsInside(a, a[r].right, r, t.right);
    Frame(a, b, a[r].left, r, t.left);
    Frame(a, b, a[r].right, r, t.right);
    Join(b, r, p, t.left, t.right);
  }

  /** Pointing the link of `p` on side `d` at `y`, which holds `u` under
      `p` over slots of the old child subtree or slots not allocated in
      `a`, makes `p` hold its node with `u` on that side, provided every
      slot outside the old child subtree kept its fields. */
  lemma Relink(a: map<Ref, RbSlot>, b: map<Ref, RbSlot>, p: Ref, pp: Ref, s: RbTree, d: Turn, y: Ref, u: RbTree)
    requires Holds(a, p, pp, s) && s.Branch?
    requires Holds(b, y, p, u)
    requires forall q :: q in Refs(b, y, u) ==> q in Refs(a, ChildRef(a, p, d), Child(s, d)) || q !in a
    requires forall q :: q in a && q !in Refs(a, ChildRef(a, p, d), Child(s, d)) ==> q in b && b[q] == a[q]
    ensures p in b && b[p] == a[p]
    ensures Holds(Link(b, p, d, y), p, pp, WithChild(s, d, u))
    ensures Refs(Link(b, p, d, y), p, WithChild(s, d, u)) == {p} + Refs(b, y, u) + Refs(a, ChildRef(a, p, !d), Child(s, !d))
    ensures Refs(a, p, s) == {p} + Refs(a, ChildRef(a, p, d), Child(s, d)) + Refs(a, ChildRef(a, p, !d), Child(s, !d))
  {
    var e, es := ChildRef(a, p, d), Child(s, d);
    var o, os := ChildRef(a, p, !d), Child(s, !d);
    RefsInside(a, e, p, es);
    RefsInside(a, o, p, os);
    Frame(a, b, o, p, os);
    RefsInside(b, y, p, u);
    var c := Link(b, p, d, y);
    Frame(b, c, y, p, u);
    Frame(b, c, o, p, os);
    if d {
      Join(c, p, pp, u, os);
    } else {
      Join(c, p, pp, os, u);
    }
  }

  /** The slot a descent along `path` from `r`, whose parent is `rp`,
      reaches. */
  ghost function RefAt(a: map<Ref, RbSlot>, r: Ref, rp: Ref, t: RbTree, path: seq<Turn>): (x: Ref)
    requires Holds(a, r, rp, t) && ValidPath(t, path)
    ensures Holds(a, x, ParentOf(a, x), SubAt(t, path))
    ensures Refs(a, x, SubAt(t, path)) <= Refs(a, r, t)
    decreases |path|
  {
    if path == [] then
      OwnParent(a, r, rp, t);
      r
    else
      var up := path[..|path| - 1];
      var p := RefAt(a, r, rp, t, up);
      ChildHolds(a, p, ParentOf(a, p), SubAt(t, up), path[|path| - 1]);
      OwnParent(a, ChildRef(a, p, path[|path| - 1]), p, Child(SubAt(t, up), path[|path| - 1]));
      ChildRef(a, p, path[|path| - 1])
  }

  /** The root of a held subtree is held under its own `parent` link. */
  lemma OwnParent(a: map<Ref, RbSlot>, x: Ref, p: Ref, t: RbTree)
    requires Holds(a, x, p, t)
    ensures Holds(a, x, ParentOf(a, x), t)
  {
  }

  /** Each child of a held node is held under that node, over a part of
      its slots. */
  lemma ChildHolds(a: map<Ref, RbSlot>, p: Ref, pp: Ref, s: RbTree, d: Turn)
    requires Holds(a, p, pp, s) && s.Branch?
    ensures Holds(a, ChildRef(a, p, d), p, Child(s, d))
    ensures Refs(a, ChildRef(a, p, d), Child(s, d)) <= Refs(a, p, s)
  {
  }

  /** The node above the end of `path`: `rp` at the top. */
  ghost function Up(a: map<Ref, RbSlot>, r: Ref, rp: Ref, t: RbTree, path: seq<Turn>): Ref
    requires Holds(a, r, rp, t) && ValidPath(t, path)
  {
    if path == [] then rp else RefAt(a, r, rp, t, path[..|path| - 1])
  }

  /** One more turn at the node `path` reaches leads to its child, and
      that child's node above is the node `path` reaches. */
  lemma Step(a: map<Ref, RbSlot>, r: Ref, rp: Ref, t: RbTree, path: seq<Turn>, d: Turn)
    requires Holds(a, r, rp, t) && ValidPath(t, path) && SubAt(t, path).Branch?
    ensures ValidPath(t, path + [d]) && SubAt(t, path + [d]) == Child(SubAt(t, path), d)
    ensures (path + [d])[..|path + [d]| - 1] == path
    ensures RefAt(a, r, rp, t, path) in a
    ensures RefAt(a, r, rp, t, path + [d]) == ChildRef(a, RefAt(a, r, rp, t, path), d)
    ensures Up(a, r, rp, t, path + [d]) == RefAt(a, r, rp, t, path)
  {
    assert (path + [d])[..|path|] == path;
  }

  /** The `parent` link of every node of a held tree is the node above
      it. */
  lemma ParentIsUp(a: map<Ref, RbSlot>, r: Ref, rp: Ref, t: RbTree, path: seq<Turn>)
    requires Holds(a, r, rp, t) && ValidPath(t, path) && SubAt(t, path).Branch?
    ensures RefAt(a, r, rp, t, path) in a && a[RefAt(a, r, rp, t, path)].parent == Up(a, r, rp, t, path)
  {
    if path != [] {
      var up := path[..|path| - 1];
      var d := path[|path| - 1];
      var p := RefAt(a, r, rp, t, up);
      var s := SubAt(t, up);
      assert Holds(a, ChildRef(a, p, d), p, Child(s, d));
    }
  }

  /** Which child link of the node above leads to the node at `path`:
      `x == x.parent.left` and `x == x.parent.right` tell the last turn,
      unless both compared links are the sentinel. */
  lemma TurnOf(a: map<Ref, RbSlot>, r: Ref, rp: Ref, t: RbTree, path: seq<Turn>)
    requires Holds(a, r, rp, t) && ValidPath(t, path) && path != []
    ensures SubAt(t, path[..|path| - 1]).Branch? && Up(a, r, rp, t, path) in a
    ensures var x := RefAt(a, r, rp, t, path); var p := Up(a, r, rp, t, path);
      var s := SubAt(t, path[..|path| - 1]);
      ((x != NIL || s.left.Branch?) ==> (x == a[p].left <==> path[|path| - 1])) &&
      ((x != NIL || s.right.Branch?) ==> (x == a[p].right <==> !path[|path| - 1]))
  {
    var up := path[..|path| - 1];
    var p := RefAt(a, r, rp, t, up);
    var s := SubAt(t, up);
    RefsInside(a, a[p].left, p, s.left);
    RefsInside(a, a[p].right, p, s.right);
  }

  /** Below the root, the descent never meets the root again. */
  lemma {:induction false} Beneath(a: map<Ref, RbSlot>, r: Ref, rp: Ref, t: RbTree, path: seq<Turn>)
    requires Holds(a, r, rp, t) && ValidPath(t, path) && path != []
    ensures r !in Refs(a, RefAt(a, r, rp, t, path), SubAt(t, path))
    ensures SubAt(t, path).Branch? ==> RefAt(a, r, rp, t, path) != r
    decreases |path|
  {
    var up := path[..|path| - 1];
    var d := path[|path| - 1];
    var p := RefAt(a, r, rp, t, up);
    var s := SubAt(t, up);
    var x := RefAt(a, r, rp, t, path);
    assert Refs(a, p, s) == {p} + Refs(a, a[p].left, s.left) + Refs(a, a[p].right, s.right);
    if up != [] {
      Beneath(a, r, rp, t, up);
    }
    RefsInside(a, x, ParentOf(a, x), SubAt(t, path));
  }

  /** When the subtree at `path` is rebuilt in `b` from the same slot,
      under the same node above, over its own slots or fresh ones, and
      nothing outside it changed, `r` holds `t` with that subtree
      replaced, and the descents along `path` and to its node above
      meet the same slots as before. */
  lemma {:induction false} Climb(a: map<Ref, RbSlot>, b: map<Ref, RbSlot>, r: Ref, rp: Ref, t: RbTree, path: seq<Turn>, u: RbTree)
    requires Holds(a, r, rp, t) && ValidPath(t, path)
    requires Holds(b, RefAt(a, r, rp, t, path), Up(a, r, rp, t, path), u)
    requires forall q :: q in Refs(b, RefAt(a, r, rp, t, path), u) ==> q in Refs(a, RefAt(a, r, rp, t, path), SubAt(t, path)) || q !in a
    requires forall q :: q in a && q !in Refs(a, RefAt(a, r, rp, t, path), SubAt(t, path)) ==> q in b && b[q] == a[q]
    ensures Holds(b, r, rp, ReplaceAt(t, path, u))
    ensures ValidPath(ReplaceAt(t, path, u), path) && SubAt(ReplaceAt(t, path, u), path) == u
    ensures RefAt(b, r, rp, ReplaceAt(t, path, u), path) == RefAt(a, r, rp, t, path)
    ensures Up(b, r, rp, ReplaceAt(t, path, u), path) == Up(a, r, rp, t, path)
    ensures Refs(b, r, ReplaceAt(t, path, u)) <= Refs(a, r, t) - Refs(a, RefAt(a, r, rp, t, path), SubAt(t, path)) + Refs(b, RefAt(a, r, rp, t, path), u)
    decreases |path|
  {
    ReplaceTwice(t, path, u, u);
    if path != [] {
      var up := path[..|path| - 1];
      var d := path[|path| - 1];
      var p := RefAt(a, r, rp, t, up);
      var s := SubAt(t, up);
      var w := WithChild(s, d, u);
      Step(a, r, rp, t, up, d);
      assert path == up + [d];
      ParentIsUp(a, r, rp, t, up);
      Relink(a, b, p, Up(a, r, rp, t, up), s, d, ChildRef(a, p, d), u);
      LinkSame(b, p, d, ChildRef(a, p, d));
      Extend(t, up, d, u);
      Climb(a, b, r, rp, t, up, w);
      Step(b, r, rp, ReplaceAt(t, up, w), up, d);
    }
  }

  /** Pointing a link where it points already changes nothing. */
  lemma LinkSame(b: map<Ref, RbSlot>, p: Ref, d: Turn, y: Ref)
    requires p in b && ChildRef(b, p, d) == y
    ensures Link(b, p, d, y) == b
  {
    assert WithLink(b[p], d, y) == b[p];
  }

  /** When the subtree at `path` is rebuilt in `b` at `y`, under the
      node above `path`, over its own slots or fresh ones, linking `y`
      on the side `path` ends with makes `r` hold `t` with the subtree
      replaced, and the descent along `path` now meets `y`. */
  lemma Splice(a: map<Ref, RbSlot>, b: map<Ref, RbSlot>, r: Ref, rp: Ref, t: RbTree, path: seq<Turn>, y: Ref, u: RbTree)
    requires Holds(a, r, rp, t) && ValidPath(t, path) && path != []
    requires Holds(b, y, Up(a, r, rp, t, path), u)
    requires forall q :: q in Refs(b, y, u) ==> q in Refs(a, RefAt(a, r, rp, t, path), SubAt(t, path)) || q !in a
    requires forall q :: q in a && q !in Refs(a, RefAt(a, r, rp, t, path), SubAt(t, path)) ==> q in b && b[q] == a[q]
    ensures Up(a, r, rp, t, path) in b
    ensures var c := Link(b, Up(a, r, rp, t, path), path[|path| - 1], y);
      Holds(c, r, rp, ReplaceAt(t, path, u)) &&
      ValidPath(ReplaceAt(t, path, u), path) && SubAt(ReplaceAt(t, path, u), path) == u &&
      RefAt(c, r, rp, ReplaceAt(t, path, u), path) == y &&
      Up(c, r, rp, ReplaceAt(t, path, u), path) == Up(a, r, rp, t, path) &&
      Refs(c, r, ReplaceAt(t, path, u)) <= Refs(a, r, t) - Refs(a, RefAt(a, r, rp, t, path), SubAt(t, path)) + Refs(b, y, u)
  {
    var up := path[..|path| - 1];
    var d := path[|path| - 1];
    var p := RefAt(a, r, rp, t, up);
    var s := SubAt(t, up);
    Step(a, r, rp, t, up, d);
    assert path == up + [d];
    Extend(t, up, d, u);
    ReplaceTwice(t, path, u, u);
    RefsInside(a, p, ParentOf(a, p), s);
    ParentIsUp(a, r, rp, t, up);
    Relink(a, b, p, Up(a, r, rp, t, up), s, d, y, u);
    var c := Link(b, p, d, y);
    var w := WithChild(s, d, u);
    Climb(a, c, r, rp, t, up, w);
    var t' := ReplaceAt(t, path, u);
    Step(c, r, rp, t', up, d);
    SwapParts(Refs(a, r, t), Refs(a, p, s), Refs(c, p, w), Refs(a, RefAt(a, r, rp, t, path), SubAt(t, path)), Refs(b, y, u),
      Refs(a, ChildRef(a, p, !d), Child(s, !d)), p, Refs(c, r, t'));
  }

  /** Set algebra for `Splice`: the slots of the whole tree after the
      change are the old ones with the old subtree's traded for the new
      subtree's. */
  lemma SwapParts(all: set<Ref>, before: set<Ref>, after: set<Ref>, gone: set<Ref>, added: set<Ref>, kept: set<Ref>, p: Ref, result: set<Ref>)
    requires result <= all - before + after
    requires before == {p} + gone + kept && after == {p} + added + kept
    requires before <= all && p !in gone && gone !! kept
    ensures result <= all - gone + added
  {
  }

  /** `setBlack` (`black`) or `setRed` on the slot `x`. */
  function Painted(a: map<Ref, RbSlot>, x: Ref, black: bool): map<Ref, RbSlot>
    requires x in a
  {
    a[x := a[x].(black := black)]
  }

  /** No child link differs between `a` and `b`. */
  ghost predicate SameLinks(a: map<Ref, RbSlot>, b: map<Ref, RbSlot>)
  {
    forall q :: q in a ==> q in b && b[q].left == a[q].left && b[q].right == a[q].right
  }

  /** Painting the node at `path` in the arena paints it in the tree and
      leaves every link as it was. */
  lemma PaintHolds(a: map<Ref, RbSlot>, r: Ref, rp: Ref, t: RbTree, path: seq<Turn>, black: bool)
    requires Holds(a, r, rp, t) && ValidPath(t, path) && SubAt(t, path).Branch?
    ensures RefAt(a, r, rp, t, path) in a
    ensures Holds(Painted(a, RefAt(a, r, rp, t, path), black), r, rp, PaintAt(t, path, black))
    ensures SameLinks(a, Painted(a, RefAt(a, r, rp, t, path), black))
    ensures Shape(PaintAt(t, path, black)) == Shape(t)
  {
    var x := RefAt(a, r, rp, t, path);
    var s := SubAt(t, path);
    ParentIsUp(a, r, rp, t, path);
    Recolour(a, x, Up(a, r, rp, t, path), s, black);
    RefsInside(a, x, Up(a, r, rp, t, path), s);
    Climb(a, Painted(a, x, black), r, rp, t, path, Paint(s, black));
    PaintShape(t, path, black);
  }

  /** With the same links, a descent meets the same slots. */
  lemma {:induction false} RefAtLinks(a: map<Ref, RbSlot>, b: map<Ref, RbSlot>, r: Ref, rp: Ref, t: RbTree, t': RbTree, w: seq<Turn>)
    requires Holds(a, r, rp, t) && Holds(b, r, rp, t') && SameLinks(a, b)
    requires ValidPath(t, w) && ValidPath(t', w)
    ensures RefAt(b, r, rp, t', w) == RefAt(a, r, rp, t, w)
    decreases |w|
  {
    if w != [] {
      RefAtLinks(a, b, r, rp, t, t', w[..|w| - 1]);
    }
  }

  /** After painting the node at `path`, the descent along any path `w`
      meets the same slot as before. */
  lemma PaintRefAt(a: map<Ref, RbSlot>, r: Ref, rp: Ref, t: RbTree, path: seq<Turn>, black: bool, w: seq<Turn>)
    requires Holds(a, r, rp, t) && ValidPath(t, path) && SubAt(t, path).Branch? && ValidPath(t, w)
    ensures RefAt(a, r, rp, t, path) in a
    ensures Holds(Painted(a, RefAt(a, r, rp, t, path), black), r, rp, PaintAt(t, path, black))
    ensures ValidPath(PaintAt(t, path, black), w)
    ensures RefAt(Painted(a, RefAt(a, r, rp, t, path), black), r, rp, PaintAt(t, path, black), w) == RefAt(a, r, rp, t, w)
  {
    PaintHolds(a, r, rp, t, path, black);
    SameShapePaths(t, PaintAt(t, path, black), w);
    RefAtLinks(a, Painted(a, RefAt(a, r, rp, t, path), black), r, rp, t, PaintAt(t, path, black), w);
  }

  /** The writes of `rotateLeft(x)` to the slots, in their order; the
      write to `root` when `x` has no parent is the caller's. */
  function LeftRotated(a: map<Ref, RbSlot>, x: Ref): map<Ref, RbSlot>
    requires x in a && a[x].right in a && a[a[x].right].left != x
    requires a[a[x].right].left == NIL || a[a[x].right].left in a
    requires a[x].parent == NIL || a[x].parent in a
  {
    var newRoot := a[x].right;
    var reParented := a[newRoot].left;
    var a1 := a[x := a[x].(right := reParented)];
    var a2 := if reParented != NIL then Reparented(a1, reParented, x) else a1;
    var a3 := Reparented(a2, newRoot, a2[x].parent);
    var p := a3[x].parent;
    var a4 := if p == NIL then a3
      else if x == a3[p].left then a3[p := a3[p].(left := newRoot)]
      else a3[p := a3[p].(right := newRoot)];
    var a5 := a4[newRoot := a4[newRoot].(left := x)];
    Reparented(a5, x, newRoot)
  }

  /** The writes of `rotateRight(x)` to the slots, in their order. */
  function RightRotated(a: map<Ref, RbSlot>, x: Ref): map<Ref, RbSlot>
    requires x in a && a[x].left in a && a[a[x].left].right != x
    requires a[a[x].left].right == NIL || a[a[x].left].right in a
    requires a[x].parent == NIL || a[x].parent in a
  {
    var newRoot := a[x].left;
    var reParented := a[newRoot].right;
    var a1 := a[x := a[x].(left := reParented)];
    var a2 := if reParented != NIL then Reparented(a1, reParented, x) else a1;
    var a3 := Reparented(a2, newRoot, a2[x].parent);
    var p := a3[x].parent;
    var a4 := if p == NIL then a3
      else if x == a3[p].right then a3[p := a3[p].(right := newRoot)]
      else a3[p := a3[p].(left := newRoot)];
    var a5 := a4[newRoot := a4[newRoot].(right := x)];
    Reparented(a5, x, newRoot)
  }

  /** What a rotation at `x` lifting its child on side `e` reads: `x`,
      that child and `x`'s parent have slots, and so has the grandchild
      that moves across, unless it is the sentinel. */
  ghost predicate Rotatable(a: map<Ref, RbSlot>, x: Ref, e: Turn)
  {
    x in a && ChildRef(a, x, e) in a && ChildRef(a, ChildRef(a, x, e), !e) != x &&
    (ChildRef(a, ChildRef(a, x, e), !e) == NIL || ChildRef(a, ChildRef(a, x, e), !e) in a) &&
    (a[x].parent == NIL || a[x].parent in a)
  }

  /** The rotation that lifts the child of `x` on side `e`. */
  function Rotated(a: map<Ref, RbSlot>, x: Ref, e: Turn): map<Ref, RbSlot>
    requires Rotatable(a, x, e)
  {
    if e then RightRotated(a, x) else LeftRotated(a, x)
  }

  /** Slot by slot, what a rotation at `x` writes: `x` takes the moved
      grandchild `m` on side `e` and `y` as parent, `y` takes `x` on the
      other side and `x`'s old parent `p`, `m` takes `x` as parent, and
      `p` points at `y` where it pointed at `x`. */
  lemma RotatedEntries(a: map<Ref, RbSlot>, x: Ref, e: Turn)
    requires x in a && ChildRef(a, x, e) in a
    requires var y := ChildRef(a, x, e); var m := ChildRef(a, y, !e); var p := a[x].parent;
      (m == NIL || m in a) && (p == NIL || p in a) &&
      x != NIL && y != NIL && x != y && m != x && m != y && p != x && p != y && (m == NIL || p != m)
    ensures var y := ChildRef(a, x, e); var m := ChildRef(a, y, !e); var p := a[x].parent;
      var j := Rotated(a, x, e);
      j.Keys == a.Keys &&
      j[x] == WithLink(a[x], e, m).(parent := y) &&
      j[y] == WithLink(a[y], !e, x).(parent := p) &&
      (m != NIL ==> j[m] == a[m].(parent := x)) &&
      (p != NIL ==> j[p] == WithLink(a[p], if e then x != a[p].right else x == a[p].left, y)) &&
      forall k :: k in a && k != x && k != y && (m == NIL || k != m) && (p == NIL || k != p) ==> j[k] == a[k]
  {
  }

  /** What a rotation does below the parent link: when `b` has the
      entries `RotatedEntries` lists for `x`, `y` and `m` and agrees with
      `a` on every other slot of the subtree, `y` holds the rotated
      subtree under `x`'s old parent, over the same slots. */
  lemma LiftLocal(a: map<Ref, RbSlot>, b: map<Ref, RbSlot>, x: Ref, p: Ref, s: RbTree, e: Turn)
    requires Holds(a, x, p, s) && s.Branch? && Child(s, e).Branch?
    requires x in a && ChildRef(a, x, e) in a
    requires var y := ChildRef(a, x, e); var m := ChildRef(a, y, !e);
      (m == NIL || m in a) && x in b && y in b && b[x] == WithLink(a[x], e, m).(parent := y) &&
      b[y] == WithLink(a[y], !e, x).(parent := p) &&
      (m != NIL ==> m in b && b[m] == a[m].(parent := x)) &&
      forall k :: k in a && k != x && k != y && (m == NIL || k != m) ==> k in b && b[k] == a[k]
    ensures Holds(b, ChildRef(a, x, e), p, Lift(s, e))
    ensures Refs(b, ChildRef(a, x, e), Lift(s, e)) == Refs(a, x, s)
  {
    var y := ChildRef(a, x, e);
    var ys := Child(s, e);
    var c, cs := ChildRef(a, y, e), Child(ys, e);
    var xs := WithChild(s, e, Child(ys, !e));
    LowerNode(a, b, x, p, s, e);
    ChildHolds(a, y, x, ys, e);
    RefsInside(a, c, y, cs);
    Frame(a, b, c, y, cs);
    if e {
      Join(b, y, p, cs, xs);
      assert Lift(s, e) == Branch(ys.black, cs, ys.key, xs);
    } else {
      Join(b, y, p, xs, cs);
      assert Lift(s, e) == Branch(ys.black, xs, ys.key, cs);
    }
  }

  /** The lower half of `LiftLocal`: `x` holds its node with the moved
      grandchild in place of `y`, under `y`, and the three parts of the
      subtree are disjoint. */
  lemma LowerNode(a: map<Ref, RbSlot>, b: map<Ref, RbSlot>, x: Ref, p: Ref, s: RbTree, e: Turn)
    requires Holds(a, x, p, s) && s.Branch? && Child(s, e).Branch?
    requires x in a && ChildRef(a, x, e) in a
    requires var y := ChildRef(a, x, e); var m := ChildRef(a, y, !e);
      (m == NIL || m in a) && x in b && y in b && b[x] == WithLink(a[x], e, m).(parent := y) &&
      (m != NIL ==> m in b && b[m] == a[m].(parent := x)) &&
      forall k :: k in a && k != x && k != y && (m == NIL || k != m) ==> k in b && b[k] == a[k]
    ensures var y := ChildRef(a, x, e); var ys := Child(s, e); var xs := WithChild(s, e, Child(ys, !e));
      var c := ChildRef(a, y, e);
      Holds(b, x, y, xs) && y != NIL && y !in Refs(b, x, xs) && y !in Refs(a, c, Child(ys, e)) &&
      Refs(b, x, xs) !! Refs(a, c, Child(ys, e)) &&
      Refs(a, x, s) == {y} + Refs(b, x, xs) + Refs(a, c, Child(ys, e))
  {
    var y := ChildRef(a, x, e);
    var ys := Child(s, e);
    RefsSplit(a, x, p, s, e);
    RefsSplit(a, y, x, ys, e);
    LowerHolds(a, b, x, p, s, e);
  }

  /** The node `x` keeps its other child and takes the moved grandchild
      `m`, under `y`, over its own slot and those of the two subtrees. */
  lemma LowerHolds(a: map<Ref, RbSlot>, b: map<Ref, RbSlot>, x: Ref, p: Ref, s: RbTree, e: Turn)
    requires Holds(a, x, p, s) && s.Branch? && Child(s, e).Branch?
    requires x in a && ChildRef(a, x, e) in a
    requires var y := ChildRef(a, x, e); var m := ChildRef(a, y, !e);
      (m == NIL || m in a) && x in b && y in b && b[x] == WithLink(a[x], e, m).(parent := y) &&
      (m != NIL ==> m in b && b[m] == a[m].(parent := x)) &&
      forall k :: k in a && k != x && k != y && (m == NIL || k != m) ==> k in b && b[k] == a[k]
    ensures var y := ChildRef(a, x, e); var ys := Child(s, e); var m := ChildRef(a, y, !e);
      var xs := WithChild(s, e, Child(ys, !e));
      Holds(b, x, y, xs) &&
      Refs(b, x, xs) == {x} + Refs(a, m, Child(ys, !e)) + Refs(a, ChildRef(a, x, !e), Child(s, !e))
  {
    var y, o := ChildRef(a, x, e), ChildRef(a, x, !e);
    var ys, os := Child(s, e), Child(s, !e);
    var m := ChildRef(a, y, !e);
    var ms := Child(ys, !e);
    RefsSplit(a, x, p, s, e);
    RefsSplit(a, y, x, ys, e);
    RefsInside(a, m, y, ms);
    Frame(a, b, o, x, os);
    if m != NIL {
      Reparent(a, m, y, x, ms);
      Frame(Reparented(a, m, x), b, m, x, ms);
    }
    if e {
      Join(b, x, y, ms, os);
    } else {
      Join(b, x, y, os, ms);
    }
  }

  /** The slots a rotation at the node at `q` touches: `x`, its child
      `y` on side `e`, the grandchild `m` that moves across and `x`'s
      parent `p`, which is the node above `q` and leads to `x` by the
      last turn of `q`. */
  lemma RotateFacts(a: map<Ref, RbSlot>, r: Ref, t: RbTree, q: seq<Turn>, e: Turn)
    requires Holds(a, r, NIL, t) && ValidPath(t, q) && SubAt(t, q).Branch? && Child(SubAt(t, q), e).Branch?
    ensures var x := RefAt(a, r, NIL, t, q); x in a && ChildRef(a, x, e) in a
    ensures var x := RefAt(a, r, NIL, t, q); var y := ChildRef(a, x, e); var m := ChildRef(a, y, !e);
      var p := a[x].parent;
      (m == NIL || m in a) && (p == NIL || p in a) &&
      x in Refs(a, x, SubAt(t, q)) && y in Refs(a, x, SubAt(t, q)) && (m != NIL ==> m in Refs(a, x, SubAt(t, q))) &&
      x != NIL && y != NIL && x != y && m != x && m != y && p != x && p != y && (m == NIL || p != m) &&
      (p == NIL <==> q == []) && p == Up(a, r, NIL, t, q) &&
      (q != [] ==> (if e then x != a[p].right else x == a[p].left) == q[|q| - 1])
  {
    var x := RefAt(a, r, NIL, t, q);
    var s := SubAt(t, q);
    ParentIsUp(a, r, NIL, t, q);
    var p := a[x].parent;
    var y := ChildRef(a, x, e);
    ChildHolds(a, x, p, s, e);
    var m := ChildRef(a, y, !e);
    ChildHolds(a, y, x, Child(s, e), !e);
    RefsInside(a, x, p, s);
    RefsInside(a, y, x, Child(s, e));
    RefsInside(a, m, y, Child(Child(s, e), !e));
    if q != [] {
      var up := q[..|q| - 1];
      RefsInside(a, p, ParentOf(a, p), SubAt(t, up));
      TurnOf(a, r, NIL, t, q);
    }
  }

  /** Putting an old entry back and relinking it as the new entry does
      recovers the new map. */
  lemma LinkBack(j: map<Ref, RbSlot>, p: Ref, old0: RbSlot, d: Turn, y: Ref)
    requires p in j && j[p] == WithLink(old0, d, y)
    ensures Link(j[p := old0], p, d, y) == j
  {
  }

  /** The slots of a held node are its own and those of its two
      subtrees, all three apart. */
  lemma RefsSplit(a: map<Ref, RbSlot>, x: Ref, p: Ref, s: RbTree, d: Turn)
    requires Holds(a, x, p, s) && s.Branch?
    ensures var c, o := ChildRef(a, x, d), ChildRef(a, x, !d);
      Refs(a, x, s) == {x} + Refs(a, c, Child(s, d)) + Refs(a, o, Child(s, !d)) &&
      x !in Refs(a, c, Child(s, d)) && x !in Refs(a, o, Child(s, !d)) &&
      Refs(a, c, Child(s, d)) !! Refs(a, o, Child(s, !d)) &&
      Holds(a, c, x, Child(s, d)) && Holds(a, o, x, Child(s, !d)) &&
      Refs(a, c, Child(s, d)) <= a.Keys && NIL !in Refs(a, c, Child(s, d)) &&
      Refs(a, o, Child(s, !d)) <= a.Keys && NIL !in Refs(a, o, Child(s, !d))
  {
    RefsInside(a, a[x].left, x, s.left);
    RefsInside(a, a[x].right, x, s.right);
  }

  /** `rotateLeft` (`e` is `GoRight`) or `rotateRight` (`e` is `GoLeft`)
      at the node at `q`: the arena holds the tree with the subtree at
      `q` lifted, from `y` when `x` was the root, and otherwise from the
      same root, the descent along `q` now meeting `y`; `y` has `x` as
      its child on the other side, and the links that did not move are
      as they were. */
  lemma RotateHolds(a: map<Ref, RbSlot>, r: Ref, t: RbTree, q: seq<Turn>, e: Turn)
    requires Holds(a, r, NIL, t) && ValidPath(t, q) && SubAt(t, q).Branch? && Child(SubAt(t, q), e).Branch?
    ensures var x := RefAt(a, r, NIL, t, q);
      x in a && ChildRef(a, x, e) in a && ChildRef(a, ChildRef(a, x, e), !e) != x &&
      (ChildRef(a, ChildRef(a, x, e), !e) == NIL || ChildRef(a, ChildRef(a, x, e), !e) in a) &&
      (a[x].parent == NIL || a[x].parent in a) && (a[x].parent == NIL <==> q == [])
    ensures var x := RefAt(a, r, NIL, t, q); var y := ChildRef(a, x, e);
      var b := Rotated(a, x, e); var r' := if q == [] then y else r;
      var t' := ReplaceAt(t, q, Lift(SubAt(t, q), e));
      Holds(b, r', NIL, t') && b.Keys == a.Keys &&
      ValidPath(t', q) && SubAt(t', q) == Lift(SubAt(t, q), e) &&
      RefAt(b, r', NIL, t', q) == y && Up(b, r', NIL, t', q) == Up(a, r, NIL, t, q) &&
      x in b && y in b && ChildRef(b, y, !e) == x && ChildRef(b, y, e) == ChildRef(a, y, e) &&
      ChildRef(b, x, !e) == ChildRef(a, x, !e) &&
      (q != [] ==>
        Up(a, r, NIL, t, q) in a && Up(a, r, NIL, t, q) in b &&
        ChildRef(b, Up(a, r, NIL, t, q), !q[|q| - 1]) == ChildRef(a, Up(a, r, NIL, t, q), !q[|q| - 1]))
  {
    var x := RefAt(a, r, NIL, t, q);
    var s := SubAt(t, q);
    RotateFacts(a, r, t, q, e);
    var p := a[x].parent;
    var y := ChildRef(a, x, e);
    RotatedEntries(a, x, e);
    var j := Rotated(a, x, e);
    if q == [] {
      LiftLocal(a, j, x, p, s, e);
    } else {
      var l := j[p := a[p]];
      LiftLocal(a, l, x, p, s, e);
      Splice(a, l, r, NIL, t, q, y, Lift(s, e));
      var d := q[|q| - 1];
      assert (if e then x != a[p].right else x == a[p].left) == d;
      LinkBack(j, p, a[p], d, y);
    }
  }
}
