/** Red-black trees as values: subtrees whose nodes carry a colour beside
    their key, the colour rules the red-black tree keeps, and what the
    recolourings and rotations of its insertion and deletion fix-ups do to
    the subtree at a position. The sentinel below the bottom nodes is
    `Leaf`, which counts as black. */
module RbSpec {
  import BinaryTree
  import TreePath

  type Turn = TreePath.Turn

  const GoLeft: Turn := TreePath.GoLeft
  const GoRight: Turn := TreePath.GoRight

  /** A subtree: the sentinel, or a node with its colour, its children
      and its key. */
  datatype RbTree = Leaf | Branch(black: bool, left: RbTree, key: int, right: RbTree)

  /** The tree without its colours, as `getRoot` shows it. */
  function Shape(t: RbTree): BinaryTree.Tree
  {
    match t
    case Leaf => BinaryTree.Nil
    case Branch(_, l, k, r) => BinaryTree.Node(Shape(l), k, Shape(r))
  }

  /** `isRed`: a node that is not black; the sentinel is black. */
  predicate IsRed(t: RbTree)
  {
    t.Branch? && !t.black
  }

  /** The black nodes on the way down the left links, the sentinel not
      counted. */
  function BlackHeight(t: RbTree): nat
  {
    match t
    case Leaf => 0
    case Branch(c, l, _, _) => BlackHeight(l) + (if c then 1 else 0)
  }

  /** Every way down from a node to the sentinel meets the same number of
      black nodes. */
  predicate BlackBalanced(t: RbTree)
  {
    match t
    case Leaf => true
    case Branch(_, l, _, r) => BlackBalanced(l) && BlackBalanced(r) && BlackHeight(l) == BlackHeight(r)
  }

  /** No red node has a red child. */
  predicate RedOk(t: RbTree)
  {
    match t
    case Leaf => true
    case Branch(c, l, _, r) => RedOk(l) && RedOk(r) && (!c ==> !IsRed(l) && !IsRed(r))
  }

  /** The red-black properties: the root is black, the sentinel is black
      (built into `IsRed`), a red node's children are black, and every
      path down meets the same number of black nodes. */
  predicate IsRedBlack(t: RbTree)
  {
    !IsRed(t) && BlackBalanced(t) && RedOk(t)
  }

  /** `setBlack` (`black`) or `setRed` on the root of `t`; painting the
      sentinel changes nothing. */
  function Paint(t: RbTree, black: bool): RbTree
  {
    if t.Leaf? then t else t.(black := black)
  }

  /** `t` under one extra black node: the subtree as it counts while it
      carries the extra black of a deletion. */
  function Raise(t: RbTree): RbTree
  {
    Branch(true, t, 0, t)
  }

  /** `rotateLeft`: the right child moves up, every node keeping its
      colour. */
  function RotateLeft(t: RbTree): RbTree
  {
    if t.Branch? && t.right.Branch? then
      Branch(t.right.black, Branch(t.black, t.left, t.key, t.right.left), t.right.key, t.right.right)
    else t
  }

  /** `rotateRight`: the left child moves up, every node keeping its
      colour. */
  function RotateRight(t: RbTree): RbTree
  {
    if t.Branch? && t.left.Branch? then
      Branch(t.left.black, t.left.left, t.left.key, Branch(t.black, t.left.right, t.key, t.right))
    else t
  }

  /** The rotation that moves the child on side `d` up. */
  function Lift(t: RbTree, d: Turn): RbTree
  {
    if d then RotateRight(t) else RotateLeft(t)
  }

  /** The child the turn `d` leads to. */
  function Child(t: RbTree, d: Turn): RbTree
    requires t.Branch?
  {
    if d then t.left else t.right
  }

  /** `t` with the child on side `d` replaced by `u`. */
  function WithChild(t: RbTree, d: Turn, u: RbTree): RbTree
    requires t.Branch?
  {
    if d then t.(left := u) else t.(right := u)
  }

  /** Every turn of `path` leaves a node. */
  predicate ValidPath(t: RbTree, path: seq<Turn>)
    decreases |path|, 0
  {
    path == [] || (ValidPath(t, path[..|path| - 1]) && SubAt(t, path[..|path| - 1]).Branch?)
  }

  /** The subtree `path` leads to. */
  function SubAt(t: RbTree, path: seq<Turn>): RbTree
    requires ValidPath(t, path)
    decreases |path|, 1
  {
    if path == [] then t
    else Child(SubAt(t, path[..|path| - 1]), path[|path| - 1])
  }

  /** `t` with the subtree at `path` replaced by `u`. */
  function ReplaceAt(t: RbTree, path: seq<Turn>, u: RbTree): RbTree
    requires ValidPath(t, path)
    decreases |path|
  {
    if path == [] then u
    else
      var up := path[..|path| - 1];
      ReplaceAt(t, up, WithChild(SubAt(t, up), path[|path| - 1], u))
  }

  /** `t` with the node at `path` painted. */
  function PaintAt(t: RbTree, path: seq<Turn>, black: bool): RbTree
    requires ValidPath(t, path)
  {
    ReplaceAt(t, path, Paint(SubAt(t, path), black))
  }

  /** Extending a valid path by a turn at a node keeps it valid and leads
      to that node's child; replacing there replaces that child. */
  lemma Extend(t: RbTree, path: seq<Turn>, d: Turn, u: RbTree)
    requires ValidPath(t, path) && SubAt(t, path).Branch?
    ensures ValidPath(t, path + [d]) && (path + [d])[..|path|] == path
    ensures SubAt(t, path + [d]) == Child(SubAt(t, path), d)
    ensures ReplaceAt(t, path + [d], u) == ReplaceAt(t, path, WithChild(SubAt(t, path), d, u))
  {
    assert (path + [d])[..|path|] == path;
  }

  /** Two turns below a node whose child on side `d1` is a node. */
  lemma Extend2(t: RbTree, path: seq<Turn>, d1: Turn, d2: Turn, u: RbTree)
    requires ValidPath(t, path) && SubAt(t, path).Branch? && Child(SubAt(t, path), d1).Branch?
    ensures ValidPath(t, path + [d1]) && ValidPath(t, path + [d1, d2])
    ensures (path + [d1, d2])[..|path| + 1] == path + [d1]
    ensures SubAt(t, path + [d1]) == Child(SubAt(t, path), d1)
    ensures SubAt(t, path + [d1, d2]) == Child(Child(SubAt(t, path), d1), d2)
    ensures ReplaceAt(t, path + [d1, d2], u) ==
      ReplaceAt(t, path, WithChild(SubAt(t, path), d1, WithChild(Child(SubAt(t, path), d1), d2, u)))
  {
    var s := SubAt(t, path);
    Extend(t, path, d1, WithChild(Child(s, d1), d2, u));
    assert path + [d1, d2] == (path + [d1]) + [d2];
    Extend(t, path + [d1], d2, u);
  }

  /** A path of at least two turns, split at the grandparent. */
  lemma Split2(t: RbTree, path: seq<Turn>)
    requires ValidPath(t, path) && |path| >= 2
    ensures path == path[..|path| - 2] + [path[|path| - 2], path[|path| - 1]]
    ensures path[..|path| - 1] == path[..|path| - 2] + [path[|path| - 2]]
    ensures ValidPath(t, path[..|path| - 2]) && SubAt(t, path[..|path| - 2]).Branch?
    ensures Child(SubAt(t, path[..|path| - 2]), path[|path| - 2]).Branch?
  {
    var up := path[..|path| - 1];
    assert up[..|up| - 1] == path[..|path| - 2];
    assert path == path[..|path| - 2] + [path[|path| - 2], path[|path| - 1]];
  }

  /** The empty tree has no turn to take: the only path into it is the
      empty one. */
  lemma {:induction false} LeafPath(p: seq<Turn>)
    requires ValidPath(Leaf, p)
    ensures p == []
    decreases |p|
  {
    if p != [] {
      LeafPath(p[..|p| - 1]);
    }
  }

  /** Putting back the subtree that is there changes nothing. */
  lemma {:induction false} ReplaceSame(t: RbTree, path: seq<Turn>)
    requires ValidPath(t, path)
    ensures ReplaceAt(t, path, SubAt(t, path)) == t
    decreases |path|
  {
    if path != [] {
      ReplaceSame(t, path[..|path| - 1]);
    }
  }

  /** After a replacement the path still leads to the new subtree, and a
      second replacement there overrides the first. */
  lemma {:induction false} ReplaceTwice(t: RbTree, path: seq<Turn>, u: RbTree, w: RbTree)
    requires ValidPath(t, path)
    ensures ValidPath(ReplaceAt(t, path, u), path)
    ensures SubAt(ReplaceAt(t, path, u), path) == u
    ensures ReplaceAt(ReplaceAt(t, path, u), path, w) == ReplaceAt(t, path, w)
    decreases |path|
  {
    if path != [] {
      var up := path[..|path| - 1];
      var d := path[|path| - 1];
      var s := SubAt(t, up);
      ReplaceTwice(t, up, WithChild(s, d, u), WithChild(s, d, w));
    }
  }

  /** A replacement below the root keeps the root node and its colour. */
  lemma {:induction false} RootKept(t: RbTree, path: seq<Turn>, u: RbTree)
    requires ValidPath(t, path) && path != []
    ensures t.Branch? && ReplaceAt(t, path, u).Branch?
    ensures ReplaceAt(t, path, u).black == t.black && ReplaceAt(t, path, u).key == t.key
    decreases |path|
  {
    var up := path[..|path| - 1];
    if up != [] {
      RootKept(t, up, WithChild(SubAt(t, up), path[|path| - 1], u));
    }
  }

  /** The shape of a replacement is the replacement of the shapes. */
  lemma {:induction false} ShapeAt(t: RbTree, path: seq<Turn>, u: RbTree)
    requires ValidPath(t, path)
    ensures TreePath.ValidPath(Shape(t), path)
    ensures TreePath.SubAt(Shape(t), path) == Shape(SubAt(t, path))
    ensures TreePath.ReplaceAt(Shape(t), path, Shape(u)) == Shape(ReplaceAt(t, path, u))
    decreases |path|
  {
    if path != [] {
      var up := path[..|path| - 1];
      var d := path[|path| - 1];
      ShapeAt(t, up, WithChild(SubAt(t, up), d, u));
    }
  }

  /** Replacing a subtree by one with the same keys in the same order
      keeps the order of the whole tree. */
  lemma {:induction false} OrderReplace(t: RbTree, path: seq<Turn>, u: RbTree, w: RbTree)
    requires ValidPath(t, path)
    requires BinaryTree.InOrder(Shape(u)) == BinaryTree.InOrder(Shape(w))
    ensures BinaryTree.InOrder(Shape(ReplaceAt(t, path, u))) == BinaryTree.InOrder(Shape(ReplaceAt(t, path, w)))
    decreases |path|
  {
    if path != [] {
      var up := path[..|path| - 1];
      var d := path[|path| - 1];
      var s := SubAt(t, up);
      OrderReplace(t, up, WithChild(s, d, u), WithChild(s, d, w));
    }
  }

  /** Every subtree of a balanced tree is balanced. */
  lemma {:induction false} SubBalanced(t: RbTree, path: seq<Turn>)
    requires ValidPath(t, path) && BlackBalanced(t)
    ensures BlackBalanced(SubAt(t, path))
    decreases |path|
  {
    if path != [] {
      SubBalanced(t, path[..|path| - 1]);
    }
  }

  /** Every subtree of a tree without red-red links has none. */
  lemma {:induction false} SubRedOk(t: RbTree, path: seq<Turn>)
    requires ValidPath(t, path) && RedOk(t)
    ensures RedOk(SubAt(t, path))
    decreases |path|
  {
    if path != [] {
      SubRedOk(t, path[..|path| - 1]);
    }
  }

  /** Replacing a subtree by a balanced one of the same black height
      keeps the whole tree balanced. */
  lemma {:induction false} BalancedReplace(t: RbTree, path: seq<Turn>, s: RbTree, u: RbTree)
    requires ValidPath(t, path) && BlackBalanced(ReplaceAt(t, path, s))
    requires BlackBalanced(u) && BlackHeight(u) == BlackHeight(s)
    ensures BlackBalanced(ReplaceAt(t, path, u))
    decreases |path|
  {
    if path != [] {
      var up := path[..|path| - 1];
      var d := path[|path| - 1];
      var w := WithChild(SubAt(t, up), d, s);
      ReplaceTwice(t, up, w, w);
      SubBalanced(ReplaceAt(t, up, w), up);
      BalancedReplace(t, up, w, WithChild(SubAt(t, up), d, u));
    }
  }

  /** Replacing a subtree by one without red-red links, red only where
      the old one was red, keeps the whole tree without them. */
  lemma {:induction false} RedReplace(t: RbTree, path: seq<Turn>, s: RbTree, u: RbTree)
    requires ValidPath(t, path) && RedOk(ReplaceAt(t, path, s))
    requires RedOk(u) && (IsRed(u) ==> IsRed(s))
    ensures RedOk(ReplaceAt(t, path, u))
    decreases |path|
  {
    if path != [] {
      var up := path[..|path| - 1];
      var d := path[|path| - 1];
      var w := WithChild(SubAt(t, up), d, s);
      ReplaceTwice(t, up, w, w);
      SubRedOk(ReplaceAt(t, up, w), up);
      RedReplace(t, up, w, WithChild(SubAt(t, up), d, u));
    }
  }

  /** Rotations keep the keys in order. */
  lemma LiftOrder(t: RbTree, d: Turn)
    ensures BinaryTree.InOrder(Shape(Lift(t, d))) == BinaryTree.InOrder(Shape(t))
  {
    if t.Branch? && d && t.left.Branch? {
      assert BinaryTree.InOrder(Shape(t)) ==
        BinaryTree.InOrder(Shape(t.left.left)) + [t.left.key] + BinaryTree.InOrder(Shape(t.left.right)) +
        [t.key] + BinaryTree.InOrder(Shape(t.right));
    } else if t.Branch? && !d && t.right.Branch? {
      assert BinaryTree.InOrder(Shape(Lift(t, d))) ==
        BinaryTree.InOrder(Shape(t.left)) + [t.key] + BinaryTree.InOrder(Shape(t.right.left)) +
        [t.right.key] + BinaryTree.InOrder(Shape(t.right.right));
    }
  }

  /** The child of `g` on side `d` painted black and `g` painted red, the
      two `setBlack`/`setRed` calls before a rotation. */
  function PaintPair(g: RbTree, d: Turn): RbTree
    requires g.Branch?
  {
    WithChild(g.(black := false), d, Paint(Child(g, d), true))
  }

  /** Putting a balanced subtree of the same black height in place of a
      subtree of a balanced tree keeps it balanced. */
  lemma BalancedSwap(t: RbTree, path: seq<Turn>, u: RbTree)
    requires ValidPath(t, path) && BlackBalanced(t)
    requires BlackBalanced(u) && BlackHeight(u) == BlackHeight(SubAt(t, path))
    ensures BlackBalanced(ReplaceAt(t, path, u))
  {
    ReplaceSame(t, path);
    BalancedReplace(t, path, SubAt(t, path), u);
  }

  /** A replacement keeps the root black when it is below a black root,
      or is itself black at the root. */
  lemma RootBlack(t: RbTree, path: seq<Turn>, u: RbTree)
    requires ValidPath(t, path)
    requires if path == [] then !IsRed(u) else !IsRed(t)
    ensures !IsRed(ReplaceAt(t, path, u))
  {
    if path != [] {
      RootKept(t, path, u);
    }
  }

  /** Painting a node black that is black already, or the sentinel,
      changes nothing. */
  lemma PaintKeeps(t: RbTree, path: seq<Turn>)
    requires ValidPath(t, path) && !IsRed(SubAt(t, path))
    ensures PaintAt(t, path, true) == t
  {
    assert Paint(SubAt(t, path), true) == SubAt(t, path);
    ReplaceSame(t, path);
  }

  /** `setBlack` on the child on side `d` of the node at `q`, then
      `setRed` on that node, is the replacement of the node by
      `PaintPair`. */
  lemma PaintPairAt(t: RbTree, q: seq<Turn>, d: Turn)
    requires ValidPath(t, q) && SubAt(t, q).Branch?
    ensures ValidPath(t, q + [d])
    ensures var t1 := PaintAt(t, q + [d], true);
      ValidPath(t1, q) && SubAt(t1, q).Branch? &&
      PaintAt(t1, q, false) == ReplaceAt(t, q, PaintPair(SubAt(t, q), d))
  {
    var g := SubAt(t, q);
    var g1 := WithChild(g, d, Paint(Child(g, d), true));
    Extend(t, q, d, Paint(Child(g, d), true));
    ReplaceTwice(t, q, g1, PaintPair(g, d));
    assert Paint(g1, false) == PaintPair(g, d);
  }

  /** A path through the node at `a` and then along `b` below it. */
  lemma {:induction false} PathConcat(t: RbTree, a: seq<Turn>, b: seq<Turn>, u: RbTree)
    requires ValidPath(t, a)
    ensures ValidPath(t, a + b) <==> ValidPath(SubAt(t, a), b)
    ensures ValidPath(t, a + b) ==> SubAt(t, a + b) == SubAt(SubAt(t, a), b)
    ensures ValidPath(t, a + b) ==> ReplaceAt(t, a + b, u) == ReplaceAt(t, a, ReplaceAt(SubAt(t, a), b, u))
    decreases |b|
  {
    if b == [] {
      assert a + b == a;
    } else {
      var b1 := b[..|b| - 1];
      var e := b[|b| - 1];
      assert (a + b)[..|a + b| - 1] == a + b1;
      assert (a + b)[|a + b| - 1] == e;
      PathConcat(t, a, b1, u);
      if ValidPath(t, a + b1) && SubAt(t, a + b1).Branch? {
        PathConcat(t, a, b1, WithChild(SubAt(t, a + b1), e, u));
      }
    }
  }

  /** The tree with every key set to 0: colours and links only. */
  function Erase(t: RbTree): RbTree
  {
    match t
    case Leaf => Leaf
    case Branch(c, l, _, r) => Branch(c, Erase(l), 0, Erase(r))
  }

  /** The colour rules do not look at the keys. */
  lemma {:induction false} EraseColours(t: RbTree)
    ensures IsRed(Erase(t)) == IsRed(t) && BlackHeight(Erase(t)) == BlackHeight(t)
    ensures BlackBalanced(Erase(t)) == BlackBalanced(t) && RedOk(Erase(t)) == RedOk(t)
  {
    if t.Branch? {
      EraseColours(t.left);
      EraseColours(t.right);
    }
  }

  /** Paths, subtrees and replacements do not look at the keys either. */
  lemma {:induction false} ErasePath(t: RbTree, path: seq<Turn>, u: RbTree)
    ensures ValidPath(Erase(t), path) == ValidPath(t, path)
    ensures ValidPath(t, path) ==> Erase(SubAt(t, path)) == SubAt(Erase(t), path)
    ensures ValidPath(t, path) ==> Erase(ReplaceAt(t, path, u)) == ReplaceAt(Erase(t), path, Erase(u))
    decreases |path|
  {
    if path != [] {
      var up := path[..|path| - 1];
      var d := path[|path| - 1];
      ErasePath(t, up, u);
      if ValidPath(t, up) && SubAt(t, up).Branch? {
        ErasePath(t, up, WithChild(SubAt(t, up), d, u));
      }
    }
  }

  /** Trees of the same shape have the same paths, leading to subtrees
      of the same shape. */
  lemma {:induction false} SameShapePaths(t: RbTree, t': RbTree, w: seq<Turn>)
    requires Shape(t) == Shape(t')
    ensures ValidPath(t, w) == ValidPath(t', w)
    ensures ValidPath(t, w) ==> Shape(SubAt(t, w)) == Shape(SubAt(t', w))
    decreases |w|
  {
    if w != [] {
      SameShapePaths(t, t', w[..|w| - 1]);
    }
  }

  /** Painting a node keeps the shape. */
  lemma PaintShape(t: RbTree, path: seq<Turn>, black: bool)
    requires ValidPath(t, path)
    ensures Shape(PaintAt(t, path, black)) == Shape(t)
  {
    ShapeAt(t, path, Paint(SubAt(t, path), black));
    ShapeAt(t, path, SubAt(t, path));
    ReplaceSame(t, path);
  }
}
