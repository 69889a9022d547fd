/** Positions in a tree as the left/right turns a descent takes from the
    root, and the tree obtained by putting a new subtree at a position.
    The iterative tree operations walk down such a path and then change
    one link at its end. */
module TreePath {
  import opened BinaryTree

  /** One step of a descent: `true` follows the left link. */
  type Turn = bool

  const GoLeft: Turn := true
  const GoRight: Turn := false

  /** The child the turn `d` leads to. */
  function Child(t: Tree, d: Turn): Tree
    requires t.Node?
  {
    if d then t.left else t.right
  }

  /** `t` with the child on side `d` replaced by `u`. */
  function WithChild(t: Tree, d: Turn, u: Tree): Tree
    requires t.Node?
  {
    if d then Node(u, t.key, t.right) else Node(t.left, t.key, u)
  }

  /** Every turn of `path` leaves a node. */
  predicate ValidPath(t: Tree, path: seq<Turn>)
    decreases |path|, 0
  {
    path == [] || (ValidPath(t, path[..|path| - 1]) && SubAt(t, path[..|path| - 1]).Node?)
  }

  /** The subtree `path` leads to. */
  function SubAt(t: Tree, path: seq<Turn>): Tree
    requires ValidPath(t, path)
    decreases |path|, 1
  {
    if path == [] then t
    else Child(SubAt(t, path[..|path| - 1]), path[|path| - 1])
  }

  /** `t` with the subtree at `path` replaced by `u`. */
  function ReplaceAt(t: Tree, path: seq<Turn>, u: Tree): Tree
    requires ValidPath(t, path)
    decreases |path|
  {
    if path == [] then u
    else
      var up := path[..|path| - 1];
      ReplaceAt(t, up, WithChild(SubAt(t, up), path[|path| - 1], u))
  }

  /** Extending a valid path by a turn at a node keeps it valid and leads
      to that node's child; replacing there replaces that child. */
  lemma Extend(t: Tree, path: seq<Turn>, d: Turn, u: Tree)
    requires ValidPath(t, path) && SubAt(t, path).Node?
    ensures ValidPath(t, path + [d])
    ensures SubAt(t, path + [d]) == Child(SubAt(t, path), d)
    ensures ReplaceAt(t, path + [d], u) == ReplaceAt(t, path, WithChild(SubAt(t, path), d, u))
  {
    assert (path + [d])[..|path|] == path;
  }

  /** Putting back the subtree that is there changes nothing. */
  lemma {:induction false} ReplaceSame(t: Tree, path: seq<Turn>)
    requires ValidPath(t, path)
    ensures ReplaceAt(t, path, SubAt(t, path)) == t
    decreases |path|
  {
    if path != [] {
      ReplaceSame(t, path[..|path| - 1]);
    }
  }

  /** Every subtree of a search tree is a search tree. */
  lemma {:induction false} SubAtBst(t: Tree, path: seq<Turn>)
    requires ValidPath(t, path) && IsBst(t)
    ensures IsBst(SubAt(t, path))
    decreases |path|
  {
    if path != [] {
      SubAtBst(t, path[..|path| - 1]);
    }
  }
}
