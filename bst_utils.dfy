/** Helpers shared by the binary search trees: the recursive key search and the
    minimum-key walk used to find an in-order successor. */
module BstUtils {
  import opened BinaryTree

  /** The key of the leftmost node. */
  function Leftmost(t: Tree): int
    requires t.Node?
  {
    if t.left.Nil? then t.key else Leftmost(t.left)
  }

  /** On a BST the leftmost key is the smallest stored key. */
  lemma {:induction false} LeftmostIsMinimum(t: Tree)
    requires t.Node?
    ensures Leftmost(t) in Keys(t)
    ensures IsBst(t) ==> forall x :: x in Keys(t) ==> Leftmost(t) <= x
  {
    if t.left.Node? {
      LeftmostIsMinimum(t.left);
    }
  }

  /** Walks left from a non-null root, remembering the last key seen. */
  method MinValue(root: Tree) returns (minValue: int)
    requires root.Node?
    ensures minValue == Leftmost(root)
    ensures minValue in Keys(root)
    ensures IsBst(root) ==> forall x :: x in Keys(root) ==> minValue <= x
  {
    var node := root;
    minValue := node.key;
    while node.left.Node?
      invariant node.Node? && minValue == node.key
      invariant Leftmost(node) == Leftmost(root)
      decreases Size(node)
    {
      minValue := node.left.key;
      node := node.left;
    }
    LeftmostIsMinimum(root);
  }

  /** `t` occurs as a subtree of `s` (including `s` itself). */
  predicate IsSubtree(t: Tree, s: Tree)
  {
    t == s || (s.Node? && (IsSubtree(t, s.left) || IsSubtree(t, s.right)))
  }

  /** Recursive search: null when the key is not met on the descent path, else the
      node holding it. The descent goes left when the key is smaller and right
      otherwise. */
  function SearchRecursive(current: Tree, key: int): (r: Tree)
    ensures r.Node? ==> r.key == key && IsSubtree(r, current)
    ensures r.Node? ==> key in Keys(current)
    ensures IsBst(current) && key in Keys(current) ==> r.Node?
  {
    if current.Nil? then Nil
    else if key == current.key then current
    else if key < current.key then
      assert key !in Keys(current.left) && IsBst(current) ==> key !in Keys(current.right);
      SearchRecursive(current.left, key)
    else
      assert key !in Keys(current.right) && IsBst(current) ==> key !in Keys(current.left);
      SearchRecursive(current.right, key)
  }
}
