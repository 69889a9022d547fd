/** `search` of the red-black tree: the recursive search of `BstUtils`
    run over the node interface of the tree's nodes. A node's `getLeft`
    and `getRight` show a sentinel child as null; the sentinel itself
    shows key 0 and null children. */
module RbSearch {
  import BinaryTree
  import BstUtils
  import opened RbSpec
  import opened RbNode
  import opened RbArena

  /** `searchRecursive(current, key)`, where the links from `current`
      spell out `t` below the parent `p`. It meets the sentinel only when
      it starts there; from anywhere else it hands back null exactly when
      the search on the uncoloured tree does. */
  function SearchFrom(a: map<Ref, RbSlot>, current: NodeView, key: int, ghost p: Ref, ghost t: RbTree): (r: NodeView)
    requires current.NodeAt? ==> Holds(a, current.ref, p, t)
    requires current.Null? ==> t == Leaf
    ensures r == NodeAt(NIL) <==> current == NodeAt(NIL) && key == SentinelKey
    ensures r.NodeAt? && r.ref != NIL ==> r.ref in a && a[r.ref].key == key
    ensures current != NodeAt(NIL) ==> (r.Null? <==> BstUtils.SearchRecursive(Shape(t), key).Nil?)
    decreases t
  {
    match current
    case Null => Null
    case NodeAt(x) =>
      if x == NIL then
        // the sentinel's key is 0, and both its children are null
        if key == SentinelKey then current else Null
      else
        assert t.Branch? && Holds(a, a[x].left, x, t.left) && Holds(a, a[x].right, x, t.right);
        if key == a[x].key then current
        else if key < a[x].key then SearchFrom(a, GetLeft(a[x]), key, x, t.left)
        else SearchFrom(a, GetRight(a[x]), key, x, t.right)
  }

  /** `search` as documented: null exactly when the key is not in the
      tree, the empty tree included, and otherwise a node of the tree
      holding the key. */
  function SearchIntended(a: map<Ref, RbSlot>, root: Ref, key: int, ghost t: RbTree): (r: NodeView)
    requires Holds(a, root, NIL, t) && BinaryTree.IsBst(Shape(t))
    ensures r.NodeAt? <==> key in BinaryTree.Keys(Shape(t))
    ensures r.NodeAt? ==> r.ref != NIL && r.ref in a && a[r.ref].key == key
  {
    if root == NIL then Null else SearchFrom(a, NodeAt(root), key, NIL, t)
  }

  /** On an empty tree `search(0)` hands back the sentinel, a node,
      although the tree holds no key; the intended search hands back
      null. */
  lemma EmptySearchFindsSentinel()
    ensures Holds(map[], NIL, NIL, Leaf) && BinaryTree.Keys(Shape(Leaf)) == {}
    ensures SearchFrom(map[], NodeAt(NIL), 0, NIL, Leaf) == NodeAt(NIL)
    ensures SearchIntended(map[], NIL, 0, Leaf) == Null
  {
  }
}
