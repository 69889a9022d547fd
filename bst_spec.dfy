/** The binary-search-tree operations as functions on tree values: the
    tree each insert and delete leaves behind, whatever nodes it reuses. */
module BstSpec {
  import opened BinaryTree
  import opened BstUtils

  /** The tree after `insertRecursive(t, key)`: a new leaf where the
      descent falls off the tree, or `t` itself when the descent meets
      `key`. */
  function Insert(t: Tree, key: int): Tree
  {
    match t
    case Nil => Node(Nil, key, Nil)
    case Node(l, k, r) =>
      if key < k then Node(Insert(l, key), k, r)
      else if key > k then Node(l, k, Insert(r, key))
      else t
  }

  /** Insertion adds exactly `key` to the key set. */
  lemma {:induction false} InsertKeys(t: Tree, key: int)
    ensures Keys(Insert(t, key)) == Keys(t) + {key}
  {
    match t
    case Nil =>
    case Node(l, k, r) =>
      if key < k {
        InsertKeys(l, key);
      } else if key > k {
        InsertKeys(r, key);
      }
  }

  /** Insertion keeps search-tree order. */
  lemma {:induction false} InsertBst(t: Tree, key: int)
    requires IsBst(t)
    ensures IsBst(Insert(t, key))
  {
    match t
    case Nil =>
    case Node(l, k, r) =>
      if key < k {
        InsertBst(l, key);
        InsertKeys(l, key);
      } else if key > k {
        InsertBst(r, key);
        InsertKeys(r, key);
      }
  }

  /** When the descent meets `key`, insertion changes nothing. */
  lemma {:induction false} InsertFound(t: Tree, key: int)
    requires SearchRecursive(t, key).Node?
    ensures Insert(t, key) == t
  {
    match t
    case Nil =>
    case Node(l, k, r) =>
      if key < k {
        InsertFound(l, key);
      } else if key > k {
        InsertFound(r, key);
      }
  }

  /** The tree after `deleteRecursive(t, key)`: the node holding `key` is
      replaced by its only child, or, with two children, takes the least
      key of its right subtree, which is then deleted there. */
  function Delete(t: Tree, key: int): Tree
  {
    match t
    case Nil => Nil
    case Node(l, k, r) =>
      if key < k then Node(Delete(l, key), k, r)
      else if key > k then Node(l, k, Delete(r, key))
      else if l.Nil? then r
      else if r.Nil? then l
      else Node(l, Leftmost(r), Delete(r, Leftmost(r)))
  }

  /** On a search tree, deletion removes exactly `key` from the key set
      and keeps the order. */
  lemma {:induction false} DeleteKeys(t: Tree, key: int)
    requires IsBst(t)
    ensures Keys(Delete(t, key)) == Keys(t) - {key}
    ensures IsBst(Delete(t, key))
  {
    match t
    case Nil =>
    case Node(l, k, r) =>
      if key < k {
        DeleteKeys(l, key);
      } else if key > k {
        DeleteKeys(r, key);
      } else if l.Node? && r.Node? {
        var m := Leftmost(r);
        LeftmostIsMinimum(r);
        DeleteKeys(r, m);
        assert forall x :: x in Keys(l) ==> x < m;
      }
  }

  /** When the descent does not meet `key`, deletion changes nothing. */
  lemma {:induction false} DeleteMissed(t: Tree, key: int)
    requires SearchRecursive(t, key).Nil?
    ensures Delete(t, key) == t
  {
    match t
    case Nil =>
    case Node(l, k, r) =>
      if key < k {
        DeleteMissed(l, key);
      } else if key > k {
        DeleteMissed(r, key);
      }
  }

  /** The tree without its leftmost node, that node's right subtree taking
      its place. */
  function RemoveLeftmost(t: Tree): Tree
    requires t.Node?
  {
    if t.left.Nil? then t.right else Node(RemoveLeftmost(t.left), t.key, t.right)
  }

  /** On a search tree, deleting the least key unlinks the leftmost node. */
  lemma {:induction false} DeleteLeftmost(t: Tree)
    requires t.Node? && IsBst(t)
    ensures Delete(t, Leftmost(t)) == RemoveLeftmost(t)
  {
    if t.left.Node? {
      LeftmostIsMinimum(t.left);
      DeleteLeftmost(t.left);
    }
  }
}
