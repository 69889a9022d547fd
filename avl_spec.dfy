/** The AVL operations as functions on tree values: heights, balance
    factors, the two rotations, and the trees insertion and deletion leave
    behind, with the rebalancing cases the tree applies on the way back
    up. */
module AvlSpec {
  import opened BinaryTree
  import BstUtils
  import Java

  /** The number of edges on the longest path down: -1 for the empty
      tree, 0 for a leaf. */
  function Height(t: Tree): (h: int)
    ensures h >= -1 && (t.Node? <==> h >= 0)
  {
    match t
    case Nil => -1
    case Node(l, _, r) => Java.Max(Height(l), Height(r)) + 1
  }

  /** `getBalance`: left height minus right height, 0 for the empty tree. */
  function Balance(t: Tree): int
  {
    match t
    case Nil => 0
    case Node(l, _, r) => Height(l) - Height(r)
  }

  /** Every node's balance factor lies in -1..1. */
  predicate Balanced(t: Tree)
  {
    match t
    case Nil => true
    case Node(l, _, r) => -1 <= Balance(t) <= 1 && Balanced(l) && Balanced(r)
  }

  /** `rightRotate`: the left child becomes the root and the old root its
      right child, which adopts the child's right subtree. The rotation
      reads the left child, so it applies only when there is one; the
      balanced trees the tree keeps never rotate otherwise. */
  function RotateRight(t: Tree): Tree
  {
    if t.Node? && t.left.Node? then Node(t.left.left, t.left.key, Node(t.left.right, t.key, t.right)) else t
  }

  /** `leftRotate`, the mirror image of `rightRotate`. */
  function RotateLeft(t: Tree): Tree
  {
    if t.Node? && t.right.Node? then Node(Node(t.left, t.key, t.right.left), t.right.key, t.right.right) else t
  }

  /** The rebalancing at the end of `insertRecursive` for the node `c`
      whose subtree took `key`: a single rotation when `key` went to the
      outer side of the heavy child, a double one when it went to the
      inner side. */
  function InsertFix(c: Tree, key: int): Tree
    requires c.Node?
  {
    var balance := Balance(c);
    if balance > 1 && key < c.left.key then RotateRight(c)
    else if balance < -1 && key > c.right.key then RotateLeft(c)
    else if balance > 1 && key > c.left.key then RotateRight(Node(RotateLeft(c.left), c.key, c.right))
    else if balance < -1 && key < c.right.key then RotateLeft(Node(c.left, c.key, RotateRight(c.right)))
    else c
  }

  /** The rebalancing after an insertion finds every node it rotates: the
      double rotations read the inner grandchild. */
  ghost predicate InsertFixSafe(c: Tree, key: int)
    requires c.Node?
  {
    (Balance(c) > 1 && key > c.left.key ==> c.left.right.Node?) &&
    (Balance(c) < -1 && key < c.right.key ==> c.right.left.Node?)
  }

  /** The tree `insertRecursive(t, key)` returns. */
  function Insert(t: Tree, key: int): Tree
  {
    match t
    case Nil => Node(Nil, key, Nil)
    case Node(l, k, r) =>
      if key < k then InsertFix(Node(Insert(l, key), k, r), key)
      else if key > k then InsertFix(Node(l, k, Insert(r, key)), key)
      else t
  }

  /** The rebalancing at the end of `deleteRecursive` for the node `c`: a
      single rotation when the heavy child leans its way or not at all,
      a double one when it leans the other way. */
  function DeleteFix(c: Tree): Tree
    requires c.Node?
  {
    var balance := Balance(c);
    if balance > 1 && Balance(c.left) >= 0 then RotateRight(c)
    else if balance > 1 && Balance(c.left) < 0 then RotateRight(Node(RotateLeft(c.left), c.key, c.right))
    else if balance < -1 && Balance(c.right) <= 0 then RotateLeft(c)
    else if balance < -1 && Balance(c.right) > 0 then RotateLeft(Node(c.left, c.key, RotateRight(c.right)))
    else c
  }

  /** The tree `deleteRecursive(t, key)` returns: a node with one child or
      none gives way to that child, unbalanced; a node with two children
      takes the least key of its right subtree, which is then deleted
      there. */
  function Delete(t: Tree, key: int): Tree
  {
    match t
    case Nil => Nil
    case Node(l, k, r) =>
      if key < k then DeleteFix(Node(Delete(l, key), k, r))
      else if key > k then DeleteFix(Node(l, k, Delete(r, key)))
      else if l.Nil? then r
      else if r.Nil? then l
      else DeleteFix(Node(l, BstUtils.Leftmost(r), Delete(r, BstUtils.Leftmost(r))))
  }

  // ---------------------------------------------------------------------
  // Order: rotations keep the in-order sequence.

  /** A right rotation keeps the in-order key sequence. */
  lemma RotateRightKeepsOrder(t: Tree)
    ensures InOrder(RotateRight(t)) == InOrder(t)
  {
    if t.Node? && t.left.Node? {
      var l := t.left;
      calc {
        InOrder(RotateRight(t));
        InOrder(l.left) + [l.key] + (InOrder(l.right) + [t.key] + InOrder(t.right));
        InOrder(l.left) + [l.key] + InOrder(l.right) + [t.key] + InOrder(t.right);
      }
    }
  }

  /** A left rotation keeps the in-order key sequence. */
  lemma RotateLeftKeepsOrder(t: Tree)
    ensures InOrder(RotateLeft(t)) == InOrder(t)
  {
    if t.Node? && t.right.Node? {
      var r := t.right;
      calc {
        InOrder(RotateLeft(t));
        (InOrder(t.left) + [t.key] + InOrder(r.left)) + [r.key] + InOrder(r.right);
        InOrder(t.left) + [t.key] + (InOrder(r.left) + [r.key] + InOrder(r.right));
      }
    }
  }

  /** Rebalancing after an insertion keeps the in-order key sequence. */
  lemma InsertFixKeepsOrder(c: Tree, key: int)
    requires c.Node?
    ensures InOrder(InsertFix(c, key)) == InOrder(c)
  {
    var balance := Balance(c);
    if balance > 1 && key < c.left.key {
      RotateRightKeepsOrder(c);
    } else if balance < -1 && key > c.right.key {
      RotateLeftKeepsOrder(c);
    } else if balance > 1 && key > c.left.key {
      LeftThenRightKeepsOrder(c);
    } else if balance < -1 && key < c.right.key {
      RightThenLeftKeepsOrder(c);
    }
  }

  /** Rebalancing after a deletion keeps the in-order key sequence. */
  lemma DeleteFixKeepsOrder(c: Tree)
    requires c.Node?
    ensures InOrder(DeleteFix(c)) == InOrder(c)
  {
    var balance := Balance(c);
    if balance > 1 && Balance(c.left) >= 0 {
      RotateRightKeepsOrder(c);
    } else if balance > 1 && Balance(c.left) < 0 {
      LeftThenRightKeepsOrder(c);
    } else if balance < -1 && Balance(c.right) <= 0 {
      RotateLeftKeepsOrder(c);
    } else if balance < -1 && Balance(c.right) > 0 {
      RightThenLeftKeepsOrder(c);
    }
  }

  /** The left-right double rotation keeps the in-order key sequence. */
  lemma LeftThenRightKeepsOrder(c: Tree)
    requires c.Node?
    ensures InOrder(RotateRight(Node(RotateLeft(c.left), c.key, c.right))) == InOrder(c)
  {
    RotateLeftKeepsOrder(c.left);
    RotateRightKeepsOrder(Node(RotateLeft(c.left), c.key, c.right));
  }

  /** The right-left double rotation keeps the in-order key sequence. */
  lemma RightThenLeftKeepsOrder(c: Tree)
    requires c.Node?
    ensures InOrder(RotateLeft(Node(c.left, c.key, RotateRight(c.right)))) == InOrder(c)
  {
    RotateRightKeepsOrder(c.right);
    RotateLeftKeepsOrder(Node(c.left, c.key, RotateRight(c.right)));
  }

  /** Insertion adds exactly `key` and keeps search-tree order. */
  lemma {:induction false} InsertKeys(t: Tree, key: int)
    ensures Keys(Insert(t, key)) == Keys(t) + {key}
    ensures IsBst(t) ==> IsBst(Insert(t, key))
  {
    match t
    case Nil =>
    case Node(l, k, r) =>
      if key < k {
        InsertKeys(l, key);
        var c := Node(Insert(l, key), k, r);
        InsertFixKeepsOrder(c, key);
        SameInOrder(c, InsertFix(c, key));
      } else if key > k {
        InsertKeys(r, key);
        var c := Node(l, k, Insert(r, key));
        InsertFixKeepsOrder(c, key);
        SameInOrder(c, InsertFix(c, key));
      }
  }

  /** Rebalancing after a deletion keeps the keys and the order. */
  lemma DeleteFixKeys(c: Tree)
    requires c.Node?
    ensures Keys(DeleteFix(c)) == Keys(c) && (IsBst(DeleteFix(c)) <==> IsBst(c))
  {
    DeleteFixKeepsOrder(c);
    SameInOrder(c, DeleteFix(c));
  }

  /** Deleting from the left subtree removes exactly `key` and keeps
      order, once the subtree's deletion does. */
  lemma DeleteLeftKeys(l: Tree, k: int, r: Tree, key: int)
    requires IsBst(Node(l, k, r)) && key < k
    requires Keys(Delete(l, key)) == Keys(l) - {key} && IsBst(Delete(l, key))
    ensures Keys(Delete(Node(l, k, r), key)) == Keys(Node(l, k, r)) - {key}
    ensures IsBst(Delete(Node(l, k, r), key))
  {
    var c := Node(Delete(l, key), k, r);
    assert IsBst(c);
    DeleteFixKeys(c);
  }

  /** Deleting from the right subtree removes exactly `key` and keeps
      order, once the subtree's deletion does. */
  lemma DeleteRightKeys(l: Tree, k: int, r: Tree, key: int)
    requires IsBst(Node(l, k, r)) && key > k
    requires Keys(Delete(r, key)) == Keys(r) - {key} && IsBst(Delete(r, key))
    ensures Keys(Delete(Node(l, k, r), key)) == Keys(Node(l, k, r)) - {key}
    ensures IsBst(Delete(Node(l, k, r), key))
  {
    var c := Node(l, k, Delete(r, key));
    assert IsBst(c);
    DeleteFixKeys(c);
  }

  /** Removing the least element `m` of `all` leaves only elements above
      `m`. */
  lemma StrictlyAbove(rest: set<int>, all: set<int>, m: int)
    requires rest == all - {m} && forall x :: x in all ==> m <= x
    ensures forall x :: x in rest ==> m < x
  {
  }

  /** Replacing the key of a node with two children by its successor, then
      deleting the successor from the right subtree, removes exactly the
      key and keeps order, once that deletion does. */
  lemma DeleteHereKeys(l: Tree, k: int, r: Tree)
    requires IsBst(Node(l, k, r)) && l.Node? && r.Node?
    requires Keys(Delete(r, BstUtils.Leftmost(r))) == Keys(r) - {BstUtils.Leftmost(r)}
    requires IsBst(Delete(r, BstUtils.Leftmost(r)))
    ensures Keys(Delete(Node(l, k, r), k)) == Keys(Node(l, k, r)) - {k}
    ensures IsBst(Delete(Node(l, k, r), k))
  {
    var m := BstUtils.Leftmost(r);
    BstUtils.LeftmostIsMinimum(r);
    var d := Delete(r, m);
    assert k < m;
    StrictlyAbove(Keys(d), Keys(r), m);
    var c := Node(l, m, d);
    assert IsBst(c);
    DeleteFixKeys(c);
    assert Keys(c) == Keys(l) + Keys(r);
    assert Delete(Node(l, k, r), k) == DeleteFix(c);
  }

  /** On a search tree, deletion removes exactly `key` and keeps
      search-tree order. */
  lemma {:induction false} DeleteKeys(t: Tree, key: int)
    requires IsBst(t)
    ensures Keys(Delete(t, key)) == Keys(t) - {key}
    ensures IsBst(Delete(t, key))
  {
    match t
    case Nil =>
    case Node(l, k, r) =>
      if key < k {
        DeleteKeys(l, key);
        DeleteLeftKeys(l, k, r, key);
      } else if key > k {
        DeleteKeys(r, key);
        DeleteRightKeys(l, k, r, key);
      } else if l.Node? && r.Node? {
        BstUtils.LeftmostIsMinimum(r);
        DeleteKeys(r, BstUtils.Leftmost(r));
        DeleteHereKeys(l, k, r);
      }
  }

  // ---------------------------------------------------------------------
  // Balance: the rebalancing keeps every balance factor in -1..1 and the
  // height within one of what it was.

  /** A single right rotation of a node whose left side is two higher and
      does not lean right gives a balanced tree one lower or as high; one
      lower when the left child leans left. */
  lemma SingleRight(c: Tree)
    requires c.Node? && Balanced(c.left) && Balanced(c.right)
    requires Balance(c) == 2 && Balance(c.left) >= 0
    ensures Balanced(RotateRight(c))
    ensures Height(c) - 1 <= Height(RotateRight(c)) <= Height(c)
    ensures Balance(c.left) == 1 ==> Height(RotateRight(c)) == Height(c) - 1
  {
    var a, b := c.left.left, c.left.right;
    assert Balanced(Node(b, c.key, c.right));
  }

  /** The mirror image of `SingleRight`. */
  lemma SingleLeft(c: Tree)
    requires c.Node? && Balanced(c.left) && Balanced(c.right)
    requires Balance(c) == -2 && Balance(c.right) <= 0
    ensures Balanced(RotateLeft(c))
    ensures Height(c) - 1 <= Height(RotateLeft(c)) <= Height(c)
    ensures Balance(c.right) == -1 ==> Height(RotateLeft(c)) == Height(c) - 1
  {
    assert Balanced(Node(c.left, c.key, c.right.left));
  }

  /** A left-right double rotation of a node whose left side is two higher
      and leans right gives a balanced tree one lower. */
  lemma DoubleRight(c: Tree)
    requires c.Node? && Balanced(c.left) && Balanced(c.right)
    requires Balance(c) == 2 && Balance(c.left) < 0
    ensures Balanced(RotateRight(Node(RotateLeft(c.left), c.key, c.right)))
    ensures Height(RotateRight(Node(RotateLeft(c.left), c.key, c.right))) == Height(c) - 1
  {
    var l := c.left;
    var b := l.right;
    assert Balanced(Node(l.left, l.key, b.left));
    assert Balanced(Node(b.right, c.key, c.right));
  }

  /** The mirror image of `DoubleRight`. */
  lemma DoubleLeft(c: Tree)
    requires c.Node? && Balanced(c.left) && Balanced(c.right)
    requires Balance(c) == -2 && Balance(c.right) > 0
    ensures Balanced(RotateLeft(Node(c.left, c.key, RotateRight(c.right))))
    ensures Height(RotateLeft(Node(c.left, c.key, RotateRight(c.right)))) == Height(c) - 1
  {
    var r := c.right;
    var b := r.left;
    assert Balanced(Node(c.left, c.key, b.left));
    assert Balanced(Node(b.right, r.key, r.right));
  }

  /** Rebalancing after a deletion, over balanced subtrees that differ in
      height by at most two, gives a balanced tree one lower or as high, and
      changes nothing when the node is already balanced. */
  lemma DeleteFixBalanced(c: Tree)
    requires c.Node? && Balanced(c.left) && Balanced(c.right) && -2 <= Balance(c) <= 2
    ensures Balanced(DeleteFix(c))
    ensures Height(c) - 1 <= Height(DeleteFix(c)) <= Height(c)
    ensures -1 <= Balance(c) <= 1 ==> DeleteFix(c) == c
  {
    if Balance(c) == 2 {
      if Balance(c.left) >= 0 { SingleRight(c); } else { DoubleRight(c); }
    } else if Balance(c) == -2 {
      if Balance(c.right) <= 0 { SingleLeft(c); } else { DoubleLeft(c); }
    }
  }

  /** Rebalancing after an insertion, when a two-level imbalance comes from
      a child that leans towards the side `key` went, gives a balanced tree
      one lower, and changes nothing when the node is already balanced. */
  lemma InsertFixBalanced(c: Tree, key: int)
    requires c.Node? && Balanced(c.left) && Balanced(c.right) && -2 <= Balance(c) <= 2
    requires Balance(c) == 2 ==>
      (key < c.left.key && Balance(c.left) == 1) || (key > c.left.key && Balance(c.left) == -1)
    requires Balance(c) == -2 ==>
      (key > c.right.key && Balance(c.right) == -1) || (key < c.right.key && Balance(c.right) == 1)
    ensures Balanced(InsertFix(c, key))
    ensures -1 <= Balance(c) <= 1 ==> InsertFix(c, key) == c
    ensures (Balance(c) == 2 || Balance(c) == -2) ==> Height(InsertFix(c, key)) == Height(c) - 1
  {
    if Balance(c) == 2 {
      if key < c.left.key { SingleRight(c); } else { DoubleRight(c); }
    } else if Balance(c) == -2 {
      if key > c.right.key { SingleLeft(c); } else { DoubleLeft(c); }
    }
  }

  /** Insertion into a balanced tree gives a balanced tree as high or one
      higher; when a node's subtree grows, the new root leans towards the
      side the key went. */
  lemma {:induction false} InsertBalanced(t: Tree, key: int)
    requires Balanced(t)
    ensures Balanced(Insert(t, key))
    ensures Height(t) <= Height(Insert(t, key)) <= Height(t) + 1
    ensures t.Node? && Height(Insert(t, key)) == Height(t) + 1 ==>
      (key < Insert(t, key).key && Balance(Insert(t, key)) == 1) ||
      (key > Insert(t, key).key && Balance(Insert(t, key)) == -1)
  {
    match t
    case Nil =>
    case Node(l, k, r) =>
      if key < k {
        InsertBalanced(l, key);
        InsertFixBalanced(Node(Insert(l, key), k, r), key);
      } else if key > k {
        InsertBalanced(r, key);
        InsertFixBalanced(Node(l, k, Insert(r, key)), key);
      }
  }

  /** On a balanced search tree, inserting a present key changes
      nothing. */
  lemma {:induction false} InsertPresent(t: Tree, key: int)
    requires IsBst(t) && Balanced(t) && key in Keys(t)
    ensures Insert(t, key) == t
  {
    match t
    case Node(l, k, r) =>
      if key < k {
        InsertPresent(l, key);
      } else if key > k {
        InsertPresent(r, key);
      }
  }

  /** Deleting from the left subtree of a balanced node keeps it balanced
      and as high or one lower, once the subtree's deletion does. */
  lemma DeleteLeftBalanced(l: Tree, k: int, r: Tree, key: int)
    requires Balanced(Node(l, k, r)) && key < k
    requires Balanced(Delete(l, key)) && Height(l) - 1 <= Height(Delete(l, key)) <= Height(l)
    ensures Balanced(Delete(Node(l, k, r), key))
    ensures Height(Node(l, k, r)) - 1 <= Height(Delete(Node(l, k, r), key)) <= Height(Node(l, k, r))
  {
    DeleteFixBalanced(Node(Delete(l, key), k, r));
  }

  /** Deleting `key` from the right subtree of a balanced node keeps it
      balanced and as high or one lower, once the subtree's deletion does;
      `m` is the node's key after the step, its own or its successor's. */
  lemma DeleteRightBalanced(l: Tree, m: int, r: Tree, key: int)
    requires Balanced(Node(l, m, r))
    requires Balanced(Delete(r, key)) && Height(r) - 1 <= Height(Delete(r, key)) <= Height(r)
    ensures Balanced(DeleteFix(Node(l, m, Delete(r, key))))
    ensures Height(Node(l, m, r)) - 1 <= Height(DeleteFix(Node(l, m, Delete(r, key)))) <= Height(Node(l, m, r))
  {
    DeleteFixBalanced(Node(l, m, Delete(r, key)));
  }

  /** Deletion from a balanced tree gives a balanced tree as high or one
      lower. */
  lemma {:induction false} DeleteBalanced(t: Tree, key: int)
    requires Balanced(t)
    ensures Balanced(Delete(t, key))
    ensures Height(t) - 1 <= Height(Delete(t, key)) <= Height(t)
  {
    match t
    case Nil =>
    case Node(l, k, r) =>
      if key < k {
        DeleteBalanced(l, key);
        DeleteLeftBalanced(l, k, r, key);
      } else if key > k {
        DeleteBalanced(r, key);
        DeleteRightBalanced(l, k, r, key);
      } else if l.Node? && r.Node? {
        var m := BstUtils.Leftmost(r);
        DeleteBalanced(r, m);
        DeleteRightBalanced(l, m, r, m);
        assert Height(Node(l, m, r)) == Height(t);
      }
  }

  /** On a balanced search tree, deleting an absent key changes nothing. */
  lemma {:induction false} DeleteAbsent(t: Tree, key: int)
    requires IsBst(t) && Balanced(t) && key !in Keys(t)
    ensures Delete(t, key) == t
  {
    match t
    case Nil =>
    case Node(l, k, r) =>
      if key < k {
        DeleteAbsent(l, key);
      } else {
        DeleteAbsent(r, key);
      }
  }

  /** On a balanced tree, the rebalancing after an insertion into either
      subtree finds every node it rotates. */
  lemma InsertSafe(t: Tree, key: int)
    requires Balanced(t) && t.Node?
    ensures key < t.key ==> InsertFixSafe(Node(Insert(t.left, key), t.key, t.right), key)
    ensures key > t.key ==> InsertFixSafe(Node(t.left, t.key, Insert(t.right, key)), key)
  {
    if key < t.key {
      InsertBalanced(t.left, key);
    } else if key > t.key {
      InsertBalanced(t.right, key);
    }
  }
}
