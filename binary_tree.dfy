/** The read-only node view (INode) that every binary tree of the project exposes:
    a key and two possibly absent children. Traversals, the printer and the search
    helpers only ever walk this view, so it is a value type here. */
module BinaryTree {

  datatype Tree = Nil | Node(left: Tree, key: int, right: Tree)

  /** A non-null node reference, as held by the traversal stacks and queues. */
  type NodeRef = t: Tree | t.Node? witness Node(Nil, 0, Nil)

  /** Number of nodes. */
  function Size(t: Tree): nat
  {
    match t
    case Nil => 0
    case Node(l, _, r) => Size(l) + 1 + Size(r)
  }

  /** The set of keys stored in the tree. */
  function Keys(t: Tree): set<int>
  {
    match t
    case Nil => {}
    case Node(l, k, r) => Keys(l) + {k} + Keys(r)
  }

  /** The keys of the tree with their multiplicities, independent of any visit order. */
  function KeyBag(t: Tree): multiset<int>
  {
    match t
    case Nil => multiset{}
    case Node(l, k, r) => KeyBag(l) + multiset{k} + KeyBag(r)
  }

  /** Recursive in-order walk: left subtree, node, right subtree. Every node is
      visited once (`InOrderKeys`). */
  function InOrder(t: Tree): (visits: seq<int>)
    ensures |visits| == Size(t)
  {
    match t
    case Nil => []
    case Node(l, k, r) => InOrder(l) + [k] + InOrder(r)
  }

  /** Recursive pre-order walk: node, left subtree, right subtree. The root comes
      first; `PreOrderKeys` shows every node is visited once. */
  function PreOrder(t: Tree): (visits: seq<int>)
    ensures |visits| == Size(t)
    ensures t.Node? ==> visits[0] == t.key
  {
    match t
    case Nil => []
    case Node(l, k, r) => [k] + PreOrder(l) + PreOrder(r)
  }

  /** Recursive post-order walk: left subtree, right subtree, node. The root comes
      last; `PostOrderKeys` shows every node is visited once. */
  function PostOrder(t: Tree): (visits: seq<int>)
    ensures |visits| == Size(t)
    ensures t.Node? ==> visits[|visits| - 1] == t.key
  {
    match t
    case Nil => []
    case Node(l, k, r) => PostOrder(l) + PostOrder(r) + [k]
  }

  /** Binary-search-tree order: every key of a left subtree is smaller than the
      node's key and every key of a right subtree is larger (keys are unique). */
  ghost predicate IsBst(t: Tree)
  {
    match t
    case Nil => true
    case Node(l, k, r) =>
      && IsBst(l) && IsBst(r)
      && (forall x :: x in Keys(l) ==> x < k)
      && (forall x :: x in Keys(r) ==> k < x)
  }

  predicate StrictlyIncreasing(s: seq<int>)
  {
    forall i, j :: 0 <= i < j < |s| ==> s[i] < s[j]
  }

  /** The key bag and the key set hold the same keys. */
  lemma {:induction false} KeyBagKeys(t: Tree)
    ensures forall x :: x in KeyBag(t) <==> x in Keys(t)
  {
    match t
    case Nil =>
    case Node(l, k, r) =>
      KeyBagKeys(l);
      KeyBagKeys(r);
  }

  /** The in-order walk lists every node once, hence exactly the stored keys. */
  lemma {:induction false} InOrderKeys(t: Tree)
    ensures multiset(InOrder(t)) == KeyBag(t)
    ensures forall x :: x in InOrder(t) <==> x in Keys(t)
  {
    match t
    case Nil =>
    case Node(l, k, r) =>
      InOrderKeys(l);
      InOrderKeys(r);
      KeyBagKeys(t);
      assert InOrder(t) == InOrder(l) + [k] + InOrder(r);
      assert forall x :: x in InOrder(t) <==> x in multiset(InOrder(t));
  }

  /** The stored keys are the elements of the in-order sequence. */
  lemma KeysOfInOrder(t: Tree)
    ensures Keys(t) == set x | x in InOrder(t)
  {
    InOrderKeys(t);
  }

  /** Trees with the same in-order sequence hold the same keys, and one
      is a search tree exactly when the other is. */
  lemma SameInOrder(t: Tree, u: Tree)
    requires InOrder(t) == InOrder(u)
    ensures Keys(t) == Keys(u)
    ensures IsBst(t) <==> IsBst(u)
  {
    KeysOfInOrder(t);
    KeysOfInOrder(u);
    BstIffInOrderIncreasing(t);
    BstIffInOrderIncreasing(u);
  }

  /** The pre-order walk lists every node once. */
  lemma {:induction false} PreOrderKeys(t: Tree)
    ensures multiset(PreOrder(t)) == KeyBag(t)
  {
    match t
    case Nil =>
    case Node(l, k, r) =>
      PreOrderKeys(l);
      PreOrderKeys(r);
      assert PreOrder(t) == [k] + PreOrder(l) + PreOrder(r);
  }

  /** The post-order walk lists every node once. */
  lemma {:induction false} PostOrderKeys(t: Tree)
    ensures multiset(PostOrder(t)) == KeyBag(t)
  {
    match t
    case Nil =>
    case Node(l, k, r) =>
      PostOrderKeys(l);
      PostOrderKeys(r);
      assert PostOrder(t) == PostOrder(l) + PostOrder(r) + [k];
  }

  lemma {:induction false} IncreasingConcat(a: seq<int>, k: int, b: seq<int>)
    requires StrictlyIncreasing(a) && StrictlyIncreasing(b)
    requires forall x :: x in a ==> x < k
    requires forall x :: x in b ==> k < x
    ensures StrictlyIncreasing(a + [k] + b)
  {
    var s := a + [k] + b;
    forall i, j | 0 <= i < j < |s| ensures s[i] < s[j] {
      if j < |a| {
      } else if i < |a| {
        assert s[i] in a;
        if j > |a| { assert s[j] == b[j - |a| - 1]; assert s[j] in b; }
      } else if i == |a| {
        assert s[j] == b[j - |a| - 1]; assert s[j] in b;
      } else {
        assert s[i] == b[i - |a| - 1] && s[j] == b[j - |a| - 1];
      }
    }
  }

  /** The parts of a strictly increasing sequence `a + [k] + b` are increasing and
      are separated by `k`. */
  lemma {:induction false} IncreasingSplit(a: seq<int>, k: int, b: seq<int>)
    requires StrictlyIncreasing(a + [k] + b)
    ensures StrictlyIncreasing(a) && StrictlyIncreasing(b)
    ensures forall x :: x in a ==> x < k
    ensures forall x :: x in b ==> k < x
  {
    var s := a + [k] + b;
    forall i, j | 0 <= i < j < |a| ensures a[i] < a[j] {
      assert s[i] == a[i] && s[j] == a[j];
    }
    var o := |a| + 1;
    forall i, j | 0 <= i < j < |b| ensures b[i] < b[j] {
      assert s[o + i] == b[i] && s[o + j] == b[j];
    }
    forall x | x in a ensures x < k {
      var i :| 0 <= i < |a| && a[i] == x;
      assert s[i] == x && s[|a|] == k;
    }
    forall x | x in b ensures k < x {
      var i :| 0 <= i < |b| && b[i] == x;
      assert s[o + i] == x && s[|a|] == k;
    }
  }

  /** A tree is a BST exactly when its in-order walk is strictly increasing. */
  lemma {:induction false} BstIffInOrderIncreasing(t: Tree)
    ensures IsBst(t) <==> StrictlyIncreasing(InOrder(t))
  {
    match t
    case Nil =>
    case Node(l, k, r) =>
      BstIffInOrderIncreasing(l);
      BstIffInOrderIncreasing(r);
      InOrderKeys(l);
      InOrderKeys(r);
      assert InOrder(t) == InOrder(l) + [k] + InOrder(r);
      if IsBst(t) {
        IncreasingConcat(InOrder(l), k, InOrder(r));
      }
      if StrictlyIncreasing(InOrder(t)) {
        IncreasingSplit(InOrder(l), k, InOrder(r));
      }
  }
}
