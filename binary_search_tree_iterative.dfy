/** The binary search tree whose operations walk down from the root in a
    loop, remembering the parent, and then change the links at the end of
    the walk. */
module BinarySearchTreeIterative {
  import opened BinaryTree
  import BstUtils
  import opened BstSpec
  import opened BstArena
  import opened TreePath

  class BinarySearchTreeIterative {
    /** The node fields, one slot per node ever created. */
    var nodes: map<Ref, Slot>
    var root: Ref
    /** The slot the next `new Node` takes. */
    var next: Ref
    /** The tree the nodes spell out from `root`, as `getRoot` shows it. */
    ghost var tree: Tree

    /** The links from `root` spell out `tree`, a search tree. */
    ghost predicate Valid()
      reads this
    {
      Below(nodes, next) && Holds(nodes, root, tree) && IsBst(tree)
    }

    /** An empty tree: `root` is null. */
    constructor ()
      ensures Valid() && tree == Nil
    {
      nodes := map[];
      root := Null;
      next := 1;
      tree := Nil;
    }

    /** `insert`: the new node is created first; the walk stops at a node
        holding `key`, leaving the tree as it was, or falls off below
        `parent`, where the new node is attached on the side `key` lies.
        Either way the tree becomes `Insert(tree, key)`, the tree the
        recursive insertion builds. */
    method Insert(key: int)
      requires Valid()
      modifies this
      ensures Valid()
      ensures tree == BstSpec.Insert(old(tree), key)
      ensures Keys(tree) == Keys(old(tree)) + {key}
    {
      ghost var t := tree;
      ghost var a := nodes;
      InsertBst(t, key);
      InsertKeys(t, key);
      RefsInside(a, root, t);
      var newNode := NewNode(key);
      Frame(a, nodes, root, t);
      if root == Null {
        root := newNode;
        tree := BstSpec.Insert(t, key);
        return;
      }
      var parent, found, path := Descend(nodes, root, key, a, t);
      if found {
        return;
      }
      ghost var b := nodes;
      Splice(a, b, root, t, path, newNode, Node(Nil, key, Nil));
      if key < nodes[parent].key {
        nodes := nodes[parent := nodes[parent].(left := newNode)];
      } else {
        nodes := nodes[parent := nodes[parent].(right := newNode)];
      }
      assert nodes == Link(b, parent, path[|path| - 1], newNode);
      assert nodes.Keys == b.Keys;
      tree := BstSpec.Insert(t, key);
    }

    /** The loop of `insert` over the nodes `ns`, which agree with `a` on
        the slots of `a`: it stops with `found` at a node holding `key`,
        where insertion changes nothing, or it falls off the tree along
        `path` below `parent`, on the side `key` lies, and insertion puts
        the new leaf there. */
    static method Descend(ns: map<Ref, Slot>, root: Ref, key: int, ghost a: map<Ref, Slot>, ghost t: Tree)
      returns (parent: Ref, found: bool, ghost path: seq<Turn>)
      requires Holds(a, root, t) && root != Null
      requires forall q :: q in a ==> q in ns && ns[q] == a[q]
      ensures found ==> BstSpec.Insert(t, key) == t
      ensures !found ==> ValidPath(t, path) && path != [] && SubAt(t, path) == Nil
      ensures !found ==> parent == RefAt(a, root, t, path[..|path| - 1]) && parent in a
      ensures !found ==> path[|path| - 1] == (key < a[parent].key)
      ensures !found ==> ReplaceAt(t, path, Node(Nil, key, Nil)) == BstSpec.Insert(t, key)
    {
      var current := root;
      parent := Null;
      path := [];
      ghost var sub := t;
      while current != Null
        invariant ValidPath(t, path) && sub == SubAt(t, path) && current == RefAt(a, root, t, path)
        invariant path != [] ==> parent == RefAt(a, root, t, path[..|path| - 1]) && parent in a
        invariant path != [] ==> path[|path| - 1] == (key < a[parent].key)
        invariant ReplaceAt(t, path, BstSpec.Insert(sub, key)) == BstSpec.Insert(t, key)
        invariant ReplaceAt(t, path, sub) == t
        decreases Size(sub)
      {
        RefsInside(a, current, sub);
        parent := current;
        if key < ns[current].key {
          Step(a, root, t, path, GoLeft);
          Extend(t, path, GoLeft, BstSpec.Insert(sub.left, key));
          Extend(t, path, GoLeft, sub.left);
          current := ns[current].left;
          path := path + [GoLeft];
          sub := sub.left;
        } else if key > ns[current].key {
          Step(a, root, t, path, GoRight);
          Extend(t, path, GoRight, BstSpec.Insert(sub.right, key));
          Extend(t, path, GoRight, sub.right);
          current := ns[current].right;
          path := path + [GoRight];
          sub := sub.right;
        } else {
          return parent, true, path;
        }
      }
      found := false;
    }

    /** `delete`: nothing happens to an empty tree or when no node holds
        `key`; otherwise the node holding it is unlinked (a leaf), replaced
        by its only child, or replaced by its in-order successor, and the
        parent, or `root`, is pointed at the replacement. The tree becomes
        `Delete(tree, key)`, the tree the recursive deletion builds. */
    method Delete(key: int)
      requires Valid()
      modifies this
      ensures Valid()
      ensures tree == BstSpec.Delete(old(tree), key)
      ensures Keys(tree) == Keys(old(tree)) - {key}
    {
      ghost var t := tree;
      DeleteKeys(t, key);
      if root == Null {
        return;
      }
      var nodeToDelete, parentNode, path := FindNode(nodes, root, key, t);
      if nodeToDelete == Null {
        return;
      }
      var isRootNode := nodeToDelete == root;
      var isLeftChild := parentNode != Null && nodes[nodeToDelete].key < nodes[parentNode].key;
      ghost var a := nodes;
      ghost var s := SubAt(t, path);
      SubAtBst(t, path);
      var b, replacement := Unlink(nodes, nodeToDelete, s);
      if isRootNode {
        nodes := b;
        root := replacement;
      } else {
        Splice(a, b, root, t, path, replacement, BstSpec.Delete(s, key));
        if isLeftChild {
          nodes := b[parentNode := b[parentNode].(left := replacement)];
        } else {
          nodes := b[parentNode := b[parentNode].(right := replacement)];
        }
        assert nodes == Link(b, parentNode, path[|path| - 1], replacement);
      }
      tree := BstSpec.Delete(t, key);
    }

    /** The loop of `delete` that looks for the node holding `key`: it
        stops there, or at null when the walk falls off the tree, along
        `path`; `parentNode` is the node before, null when the walk did
        not move. Deleting `key` from the subtree the walk stops at and
        putting the result back deletes `key` from the tree. */
    static method FindNode(ns: map<Ref, Slot>, root: Ref, key: int, ghost t: Tree)
      returns (nodeToDelete: Ref, parentNode: Ref, ghost path: seq<Turn>)
      requires Holds(ns, root, t)
      ensures ValidPath(t, path) && nodeToDelete == RefAt(ns, root, t, path)
      ensures SubAt(t, path).Nil? || SubAt(t, path).key == key
      ensures ReplaceAt(t, path, BstSpec.Delete(SubAt(t, path), key)) == BstSpec.Delete(t, key)
      ensures ReplaceAt(t, path, SubAt(t, path)) == t
      ensures path == [] ==> nodeToDelete == root && parentNode == Null
      ensures path != [] ==> nodeToDelete != root && parentNode != Null && parentNode in ns
      ensures path != [] ==> parentNode == RefAt(ns, root, t, path[..|path| - 1])
      ensures path != [] ==> path[|path| - 1] == (key < ns[parentNode].key)
    {
      nodeToDelete := root;
      parentNode := Null;
      path := [];
      ghost var sub := t;
      while nodeToDelete != Null && ns[nodeToDelete].key != key
        invariant ValidPath(t, path) && sub == SubAt(t, path) && nodeToDelete == RefAt(ns, root, t, path)
        invariant path == [] ==> nodeToDelete == root && parentNode == Null
        invariant path != [] ==> root !in Refs(ns, nodeToDelete, sub) && parentNode != Null && parentNode in ns
        invariant path != [] ==> parentNode == RefAt(ns, root, t, path[..|path| - 1])
        invariant path != [] ==> path[|path| - 1] == (key < ns[parentNode].key)
        invariant ReplaceAt(t, path, BstSpec.Delete(sub, key)) == BstSpec.Delete(t, key)
        invariant ReplaceAt(t, path, sub) == t
        decreases Size(sub)
      {
        parentNode := nodeToDelete;
        ghost var d := key < ns[nodeToDelete].key;
        Step(ns, root, t, path, d);
        Extend(t, path, d, BstSpec.Delete(Child(sub, d), key));
        Extend(t, path, d, Child(sub, d));
        assert Refs(ns, nodeToDelete, sub) == {nodeToDelete} + Refs(ns, ns[nodeToDelete].left, sub.left) + Refs(ns, ns[nodeToDelete].right, sub.right);
        if key < ns[nodeToDelete].key {
          nodeToDelete := ns[nodeToDelete].left;
        } else {
          nodeToDelete := ns[nodeToDelete].right;
        }
        path := path + [d];
        sub := Child(sub, d);
      }
      if path != [] && nodeToDelete != Null {
        RefsInside(ns, nodeToDelete, sub);
      }
    }

    /** The three cases of `delete` at the node `x` holding `s`, before the
        parent is relinked: a leaf gives null, a node with one child gives
        that child, and a node with two children gives its successor,
        rebuilt over the node's subtrees. The result holds `s` without its
        root key, over slots of `s`, and no slot outside `s` changes. */
    static method Unlink(ns: map<Ref, Slot>, x: Ref, ghost s: Tree) returns (ns': map<Ref, Slot>, y: Ref)
      requires Holds(ns, x, s) && s.Node? && IsBst(s)
      ensures ns'.Keys == ns.Keys
      ensures Holds(ns', y, BstSpec.Delete(s, s.key))
      ensures forall q :: q in Refs(ns', y, BstSpec.Delete(s, s.key)) ==> q in Refs(ns, x, s)
      ensures forall q :: q in ns && q !in Refs(ns, x, s) ==> ns'[q] == ns[q]
    {
      if ns[x].left == Null && ns[x].right == Null {
        return ns, Null;
      } else if ns[x].left == Null || ns[x].right == Null {
        var childNode := if ns[x].left != Null then ns[x].left else ns[x].right;
        return ns, childNode;
      }
      BstUtils.LeftmostIsMinimum(s.right);
      DeleteLeftmost(s.right);
      ns', y := ReplaceBySuccessor(ns, x, s);
    }

    /** Case 3 of `delete` at the node `x` holding `s`, which has two
        children: the walk down the left links of the right subtree finds
        the successor, the leftmost node there; unless it is the right
        child itself, its parent's left link takes over its right subtree
        and it takes over `x`'s right subtree; then it takes over `x`'s
        left subtree. It then holds the least key of the right subtree
        over both subtrees, the right one without that node. */
    static method ReplaceBySuccessor(ns: map<Ref, Slot>, x: Ref, ghost s: Tree) returns (ns': map<Ref, Slot>, successor: Ref)
      requires Holds(ns, x, s) && s.Node? && s.left.Node? && s.right.Node?
      ensures ns'.Keys == ns.Keys
      ensures Holds(ns', successor, Node(s.left, BstUtils.Leftmost(s.right), RemoveLeftmost(s.right)))
      ensures forall q :: q in Refs(ns', successor, Node(s.left, BstUtils.Leftmost(s.right), RemoveLeftmost(s.right))) ==> q in Refs(ns, x, s)
      ensures forall q :: q in ns && q !in Refs(ns, x, s) ==> ns'[q] == ns[q]
    {
      ghost var r := s.right;
      ghost var xr := ns[x].right;
      var successorParent;
      ghost var path, sub;
      successor, successorParent, path, sub := FindSuccessor(ns, x, s);
      ghost var mid := ns;
      ghost var restRef := ns[successor].right;
      ns' := ns;
      if successor != ns[x].right {
        ns' := ns'[successorParent := ns'[successorParent].(left := ns[successor].right)];
        mid := ns';
        restRef := ns[x].right;
        ns' := ns'[successor := ns'[successor].(right := ns[x].right)];
      }
      Detached(ns, x, s, path, sub, successor, successorParent, mid, restRef);
      ns' := ns'[successor := ns'[successor].(left := ns[x].left)];
      Rebuild(ns, x, s, mid, successor, restRef, RemoveLeftmost(r));
      assert ns' == mid[successor := Slot(mid[successor].key, ns[x].left, restRef)];
    }

    /** The loop of case 3: from `x`'s right child it follows left links
        to the leftmost node, `successor`, along `path`; `successorParent`
        is the node before it, `x` when the walk did not move. */
    static method FindSuccessor(ns: map<Ref, Slot>, x: Ref, ghost s: Tree)
      returns (successor: Ref, successorParent: Ref, ghost path: seq<Turn>, ghost sub: Tree)
      requires Holds(ns, x, s) && s.Node? && s.right.Node?
      ensures ValidPath(s.right, path) && sub == SubAt(s.right, path) && sub.Node? && sub.left.Nil?
      ensures successor == RefAt(ns, ns[x].right, s.right, path) && successor != Null && ns[successor].left == Null
      ensures path == [] <==> successor == ns[x].right
      ensures path == [] ==> successorParent == x
      ensures path != [] ==> successorParent == RefAt(ns, ns[x].right, s.right, path[..|path| - 1]) && path[|path| - 1] == GoLeft
      ensures ReplaceAt(s.right, path, sub.right) == RemoveLeftmost(s.right)
      ensures sub.key == BstUtils.Leftmost(s.right)
    {
      ghost var r := s.right;
      ghost var xr := ns[x].right;
      successor := ns[x].right;
      successorParent := x;
      path := [];
      sub := r;
      while ns[successor].left != Null
        invariant ValidPath(r, path) && sub == SubAt(r, path) && sub.Node? && successor == RefAt(ns, xr, r, path)
        invariant path != [] ==> successorParent == RefAt(ns, xr, r, path[..|path| - 1]) && path[|path| - 1] == GoLeft
        invariant path == [] ==> successorParent == x
        invariant path != [] ==> xr !in Refs(ns, successor, sub)
        invariant ReplaceAt(r, path, RemoveLeftmost(sub)) == RemoveLeftmost(r)
        invariant BstUtils.Leftmost(sub) == BstUtils.Leftmost(r)
        decreases Size(sub)
      {
        Step(ns, xr, r, path, GoLeft);
        Extend(r, path, GoLeft, RemoveLeftmost(sub.left));
        assert Refs(ns, successor, sub) == {successor} + Refs(ns, ns[successor].left, sub.left) + Refs(ns, ns[successor].right, sub.right);
        successorParent := successor;
        successor := ns[successor].left;
        path := path + [GoLeft];
        sub := sub.left;
      }
      RefsInside(ns, successor, sub);
    }

    /** After the walk of case 3, `mid` is the nodes once the
        successor's parent has taken over its right subtree (when the
        successor is not `x`'s right child): `x`'s right subtree without
        the successor is then held at `restRef`, over its old slots, and
        only that subtree's slots changed. */
    static lemma Detached(ns: map<Ref, Slot>, x: Ref, s: Tree, path: seq<Turn>, sub: Tree, successor: Ref, successorParent: Ref,
                          mid: map<Ref, Slot>, restRef: Ref)
      requires Holds(ns, x, s) && s.Node? && s.right.Node?
      requires ValidPath(s.right, path) && sub == SubAt(s.right, path) && sub.Node? && sub.left.Nil?
      requires successor == RefAt(ns, ns[x].right, s.right, path)
      requires path == [] <==> successor == ns[x].right
      requires path != [] ==> successorParent == RefAt(ns, ns[x].right, s.right, path[..|path| - 1]) && path[|path| - 1] == GoLeft
      requires ReplaceAt(s.right, path, sub.right) == RemoveLeftmost(s.right)
      requires path == [] ==> mid == ns && restRef == ns[successor].right
      requires path != [] ==> successorParent in ns && mid == Link(ns, successorParent, GoLeft, ns[successor].right) && restRef == ns[x].right
      ensures successor in Refs(ns, ns[x].right, s.right) && successor in ns && successor in mid && mid[successor] == ns[successor]
      ensures forall q :: q in ns && q !in Refs(ns, ns[x].right, s.right) ==> q in mid && mid[q] == ns[q]
      ensures mid.Keys == ns.Keys
      ensures Holds(mid, restRef, RemoveLeftmost(s.right)) && successor !in Refs(mid, restRef, RemoveLeftmost(s.right))
      ensures Refs(mid, restRef, RemoveLeftmost(s.right)) <= Refs(ns, ns[x].right, s.right)
    {
      var r := s.right;
      var xr := ns[x].right;
      RefsInside(ns, successor, sub);
      if path == [] {
        assert sub == r;
      } else {
        var up := path[..|path| - 1];
        RefsInside(ns, successorParent, SubAt(r, up));
        Step(ns, xr, r, up, GoLeft);
        assert path == up + [GoLeft];
        Splice(ns, ns, xr, r, path, ns[successor].right, sub.right);
      }
    }

    /** The last step of case 3: the successor, whose slot `mid` kept,
        takes `x`'s left subtree and, at `restRef`, the right subtree
        without the successor. */
    static lemma Rebuild(ns: map<Ref, Slot>, x: Ref, s: Tree, mid: map<Ref, Slot>, successor: Ref, restRef: Ref, rest: Tree)
      requires Holds(ns, x, s) && s.Node? && s.left.Node? && s.right.Node?
      requires successor in Refs(ns, ns[x].right, s.right) && successor in ns && successor in mid && mid[successor] == ns[successor]
      requires ns[successor].key == BstUtils.Leftmost(s.right)
      requires forall q :: q in ns && q !in Refs(ns, ns[x].right, s.right) ==> q in mid && mid[q] == ns[q]
      requires Holds(mid, restRef, rest) && successor !in Refs(mid, restRef, rest)
      requires Refs(mid, restRef, rest) <= Refs(ns, ns[x].right, s.right)
      ensures Holds(mid[successor := Slot(mid[successor].key, ns[x].left, restRef)], successor, Node(s.left, BstUtils.Leftmost(s.right), rest))
      ensures Refs(mid[successor := Slot(mid[successor].key, ns[x].left, restRef)], successor, Node(s.left, BstUtils.Leftmost(s.right), rest)) <= Refs(ns, x, s)
    {
      RefsInside(ns, ns[x].left, s.left);
      RefsInside(ns, ns[x].right, s.right);
      Frame(ns, mid, ns[x].left, s.left);
      SetBoth(mid, successor, ns[x].left, s.left, restRef, rest);
    }

    /** `new Node(key)`: a fresh slot with no children. */
    method NewNode(key: int) returns (n: Ref)
      requires Below(nodes, next)
      modifies this
      ensures n == old(next) && next == n + 1 && n !in old(nodes) && Below(nodes, next)
      ensures nodes == old(nodes)[n := Slot(key, Null, Null)]
      ensures root == old(root) && tree == old(tree)
    {
      n := next;
      nodes := nodes[n := Slot(key, Null, Null)];
      next := next + 1;
    }

    /** `search`: walks down from the root to the node holding `key`, or
        to null when the walk falls off the tree; it finds the node the
        recursive search finds. */
    method Search(key: int) returns (r: Ref)
      requires Valid()
      ensures Holds(nodes, r, BstUtils.SearchRecursive(tree, key))
      ensures r != Null <==> key in Keys(tree)
      ensures r != Null ==> r in nodes && nodes[r].key == key
    {
      var current := root;
      ghost var sub := tree;
      while current != Null
        invariant Holds(nodes, current, sub)
        invariant BstUtils.SearchRecursive(sub, key) == BstUtils.SearchRecursive(tree, key)
        decreases Size(sub)
      {
        if key == nodes[current].key {
          return current;
        }
        if key < nodes[current].key {
          current := nodes[current].left;
          sub := sub.left;
        } else {
          current := nodes[current].right;
          sub := sub.right;
        }
      }
      return Null;
    }
  }
}
