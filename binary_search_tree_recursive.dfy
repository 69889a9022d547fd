/** The binary search tree whose insert and delete recurse down the tree
    and relink each visited node to the subtree the recursion returns. */
module BinarySearchTreeRecursive {
  import opened BinaryTree
  import BstUtils
  import opened BstSpec
  import opened BstArena

  class BinarySearchTreeRecursive {
    /** The node fields, one slot per node ever created. */
    var nodes: map<Ref, Slot>
    var root: Ref
    /** The slot the next `new Node` takes. */
    var next: Ref
    /** The tree the nodes spell out from `root`, as `getRoot` shows it. */
    ghost var tree: Tree

    /** The links from `root` spell out `tree`, a search tree. */
    ghost predicate Valid()
      reads this
    {
      Below(nodes, next) && Holds(nodes, root, tree) && IsBst(tree)
    }

    /** An empty tree: `root` is null. */
    constructor ()
      ensures Valid() && tree == Nil
    {
      nodes := map[];
      root := Null;
      next := 1;
      tree := Nil;
    }

    /** `insert`: the tree becomes `Insert(tree, key)`, which holds the old
        keys and `key` in search-tree order. */
    method Insert(key: int)
      requires Valid()
      modifies this
      ensures Valid()
      ensures tree == BstSpec.Insert(old(tree), key)
      ensures Keys(tree) == Keys(old(tree)) + {key}
    {
      ghost var t := tree;
      root := InsertRecursive(root, key, t);
      tree := BstSpec.Insert(t, key);
      InsertBst(t, key);
      InsertKeys(t, key);
    }

    /** `insertRecursive`: returns the root of the subtree with `key`
        inserted, reusing the subtree's nodes and at most one new one,
        and changes no node outside the subtree. */
    method InsertRecursive(current: Ref, key: int, ghost t: Tree) returns (r: Ref)
      requires next != Null && next !in nodes && Holds(nodes, current, t)
      modifies this
      ensures nodes.Keys <= old(nodes.Keys) + {old(next)} && (next == old(next) || next == old(next) + 1)
      ensures old(next) in nodes <==> next == old(next) + 1
      ensures Holds(nodes, r, BstSpec.Insert(t, key))
      ensures forall q :: q in Refs(nodes, r, BstSpec.Insert(t, key)) ==> q in old(Refs(nodes, current, t)) || q !in old(nodes)
      ensures forall q :: q in old(nodes) && q !in old(Refs(nodes, current, t)) ==> q in nodes && nodes[q] == old(nodes[q])
      ensures root == old(root) && tree == old(tree)
      decreases t
    {
      if current == Null {
        r := NewNode(key);
        return;
      }
      ghost var a := nodes;
      RefsInside(a, current, t);
      var s := nodes[current];
      if key < s.key {
        var l := InsertRecursive(s.left, key, t.left);
        RelinkLeft(a, nodes, current, t, l, BstSpec.Insert(t.left, key));
        nodes := nodes[current := nodes[current].(left := l)];
      } else if key > s.key {
        var rt := InsertRecursive(s.right, key, t.right);
        RelinkRight(a, nodes, current, t, rt, BstSpec.Insert(t.right, key));
        nodes := nodes[current := nodes[current].(right := rt)];
      }
      r := current;
    }

    /** `delete`: the tree becomes `Delete(tree, key)`, which holds the old
        keys but `key`, in search-tree order. */
    method Delete(key: int)
      requires Valid()
      modifies this
      ensures Valid()
      ensures tree == BstSpec.Delete(old(tree), key)
      ensures Keys(tree) == Keys(old(tree)) - {key}
    {
      ghost var t := tree;
      root := DeleteRecursive(root, key, t);
      tree := BstSpec.Delete(t, key);
      DeleteKeys(t, key);
    }

    /** `deleteRecursive`: returns the root of the subtree with `key`
        deleted, over slots of the subtree, and changes no node outside
        it; a node with two children takes the least key of its right
        subtree, which is then deleted there. */
    method DeleteRecursive(current: Ref, key: int, ghost t: Tree) returns (r: Ref)
      requires Holds(nodes, current, t)
      modifies this
      ensures nodes.Keys == old(nodes.Keys) && next == old(next)
      ensures Holds(nodes, r, BstSpec.Delete(t, key))
      ensures forall q :: q in Refs(nodes, r, BstSpec.Delete(t, key)) ==> q in old(Refs(nodes, current, t))
      ensures forall q :: q in old(nodes) && q !in old(Refs(nodes, current, t)) ==> nodes[q] == old(nodes[q])
      ensures root == old(root) && tree == old(tree)
      decreases t
    {
      if current == Null {
        return Null;
      }
      ghost var a := nodes;
      RefsInside(a, current, t);
      var s := nodes[current];
      if key < s.key {
        var l := DeleteRecursive(s.left, key, t.left);
        RelinkLeft(a, nodes, current, t, l, BstSpec.Delete(t.left, key));
        nodes := nodes[current := nodes[current].(left := l)];
      } else if key > s.key {
        var rt := DeleteRecursive(s.right, key, t.right);
        RelinkRight(a, nodes, current, t, rt, BstSpec.Delete(t.right, key));
        nodes := nodes[current := nodes[current].(right := rt)];
      } else {
        if s.left == Null {
          return s.right;
        } else if s.right == Null {
          return s.left;
        }
        var m := MinValue(nodes, s.right, t.right);
        Rekey(nodes, current, m, t.left, t.right);
        nodes := nodes[current := nodes[current].(key := m)];
        ghost var b := nodes;
        ghost var tm := Node(t.left, m, t.right);
        var rt := DeleteRecursive(s.right, m, t.right);
        RelinkRight(b, nodes, current, tm, rt, BstSpec.Delete(t.right, m));
        nodes := nodes[current := nodes[current].(right := rt)];
      }
      r := current;
    }

    /** `search`: the node holding `key`, null when no node does. */
    method Search(key: int) returns (r: Ref)
      requires Valid()
      ensures r != Null <==> key in Keys(tree)
      ensures r != Null ==> r in nodes && nodes[r].key == key
    {
      r := SearchRecursive(nodes, root, key, tree);
    }

    /** `new Node(key)`: a fresh slot with no children. */
    method NewNode(key: int) returns (n: Ref)
      requires next != Null && next !in nodes
      modifies this
      ensures n == old(next) && next == n + 1
      ensures nodes == old(nodes)[n := Slot(key, Null, Null)]
      ensures root == old(root) && tree == old(tree)
    {
      n := next;
      nodes := nodes[n := Slot(key, Null, Null)];
      next := next + 1;
    }
  }
}
