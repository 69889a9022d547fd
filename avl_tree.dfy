/** The AVL tree: a search tree whose insert and delete recurse down,
    relink each visited node to the subtree the recursion returns, and on
    the way back up store the node's height and rotate it when its balance
    factor leaves -1..1. */
module AvlTree {
  import opened BinaryTree
  import BstUtils
  import Java
  import opened TreePath
  import opened BstArena
  import opened AvlSpec
  import opened AvlArena

  class AvlTree {
    /** The shape fields of the nodes, one slot per node ever created. */
    var nodes: map<Ref, Slot>
    /** The `height` field of each node. */
    var heights: map<Ref, int>
    var root: Ref
    /** The slot the next `new AvlNode` takes. */
    var next: Ref
    /** The tree the nodes spell out from `root`. */
    ghost var tree: Tree

    /** The links from `root` spell out `tree`, a balanced search tree
        whose nodes store their heights. */
    ghost predicate Valid()
      reads this
    {
      Below(nodes, next) && heights.Keys == nodes.Keys &&
      Holds(nodes, root, tree) && Cached(nodes, heights, root, tree) &&
      IsBst(tree) && Balanced(tree)
    }

    /** An empty tree: `root` is null. */
    constructor ()
      ensures Valid() && tree == Nil
    {
      nodes := map[];
      heights := map[];
      root := Null;
      next := 1;
      tree := Nil;
    }

    /** `getHeight`: -1 for null, otherwise the stored height. */
    function GetHeight(node: Ref): int
      reads this
      requires node == Null || node in heights
    {
      if node == Null then -1 else heights[node]
    }

    /** `getBalance`: 0 for null, otherwise the stored height of the left
        child minus that of the right child. */
    function GetBalance(node: Ref): int
      reads this
      requires node == Null || node in nodes
      requires node != Null ==> (nodes[node].left == Null || nodes[node].left in heights)
      requires node != Null ==> (nodes[node].right == Null || nodes[node].right in heights)
    {
      if node == Null then 0 else GetHeight(nodes[node].left) - GetHeight(nodes[node].right)
    }

    /** Where heights are stored, `getHeight` gives the true height. */
    lemma GetHeightCached(x: Ref, t: Tree)
      requires Holds(nodes, x, t) && Cached(nodes, heights, x, t)
      ensures x == Null || x in heights
      ensures (x == Null || x in heights) && GetHeight(x) == Height(t)
    {
      CachedHeight(nodes, heights, x, t);
    }

    /** Where both subtrees store their heights, `getBalance` gives the
        true balance factor. */
    lemma GetBalanceCached(x: Ref, t: Tree)
      requires Holds(nodes, x, t) && (t.Node? ==> CachedBelow(nodes, heights, x, t))
      ensures x == Null || x in nodes
      ensures x != Null ==> (nodes[x].left == Null || nodes[x].left in heights) && (nodes[x].right == Null || nodes[x].right in heights)
      ensures GetBalance(x) == Balance(t)
    {
      if x != Null {
        GetHeightCached(nodes[x].left, t.left);
        GetHeightCached(nodes[x].right, t.right);
      }
    }

    /** `updateHeight`: the node stores one more than the greater height of
        its children, which is its true height. */
    method UpdateHeight(node: Ref, ghost u: Tree)
      requires Holds(nodes, node, u) && CachedBelow(nodes, heights, node, u) && heights.Keys == nodes.Keys
      modifies this
      ensures heights == old(heights)[node := Height(u)] && Cached(nodes, heights, node, u)
      ensures nodes == old(nodes) && root == old(root) && next == old(next) && tree == old(tree)
    {
      GetHeightCached(nodes[node].left, u.left);
      GetHeightCached(nodes[node].right, u.right);
      heights := heights[node := Java.Max(GetHeight(nodes[node].left), GetHeight(nodes[node].right)) + 1];
      CachedUp(nodes, old(heights), node, u);
    }

    /** `rightRotate`: the left child becomes the subtree's root, with the
        rotated node as its right child adopting the child's old right
        subtree; the rotated node's height is stored first, then the new
        root's, and no other node changes. */
    method RightRotate(rotatedNode: Ref, ghost t: Tree) returns (newRoot: Ref)
      requires heights.Keys == nodes.Keys
      requires Holds(nodes, rotatedNode, t) && t.Node? && t.left.Node?
      requires CachedBelow(nodes, heights, nodes[rotatedNode].left, t.left) && Cached(nodes, heights, nodes[rotatedNode].right, t.right)
      modifies this
      ensures newRoot == old(nodes[rotatedNode].left)
      ensures nodes == RightLinks(old(nodes), rotatedNode)
      ensures heights == old(heights)[rotatedNode := Height(Node(t.left.right, t.key, t.right))][newRoot := Height(RotateRight(t))]
      ensures root == old(root) && next == old(next) && tree == old(tree)
    {
      ghost var a, h := nodes, heights;
      newRoot := nodes[rotatedNode].left;
      var reParentedNode := nodes[newRoot].right;
      CachedHeight(a, h, a[newRoot].left, t.left.left);
      CachedHeight(a, h, reParentedNode, t.left.right);
      CachedHeight(a, h, a[rotatedNode].right, t.right);
      assert a[newRoot].left != rotatedNode;
      nodes := nodes[newRoot := nodes[newRoot].(right := rotatedNode)];
      nodes := nodes[rotatedNode := nodes[rotatedNode].(left := reParentedNode)];
      heights := heights[rotatedNode := Java.Max(GetHeight(nodes[rotatedNode].left), GetHeight(nodes[rotatedNode].right)) + 1];
      heights := heights[newRoot := Java.Max(GetHeight(nodes[newRoot].left), GetHeight(nodes[newRoot].right)) + 1];
    }

    /** `leftRotate`, the mirror image of `rightRotate`. */
    method LeftRotate(rotatedNode: Ref, ghost t: Tree) returns (newRoot: Ref)
      requires heights.Keys == nodes.Keys
      requires Holds(nodes, rotatedNode, t) && t.Node? && t.right.Node?
      requires Cached(nodes, heights, nodes[rotatedNode].left, t.left) && CachedBelow(nodes, heights, nodes[rotatedNode].right, t.right)
      modifies this
      ensures newRoot == old(nodes[rotatedNode].right)
      ensures nodes == LeftLinks(old(nodes), rotatedNode)
      ensures heights == old(heights)[rotatedNode := Height(Node(t.left, t.key, t.right.left))][newRoot := Height(RotateLeft(t))]
      ensures root == old(root) && next == old(next) && tree == old(tree)
    {
      ghost var a, h := nodes, heights;
      newRoot := nodes[rotatedNode].right;
      var reParentedNode := nodes[newRoot].left;
      CachedHeight(a, h, a[rotatedNode].left, t.left);
      CachedHeight(a, h, reParentedNode, t.right.left);
      CachedHeight(a, h, a[newRoot].right, t.right.right);
      assert a[newRoot].right != rotatedNode;
      nodes := nodes[newRoot := nodes[newRoot].(left := rotatedNode)];
      nodes := nodes[rotatedNode := nodes[rotatedNode].(right := reParentedNode)];
      heights := heights[rotatedNode := Java.Max(GetHeight(nodes[rotatedNode].left), GetHeight(nodes[rotatedNode].right)) + 1];
      heights := heights[newRoot := Java.Max(GetHeight(nodes[newRoot].left), GetHeight(nodes[newRoot].right)) + 1];
    }
  
    /** The left-right double rotation: `current.left = leftRotate(current.left)`,
        then `rightRotate(current)`. */
    method LeftRightRotate(current: Ref, ghost c: Tree) returns (r: Ref)
      requires heights.Keys == nodes.Keys
      requires Holds(nodes, current, c) && CachedBelow(nodes, heights, current, c) && c.left.Node? && c.left.right.Node?
      modifies this
      ensures heights.Keys == nodes.Keys && nodes.Keys == old(nodes.Keys)
      ensures Holds(nodes, r, RotateRight(Node(RotateLeft(c.left), c.key, c.right)))
      ensures Cached(nodes, heights, r, RotateRight(Node(RotateLeft(c.left), c.key, c.right)))
      ensures Refs(nodes, r, RotateRight(Node(RotateLeft(c.left), c.key, c.right))) == old(Refs(nodes, current, c))
      ensures forall q :: q in old(nodes) && q !in old(Refs(nodes, current, c)) ==> nodes[q] == old(nodes[q]) && heights[q] == old(heights[q])
      ensures root == old(root) && next == old(next) && tree == old(tree)
    {
      ghost var a, h := nodes, heights;
      RefsInside(a, current, c);
      CachedSplit(a, h, a[current].left, c.left);
      CachedSplit(a, h, a[a[current].left].right, c.left.right);
      var l := LeftRotate(nodes[current].left, c.left);
      nodes := nodes[current := nodes[current].(left := l)];
      LeftRightRotation(a, h, nodes, heights, current, c);
      r := RightRotate(current, Node(RotateLeft(c.left), c.key, c.right));
    }

    /** The right-left double rotation: `current.right = rightRotate(current.right)`,
        then `leftRotate(current)`. */
    method RightLeftRotate(current: Ref, ghost c: Tree) returns (r: Ref)
      requires heights.Keys == nodes.Keys
      requires Holds(nodes, current, c) && CachedBelow(nodes, heights, current, c) && c.right.Node? && c.right.left.Node?
      modifies this
      ensures heights.Keys == nodes.Keys && nodes.Keys == old(nodes.Keys)
      ensures Holds(nodes, r, RotateLeft(Node(c.left, c.key, RotateRight(c.right))))
      ensures Cached(nodes, heights, r, RotateLeft(Node(c.left, c.key, RotateRight(c.right))))
      ensures Refs(nodes, r, RotateLeft(Node(c.left, c.key, RotateRight(c.right)))) == old(Refs(nodes, current, c))
      ensures forall q :: q in old(nodes) && q !in old(Refs(nodes, current, c)) ==> nodes[q] == old(nodes[q]) && heights[q] == old(heights[q])
      ensures root == old(root) && next == old(next) && tree == old(tree)
    {
      ghost var a, h := nodes, heights;
      RefsInside(a, current, c);
      CachedSplit(a, h, a[current].right, c.right);
      CachedSplit(a, h, a[a[current].right].left, c.right.left);
      var rt := RightRotate(nodes[current].right, c.right);
      nodes := nodes[current := nodes[current].(right := rt)];
      RightLeftRotation(a, h, nodes, heights, current, c);
      r := LeftRotate(current, Node(c.left, c.key, RotateRight(c.right)));
    }

    /** The end of `insertRecursive` at the node `current`, which now holds
        `c`: store its height, then rotate by the balance factor and by
        which side of the heavy child `key` went; the subtree ends up as
        `InsertFix(c, key)` over the same slots. */
    method InsertFixup(current: Ref, key: int, ghost c: Tree) returns (r: Ref)
      requires heights.Keys == nodes.Keys
      requires Holds(nodes, current, c) && CachedBelow(nodes, heights, current, c) && InsertFixSafe(c, key)
      modifies this
      ensures heights.Keys == nodes.Keys && nodes.Keys == old(nodes.Keys)
      ensures Holds(nodes, r, InsertFix(c, key)) && Cached(nodes, heights, r, InsertFix(c, key))
      ensures Refs(nodes, r, InsertFix(c, key)) == old(Refs(nodes, current, c))
      ensures forall q :: q in old(nodes) && q !in old(Refs(nodes, current, c)) ==> nodes[q] == old(nodes[q]) && heights[q] == old(heights[q])
      ensures root == old(root) && next == old(next) && tree == old(tree)
    {
      RefsInside(nodes, current, c);
      UpdateHeight(current, c);
      GetBalanceCached(current, c);
      var balance := GetBalance(current);
      if balance > 1 {
        r := InsertFixupLeftHeavy(current, key, c);
      } else if balance < -1 {
        r := InsertFixupRightHeavy(current, key, c);
      } else {
        r := current;
      }
    }

    /** The cases of `insertRecursive` where the left side is too high:
        a right rotation when `key` went left of the left child, a
        left-right rotation when it went right of it. */
    method InsertFixupLeftHeavy(current: Ref, key: int, ghost c: Tree) returns (r: Ref)
      requires heights.Keys == nodes.Keys
      requires Holds(nodes, current, c) && Cached(nodes, heights, current, c) && c.Node? && Balance(c) > 1 && InsertFixSafe(c, key)
      modifies this
      ensures heights.Keys == nodes.Keys && nodes.Keys == old(nodes.Keys)
      ensures Holds(nodes, r, InsertFix(c, key)) && Cached(nodes, heights, r, InsertFix(c, key))
      ensures Refs(nodes, r, InsertFix(c, key)) == old(Refs(nodes, current, c))
      ensures forall q :: q in old(nodes) && q !in old(Refs(nodes, current, c)) ==> nodes[q] == old(nodes[q]) && heights[q] == old(heights[q])
      ensures root == old(root) && next == old(next) && tree == old(tree)
    {
      RefsInside(nodes, current, c);
      CachedSplit(nodes, heights, current, c);
      if key < nodes[nodes[current].left].key {
        CachedSplit(nodes, heights, nodes[current].left, c.left);
        RightRotation(nodes, heights, current, c);
        r := RightRotate(current, c);
      } else if key > nodes[nodes[current].left].key {
        r := LeftRightRotate(current, c);
      } else {
        r := current;
      }
    }

    /** The mirror image: the right side is too high. */
    method InsertFixupRightHeavy(current: Ref, key: int, ghost c: Tree) returns (r: Ref)
      requires heights.Keys == nodes.Keys
      requires Holds(nodes, current, c) && Cached(nodes, heights, current, c) && c.Node? && Balance(c) < -1 && InsertFixSafe(c, key)
      modifies this
      ensures heights.Keys == nodes.Keys && nodes.Keys == old(nodes.Keys)
      ensures Holds(nodes, r, InsertFix(c, key)) && Cached(nodes, heights, r, InsertFix(c, key))
      ensures Refs(nodes, r, InsertFix(c, key)) == old(Refs(nodes, current, c))
      ensures forall q :: q in old(nodes) && q !in old(Refs(nodes, current, c)) ==> nodes[q] == old(nodes[q]) && heights[q] == old(heights[q])
      ensures root == old(root) && next == old(next) && tree == old(tree)
    {
      RefsInside(nodes, current, c);
      CachedSplit(nodes, heights, current, c);
      if key > nodes[nodes[current].right].key {
        CachedSplit(nodes, heights, nodes[current].right, c.right);
        LeftRotation(nodes, heights, current, c);
        r := LeftRotate(current, c);
      } else if key < nodes[nodes[current].right].key {
        r := RightLeftRotate(current, c);
      } else {
        r := current;
      }
    }

    /** The end of `deleteRecursive` at the node `current`, which now holds
        `c`: store its height, then rotate by the balance factors of the
        node and of its heavy child; the subtree ends up as `DeleteFix(c)`
        over the same slots. */
    method DeleteFixup(current: Ref, ghost c: Tree) returns (r: Ref)
      requires heights.Keys == nodes.Keys
      requires Holds(nodes, current, c) && CachedBelow(nodes, heights, current, c)
      modifies this
      ensures heights.Keys == nodes.Keys && nodes.Keys == old(nodes.Keys)
      ensures Holds(nodes, r, DeleteFix(c)) && Cached(nodes, heights, r, DeleteFix(c))
      ensures Refs(nodes, r, DeleteFix(c)) == old(Refs(nodes, current, c))
      ensures forall q :: q in old(nodes) && q !in old(Refs(nodes, current, c)) ==> nodes[q] == old(nodes[q]) && heights[q] == old(heights[q])
      ensures root == old(root) && next == old(next) && tree == old(tree)
    {
      RefsInside(nodes, current, c);
      UpdateHeight(current, c);
      GetBalanceCached(current, c);
      var balance := GetBalance(current);
      if balance > 1 {
        r := DeleteFixupLeftHeavy(current, c);
      } else if balance < -1 {
        r := DeleteFixupRightHeavy(current, c);
      } else {
        r := current;
      }
    }

    /** The cases of `deleteRecursive` where the left side is too high: a
        right rotation when the left child leans left or not at all, a
        left-right rotation when it leans right. */
    method DeleteFixupLeftHeavy(current: Ref, ghost c: Tree) returns (r: Ref)
      requires heights.Keys == nodes.Keys
      requires Holds(nodes, current, c) && Cached(nodes, heights, current, c) && c.Node? && Balance(c) > 1
      modifies this
      ensures heights.Keys == nodes.Keys && nodes.Keys == old(nodes.Keys)
      ensures Holds(nodes, r, DeleteFix(c)) && Cached(nodes, heights, r, DeleteFix(c))
      ensures Refs(nodes, r, DeleteFix(c)) == old(Refs(nodes, current, c))
      ensures forall q :: q in old(nodes) && q !in old(Refs(nodes, current, c)) ==> nodes[q] == old(nodes[q]) && heights[q] == old(heights[q])
      ensures root == old(root) && next == old(next) && tree == old(tree)
    {
      RefsInside(nodes, current, c);
      CachedSplit(nodes, heights, current, c);
      CachedSplit(nodes, heights, nodes[current].left, c.left);
      GetBalanceCached(nodes[current].left, c.left);
      if GetBalance(nodes[current].left) >= 0 {
        RightRotation(nodes, heights, current, c);
        r := RightRotate(current, c);
      } else {
        r := LeftRightRotate(current, c);
      }
    }

    /** The mirror image: the right side is too high. */
    method DeleteFixupRightHeavy(current: Ref, ghost c: Tree) returns (r: Ref)
      requires heights.Keys == nodes.Keys
      requires Holds(nodes, current, c) && Cached(nodes, heights, current, c) && c.Node? && Balance(c) < -1
      modifies this
      ensures heights.Keys == nodes.Keys && nodes.Keys == old(nodes.Keys)
      ensures Holds(nodes, r, DeleteFix(c)) && Cached(nodes, heights, r, DeleteFix(c))
      ensures Refs(nodes, r, DeleteFix(c)) == old(Refs(nodes, current, c))
      ensures forall q :: q in old(nodes) && q !in old(Refs(nodes, current, c)) ==> nodes[q] == old(nodes[q]) && heights[q] == old(heights[q])
      ensures root == old(root) && next == old(next) && tree == old(tree)
    {
      RefsInside(nodes, current, c);
      CachedSplit(nodes, heights, current, c);
      CachedSplit(nodes, heights, nodes[current].right, c.right);
      GetBalanceCached(nodes[current].right, c.right);
      if GetBalance(nodes[current].right) <= 0 {
        LeftRotation(nodes, heights, current, c);
        r := LeftRotate(current, c);
      } else {
        r := RightLeftRotate(current, c);
      }
    }

    /** `insert`: the tree becomes `Insert(tree, key)`, a balanced search
        tree holding the old keys and `key`, and the tree is left as it
        was when `key` is already there. */
    method Insert(key: int)
      requires Valid()
      modifies this
      ensures Valid()
      ensures tree == AvlSpec.Insert(old(tree), key)
      ensures Keys(tree) == Keys(old(tree)) + {key}
      ensures key in Keys(old(tree)) ==> tree == old(tree)
    {
      ghost var t := tree;
      ghost var n := next;
      root := InsertRecursive(root, key, t);
      tree := AvlSpec.Insert(t, key);
      assert Below(nodes, next) by {
        assert forall q :: q in nodes ==> q in old(nodes) || q == n;
      }
      assert IsBst(tree) && Balanced(tree) && Keys(tree) == Keys(t) + {key} && (key in Keys(t) ==> tree == t) by {
        InsertKeys(t, key);
        InsertBalanced(t, key);
        if key in Keys(t) {
          InsertPresent(t, key);
        }
      }
    }

    /** `insertRecursive`: returns the root of the subtree with `key`
        inserted and rebalanced on the way back up, over the subtree's
        slots and at most one new one, every height stored, and changes
        no node outside the subtree. */
    method InsertRecursive(current: Ref, key: int, ghost t: Tree) returns (r: Ref)
      requires next != Null && next !in nodes && heights.Keys == nodes.Keys
      requires Holds(nodes, current, t) && Cached(nodes, heights, current, t) && Balanced(t)
      modifies this
      ensures nodes.Keys <= old(nodes.Keys) + {old(next)} && (next == old(next) || next == old(next) + 1)
      ensures old(next) in nodes <==> next == old(next) + 1
      ensures heights.Keys == nodes.Keys
      ensures Holds(nodes, r, AvlSpec.Insert(t, key)) && Cached(nodes, heights, r, AvlSpec.Insert(t, key))
      ensures forall q :: q in Refs(nodes, r, AvlSpec.Insert(t, key)) ==> q in old(Refs(nodes, current, t)) || q !in old(nodes)
      ensures forall q :: q in old(nodes) && q !in old(Refs(nodes, current, t)) ==> q in nodes && nodes[q] == old(nodes[q]) && heights[q] == old(heights[q])
      ensures root == old(root) && tree == old(tree)
      decreases t, 2
    {
      if current == Null {
        r := NewNode(key);
      } else if key < nodes[current].key {
        r := InsertLeft(current, key, t);
      } else if key > nodes[current].key {
        r := InsertRight(current, key, t);
      } else {
        r := current;
      }
    }

    /** `insertRecursive` when `key` goes left of `current`: insert it into
        the left subtree, relink, and rebalance `current`. */
    method InsertLeft(current: Ref, key: int, ghost t: Tree) returns (r: Ref)
      requires next != Null && next !in nodes && heights.Keys == nodes.Keys
      requires Holds(nodes, current, t) && Cached(nodes, heights, current, t) && Balanced(t)
      requires current != Null && key < nodes[current].key
      modifies this
      ensures nodes.Keys <= old(nodes.Keys) + {old(next)} && (next == old(next) || next == old(next) + 1)
      ensures old(next) in nodes <==> next == old(next) + 1
      ensures heights.Keys == nodes.Keys
      ensures Holds(nodes, r, AvlSpec.Insert(t, key)) && Cached(nodes, heights, r, AvlSpec.Insert(t, key))
      ensures forall q :: q in Refs(nodes, r, AvlSpec.Insert(t, key)) ==> q in old(Refs(nodes, current, t)) || q !in old(nodes)
      ensures forall q :: q in old(nodes) && q !in old(Refs(nodes, current, t)) ==> q in nodes && nodes[q] == old(nodes[q]) && heights[q] == old(heights[q])
      ensures root == old(root) && tree == old(tree)
      decreases t, 1
    {
      InsertBelowLeft(current, key, t);
      InsertSafe(t, key);
      r := InsertFixup(current, key, Node(AvlSpec.Insert(t.left, key), t.key, t.right));
    }

    /** `current.left = insertRecursive(current.left, key)`: `current` then
        holds `Node(AvlSpec.Insert(t.left, key), t.key, t.right)`, its children store their heights, and only
        slots of the subtree or new ones are involved. */
    method InsertBelowLeft(current: Ref, key: int, ghost t: Tree)
      requires next != Null && next !in nodes && heights.Keys == nodes.Keys
      requires Holds(nodes, current, t) && Cached(nodes, heights, current, t) && Balanced(t)
      requires current != Null && key < nodes[current].key
      modifies this
      ensures nodes.Keys <= old(nodes.Keys) + {old(next)} && (next == old(next) || next == old(next) + 1)
      ensures old(next) in nodes <==> next == old(next) + 1
      ensures heights.Keys == nodes.Keys
      ensures Holds(nodes, current, Node(AvlSpec.Insert(t.left, key), t.key, t.right)) && CachedBelow(nodes, heights, current, Node(AvlSpec.Insert(t.left, key), t.key, t.right))
      ensures forall q :: q in Refs(nodes, current, Node(AvlSpec.Insert(t.left, key), t.key, t.right)) ==> q in old(Refs(nodes, current, t)) || q !in old(nodes)
      ensures forall q :: q in old(nodes) && q !in old(Refs(nodes, current, t)) ==> q in nodes && nodes[q] == old(nodes[q]) && heights[q] == old(heights[q])
      ensures root == old(root) && tree == old(tree)
      decreases t, 0
    {
      ghost var a, h := nodes, heights;
      RefsInside(a, current, t);
      CachedSplit(a, h, current, t);
      var l := InsertRecursive(nodes[current].left, key, t.left);
      RelinkCached(a, h, nodes, heights, current, t, GoLeft, l, AvlSpec.Insert(t.left, key));
      nodes := nodes[current := nodes[current].(left := l)];
    }

    /** `insertRecursive` when `key` goes right of `current`. */
    method InsertRight(current: Ref, key: int, ghost t: Tree) returns (r: Ref)
      requires next != Null && next !in nodes && heights.Keys == nodes.Keys
      requires Holds(nodes, current, t) && Cached(nodes, heights, current, t) && Balanced(t)
      requires current != Null && key > nodes[current].key
      modifies this
      ensures nodes.Keys <= old(nodes.Keys) + {old(next)} && (next == old(next) || next == old(next) + 1)
      ensures old(next) in nodes <==> next == old(next) + 1
      ensures heights.Keys == nodes.Keys
      ensures Holds(nodes, r, AvlSpec.Insert(t, key)) && Cached(nodes, heights, r, AvlSpec.Insert(t, key))
      ensures forall q :: q in Refs(nodes, r, AvlSpec.Insert(t, key)) ==> q in old(Refs(nodes, current, t)) || q !in old(nodes)
      ensures forall q :: q in old(nodes) && q !in old(Refs(nodes, current, t)) ==> q in nodes && nodes[q] == old(nodes[q]) && heights[q] == old(heights[q])
      ensures root == old(root) && tree == old(tree)
      decreases t, 1
    {
      InsertBelowRight(current, key, t);
      InsertSafe(t, key);
      r := InsertFixup(current, key, Node(t.left, t.key, AvlSpec.Insert(t.right, key)));
    }

    /** `current.right = insertRecursive(current.right, key)`: `current` then
        holds `Node(t.left, t.key, AvlSpec.Insert(t.right, key))`, its children store their heights, and only
        slots of the subtree or new ones are involved. */
    method InsertBelowRight(current: Ref, key: int, ghost t: Tree)
      requires next != Null && next !in nodes && heights.Keys == nodes.Keys
      requires Holds(nodes, current, t) && Cached(nodes, heights, current, t) && Balanced(t)
      requires current != Null && key > nodes[current].key
      modifies this
      ensures nodes.Keys <= old(nodes.Keys) + {old(next)} && (next == old(next) || next == old(next) + 1)
      ensures old(next) in nodes <==> next == old(next) + 1
      ensures heights.Keys == nodes.Keys
      ensures Holds(nodes, current, Node(t.left, t.key, AvlSpec.Insert(t.right, key))) && CachedBelow(nodes, heights, current, Node(t.left, t.key, AvlSpec.Insert(t.right, key)))
      ensures forall q :: q in Refs(nodes, current, Node(t.left, t.key, AvlSpec.Insert(t.right, key))) ==> q in old(Refs(nodes, current, t)) || q !in old(nodes)
      ensures forall q :: q in old(nodes) && q !in old(Refs(nodes, current, t)) ==> q in nodes && nodes[q] == old(nodes[q]) && heights[q] == old(heights[q])
      ensures root == old(root) && tree == old(tree)
      decreases t, 0
    {
      ghost var a, h := nodes, heights;
      RefsInside(a, current, t);
      CachedSplit(a, h, current, t);
      var rt := InsertRecursive(nodes[current].right, key, t.right);
      RelinkCached(a, h, nodes, heights, current, t, GoRight, rt, AvlSpec.Insert(t.right, key));
      nodes := nodes[current := nodes[current].(right := rt)];
    }

    /** `delete`: the tree becomes `Delete(tree, key)`, a balanced search
        tree holding the old keys but `key`, and the tree is left as it
        was when `key` is not there. */
    method Delete(key: int)
      requires Valid()
      modifies this
      ensures Valid()
      ensures tree == AvlSpec.Delete(old(tree), key)
      ensures Keys(tree) == Keys(old(tree)) - {key}
      ensures key !in Keys(old(tree)) ==> tree == old(tree)
    {
      ghost var t := tree;
      root := DeleteRecursive(root, key, t);
      tree := AvlSpec.Delete(t, key);
      DeleteKeys(t, key);
      DeleteBalanced(t, key);
      if key !in Keys(t) {
        DeleteAbsent(t, key);
      }
    }

    /** `deleteRecursive`: returns the root of the subtree with `key`
        deleted and rebalanced on the way back up, over slots of the
        subtree, every height stored, and changes no node outside it. */
    method DeleteRecursive(current: Ref, key: int, ghost t: Tree) returns (r: Ref)
      requires heights.Keys == nodes.Keys
      requires Holds(nodes, current, t) && Cached(nodes, heights, current, t)
      modifies this
      ensures nodes.Keys == old(nodes.Keys) && next == old(next) && heights.Keys == nodes.Keys
      ensures Holds(nodes, r, AvlSpec.Delete(t, key)) && Cached(nodes, heights, r, AvlSpec.Delete(t, key))
      ensures forall q :: q in Refs(nodes, r, AvlSpec.Delete(t, key)) ==> q in old(Refs(nodes, current, t))
      ensures forall q :: q in old(nodes) && q !in old(Refs(nodes, current, t)) ==> nodes[q] == old(nodes[q]) && heights[q] == old(heights[q])
      ensures root == old(root) && tree == old(tree)
      decreases Size(t), 2
    {
      if current == Null {
        return Null;
      }
      RefsInside(nodes, current, t);
      CachedSplit(nodes, heights, current, t);
      if key < nodes[current].key {
        r := DeleteLeft(current, key, t);
      } else if key > nodes[current].key {
        r := DeleteRight(current, key, t);
      } else if nodes[current].left == Null {
        r := nodes[current].right;
      } else if nodes[current].right == Null {
        r := nodes[current].left;
      } else {
        r := DeleteHere(current, key, t);
      }
    }

    /** `deleteRecursive` when `key` is left of `current`: delete it from
        the left subtree, relink, and rebalance `current`. */
    method DeleteLeft(current: Ref, key: int, ghost t: Tree) returns (r: Ref)
      requires heights.Keys == nodes.Keys
      requires Holds(nodes, current, t) && Cached(nodes, heights, current, t)
      requires current != Null && key < nodes[current].key
      modifies this
      ensures nodes.Keys == old(nodes.Keys) && next == old(next) && heights.Keys == nodes.Keys
      ensures Holds(nodes, r, AvlSpec.Delete(t, key)) && Cached(nodes, heights, r, AvlSpec.Delete(t, key))
      ensures forall q :: q in Refs(nodes, r, AvlSpec.Delete(t, key)) ==> q in old(Refs(nodes, current, t))
      ensures forall q :: q in old(nodes) && q !in old(Refs(nodes, current, t)) ==> nodes[q] == old(nodes[q]) && heights[q] == old(heights[q])
      ensures root == old(root) && tree == old(tree)
      decreases Size(t), 1
    {
      DeleteBelowLeft(current, key, t);
      r := DeleteFixup(current, Node(AvlSpec.Delete(t.left, key), t.key, t.right));
    }

    /** `deleteRecursive` when `key` is right of `current`. */
    method DeleteRight(current: Ref, key: int, ghost t: Tree) returns (r: Ref)
      requires heights.Keys == nodes.Keys
      requires Holds(nodes, current, t) && Cached(nodes, heights, current, t)
      requires current != Null && key > nodes[current].key
      modifies this
      ensures nodes.Keys == old(nodes.Keys) && next == old(next) && heights.Keys == nodes.Keys
      ensures Holds(nodes, r, AvlSpec.Delete(t, key)) && Cached(nodes, heights, r, AvlSpec.Delete(t, key))
      ensures forall q :: q in Refs(nodes, r, AvlSpec.Delete(t, key)) ==> q in old(Refs(nodes, current, t))
      ensures forall q :: q in old(nodes) && q !in old(Refs(nodes, current, t)) ==> nodes[q] == old(nodes[q]) && heights[q] == old(heights[q])
      ensures root == old(root) && tree == old(tree)
      decreases Size(t), 1
    {
      DeleteBelowRight(current, key, t);
      r := DeleteFixup(current, Node(t.left, t.key, AvlSpec.Delete(t.right, key)));
    }

    /** `deleteRecursive` at the node holding `key` when it has two
        children: it takes the least key of its right subtree, that key is
        deleted there, and `current` is rebalanced. */
    method DeleteHere(current: Ref, key: int, ghost t: Tree) returns (r: Ref)
      requires heights.Keys == nodes.Keys
      requires Holds(nodes, current, t) && Cached(nodes, heights, current, t)
      requires current != Null && key == nodes[current].key && nodes[current].left != Null && nodes[current].right != Null
      modifies this
      ensures nodes.Keys == old(nodes.Keys) && next == old(next) && heights.Keys == nodes.Keys
      ensures Holds(nodes, r, AvlSpec.Delete(t, key)) && Cached(nodes, heights, r, AvlSpec.Delete(t, key))
      ensures forall q :: q in Refs(nodes, r, AvlSpec.Delete(t, key)) ==> q in old(Refs(nodes, current, t))
      ensures forall q :: q in old(nodes) && q !in old(Refs(nodes, current, t)) ==> nodes[q] == old(nodes[q]) && heights[q] == old(heights[q])
      ensures root == old(root) && tree == old(tree)
      decreases Size(t), 1
    {
      ghost var a, h := nodes, heights;
      RefsInside(a, current, t);
      CachedSplit(a, h, current, t);
      var m := MinValue(nodes, nodes[current].right, t.right);
      Rekey(nodes, current, m, t.left, t.right);
      nodes := nodes[current := nodes[current].(key := m)];
      CachedFrame(a, h, nodes, h, a[current].left, t.left);
      CachedFrame(a, h, nodes, h, a[current].right, t.right);
      CachedUp(nodes, h, current, Node(t.left, m, t.right));
      DeleteBelowRight(current, m, Node(t.left, m, t.right));
      r := DeleteFixup(current, Node(t.left, m, AvlSpec.Delete(t.right, m)));
    }

    /** `current.left = deleteRecursive(current.left, key)`: `current`
        then holds `Node(AvlSpec.Delete(t.left, key), t.key, t.right)` and its children store their heights. */
    method DeleteBelowLeft(current: Ref, key: int, ghost t: Tree)
      requires heights.Keys == nodes.Keys
      requires Holds(nodes, current, t) && Cached(nodes, heights, current, t)
      requires current != Null
      modifies this
      ensures nodes.Keys == old(nodes.Keys) && next == old(next) && heights.Keys == nodes.Keys
      ensures Holds(nodes, current, Node(AvlSpec.Delete(t.left, key), t.key, t.right)) && CachedBelow(nodes, heights, current, Node(AvlSpec.Delete(t.left, key), t.key, t.right))
      ensures forall q :: q in Refs(nodes, current, Node(AvlSpec.Delete(t.left, key), t.key, t.right)) ==> q in old(Refs(nodes, current, t))
      ensures forall q :: q in old(nodes) && q !in old(Refs(nodes, current, t)) ==> nodes[q] == old(nodes[q]) && heights[q] == old(heights[q])
      ensures root == old(root) && tree == old(tree)
      decreases Size(t), 0
    {
      ghost var a, h := nodes, heights;
      RefsInside(a, current, t);
      CachedSplit(a, h, current, t);
      var l := DeleteRecursive(nodes[current].left, key, t.left);
      RelinkCached(a, h, nodes, heights, current, t, GoLeft, l, AvlSpec.Delete(t.left, key));
      nodes := nodes[current := nodes[current].(left := l)];
    }

    /** `current.right = deleteRecursive(current.right, key)`: `current`
        then holds `Node(t.left, t.key, AvlSpec.Delete(t.right, key))` and its children store their heights. */
    method DeleteBelowRight(current: Ref, key: int, ghost t: Tree)
      requires heights.Keys == nodes.Keys
      requires Holds(nodes, current, t) && Cached(nodes, heights, current, t)
      requires current != Null
      modifies this
      ensures nodes.Keys == old(nodes.Keys) && next == old(next) && heights.Keys == nodes.Keys
      ensures Holds(nodes, current, Node(t.left, t.key, AvlSpec.Delete(t.right, key))) && CachedBelow(nodes, heights, current, Node(t.left, t.key, AvlSpec.Delete(t.right, key)))
      ensures forall q :: q in Refs(nodes, current, Node(t.left, t.key, AvlSpec.Delete(t.right, key))) ==> q in old(Refs(nodes, current, t))
      ensures forall q :: q in old(nodes) && q !in old(Refs(nodes, current, t)) ==> nodes[q] == old(nodes[q]) && heights[q] == old(heights[q])
      ensures root == old(root) && tree == old(tree)
      decreases Size(t), 0
    {
      ghost var a, h := nodes, heights;
      RefsInside(a, current, t);
      CachedSplit(a, h, current, t);
      var rt := DeleteRecursive(nodes[current].right, key, t.right);
      RelinkCached(a, h, nodes, heights, current, t, GoRight, rt, AvlSpec.Delete(t.right, key));
      nodes := nodes[current := nodes[current].(right := rt)];
    }

    /** `search`: the node holding `key`, null when no node does. */
    method Search(key: int) returns (r: Ref)
      requires Valid()
      ensures r != Null <==> key in Keys(tree)
      ensures r != Null ==> r in nodes && nodes[r].key == key
    {
      r := SearchRecursive(nodes, root, key, tree);
    }

    /** `new AvlNode(key)`: a fresh slot with no children and height 0. */
    method NewNode(key: int) returns (n: Ref)
      requires next != Null && next !in nodes
      modifies this
      ensures n == old(next) && next == n + 1
      ensures nodes == old(nodes)[n := Slot(key, Null, Null)] && heights == old(heights)[n := 0]
      ensures root == old(root) && tree == old(tree)
    {
      n := next;
      nodes := nodes[n := Slot(key, Null, Null)];
      heights := heights[n := 0];
      next := next + 1;
    }
  }
}
