/** The red-black tree: a search tree whose nodes carry a colour and a
    `parent` link, with one shared black sentinel `NIL` for every missing
    child and for the root's parent. `insert` and `delete` change links
    as a plain search tree does and then repair the colours bottom-up,
    recolouring and rotating around the node where the repair stands. */
module RedBlackTree {
  import BinaryTree
  import TreePath
  import BstUtils
  import BstSpec
  import opened RbSpec
  import opened RbNode
  import opened RbArena
  import opened RbReplace
  import opened RbSuccessor
  import opened RbFixArena
  import opened RbDeleteArena
  import opened RbSearch
  import RbInsertSpec
  import RbDeleteSpec

  class RedBlackTree {
    /** The fields of the nodes, one slot per node ever created. */
    var nodes: map<Ref, RbSlot>
    var root: Ref
    /** The `parent` field of the sentinel: `ReplaceSubTree` writes it
        when the replacer is `NIL`, and `fixDelete` reads it back. */
    var nilParent: Ref
    /** The slot the next `new RbNode` takes. */
    var next: Ref
    /** The coloured tree the links from `root` spell out. */
    ghost var tree: RbTree

    /** The links and colours from `root` spell out `tree`. */
    ghost predicate Linked()
      reads this
    {
      Holds(nodes, root, NIL, tree) && Below(nodes, next)
    }

    /** `tree` is a search tree with the red-black properties. */
    ghost predicate Valid()
      reads this
    {
      Linked() && BinaryTree.IsBst(Shape(tree)) && IsRedBlack(tree)
    }

    /** The keys stored in the tree. */
    ghost function Keys(): set<int>
      reads this
    {
      BinaryTree.Keys(Shape(tree))
    }

    /** A new tree: the sentinel is created and `root` is the sentinel. */
    constructor ()
      ensures Valid() && tree == Leaf && root == NIL
    {
      nodes := map[];
      root := NIL;
      nilParent := NIL;
      next := 1;
      tree := Leaf;
    }

    /** `search(key)`: the recursive search from `root`. In a tree that
        is not empty it finds a node exactly when the key is in the tree;
        in the empty tree `root` is the sentinel, which it hands back for
        the sentinel's key. */
    method Search(key: int) returns (r: NodeView)
      requires Valid()
      ensures r == SearchFrom(nodes, NodeAt(root), key, NIL, tree)
      ensures root != NIL ==> (r.NodeAt? <==> key in Keys()) && (r.NodeAt? ==> r.ref in nodes && nodes[r.ref].key == key)
      ensures root == NIL ==> Keys() == {} && (r.NodeAt? <==> key == SentinelKey)
    {
      r := SearchFrom(nodes, NodeAt(root), key, NIL, tree);
    }

    /** `search(key)` as documented: null in the empty tree as well, and
        otherwise the search from `root`. */
    method SearchCorrected(key: int) returns (r: NodeView)
      requires Valid()
      ensures r == SearchIntended(nodes, root, key, tree)
      ensures (r.NodeAt? <==> key in Keys()) && (r.NodeAt? ==> r.ref != NIL && r.ref in nodes && nodes[r.ref].key == key)
    {
      r := SearchIntended(nodes, root, key, tree);
    }

    /** `x.isRed()`, which is false for the sentinel. */
    predicate RedAt(x: Ref)
      reads this
    {
      RedSlot(nodes, x)
    }

    /** `x.parent`, the sentinel's being `nilParent`. */
    function ParentLink(x: Ref): Ref
      reads this
      requires x == NIL || x in nodes
    {
      LinkOf(nodes, nilParent, x)
    }

    /** `new RbNode(key, NIL)`: a red node with every link at the
        sentinel, in a fresh slot. */
    method NewNode(key: int) returns (x: Ref)
      requires Below(nodes, next)
      modifies this
      ensures x == old(next) && x !in old(nodes) && x != NIL
      ensures nodes == old(nodes)[x := NewSlot(key)] && next == old(next) + 1
      ensures Below(nodes, next)
      ensures root == old(root) && nilParent == old(nilParent) && tree == old(tree)
    {
      x := next;
      nodes := nodes[x := NewSlot(key)];
      next := next + 1;
    }

    /** `x.setBlack()`; the sentinel stays black. */
    method SetBlackAt(x: Ref)
      requires x == NIL || x in nodes
      modifies this
      ensures nodes == if x == NIL then old(nodes) else Painted(old(nodes), x, true)
      ensures root == old(root) && nilParent == old(nilParent) && next == old(next) && tree == old(tree)
    {
      if x != NIL {
        nodes := nodes[x := SetBlack(nodes[x])];
      }
    }

    /** `x.setRed()`, on a node of the tree. */
    method SetRedAt(x: Ref)
      requires x in nodes
      modifies this
      ensures nodes == Painted(old(nodes), x, false)
      ensures root == old(root) && nilParent == old(nilParent) && next == old(next) && tree == old(tree)
    {
      nodes := nodes[x := SetRed(nodes[x])];
    }

    /** `transferColor(source, target)`: `target` takes the colour of
        `source`. */
    method TransferColor(source: Ref, target: Ref)
      requires source in nodes && target in nodes && target != NIL
      modifies this
      ensures nodes == Painted(old(nodes), target, old(nodes[source].black))
      ensures root == old(root) && nilParent == old(nilParent) && next == old(next) && tree == old(tree)
    {
      if RbNode.IsRed(nodes[source]) {
        SetRedAt(target);
      } else {
        SetBlackAt(target);
      }
    }

    /** `x.parent = p`; on the sentinel that is `nilParent`. */
    method SetParent(x: Ref, p: Ref)
      requires x == NIL || x in nodes
      modifies this
      ensures nodes == ParentSet(old(nodes), x, p)
      ensures nilParent == if x == NIL then p else old(nilParent)
      ensures root == old(root) && next == old(next) && tree == old(tree)
    {
      if x == NIL {
        nilParent := p;
      } else {
        nodes := nodes[x := nodes[x].(parent := p)];
      }
    }

    /** `ReplaceSubTree(target, replacer)`: the parent of `target`, or
        `root` when there is none, points at `replacer`, and `replacer`
        takes `target`'s parent. */
    method ReplaceSubTree(target: Ref, replacer: Ref)
      requires target in nodes && (nodes[target].parent == NIL || nodes[target].parent in nodes)
      requires replacer == NIL || replacer in nodes
      modifies this
      ensures nodes == Replaced(old(nodes), target, replacer)
      ensures root == if old(nodes[target].parent) == NIL then replacer else old(root)
      ensures nilParent == if replacer == NIL then old(nodes[target].parent) else old(nilParent)
      ensures next == old(next) && tree == old(tree)
    {
      var p := nodes[target].parent;
      if p == NIL {
        root := replacer;
      } else if target == nodes[p].left {
        nodes := nodes[p := nodes[p].(left := replacer)];
      } else {
        nodes := nodes[p := nodes[p].(right := replacer)];
      }
      SetParent(replacer, nodes[target].parent);
    }

    /** `rotateLeft(x)`: the right child of `x` takes its place, below
        `x`'s parent or as `root`, and `x` becomes its left child. */
    method RotateLeft(x: Ref)
      requires x in nodes && nodes[x].right in nodes && nodes[nodes[x].right].left != x
      requires nodes[nodes[x].right].left == NIL || nodes[nodes[x].right].left in nodes
      requires nodes[x].parent == NIL || nodes[x].parent in nodes
      modifies this
      ensures nodes == LeftRotated(old(nodes), x)
      ensures root == if old(nodes[x].parent) == NIL then old(nodes[x].right) else old(root)
      ensures nilParent == old(nilParent) && next == old(next) && tree == old(tree)
    {
      var newRoot := nodes[x].right;
      var reParented := nodes[newRoot].left;
      nodes := nodes[x := nodes[x].(right := reParented)];
      if reParented != NIL {
        nodes := nodes[reParented := nodes[reParented].(parent := x)];
      }
      nodes := nodes[newRoot := nodes[newRoot].(parent := nodes[x].parent)];
      var p := nodes[x].parent;
      if p == NIL {
        root := newRoot;
      } else if x == nodes[p].left {
        nodes := nodes[p := nodes[p].(left := newRoot)];
      } else {
        nodes := nodes[p := nodes[p].(right := newRoot)];
      }
      nodes := nodes[newRoot := nodes[newRoot].(left := x)];
      nodes := nodes[x := nodes[x].(parent := newRoot)];
    }

    /** `rotateRight(x)`: the left child of `x` takes its place, below
        `x`'s parent or as `root`, and `x` becomes its right child. */
    method RotateRight(x: Ref)
      requires x in nodes && nodes[x].left in nodes && nodes[nodes[x].left].right != x
      requires nodes[nodes[x].left].right == NIL || nodes[nodes[x].left].right in nodes
      requires nodes[x].parent == NIL || nodes[x].parent in nodes
      modifies this
      ensures nodes == RightRotated(old(nodes), x)
      ensures root == if old(nodes[x].parent) == NIL then old(nodes[x].left) else old(root)
      ensures nilParent == old(nilParent) && next == old(next) && tree == old(tree)
    {
      var newRoot := nodes[x].left;
      var reParented := nodes[newRoot].right;
      nodes := nodes[x := nodes[x].(left := reParented)];
      if reParented != NIL {
        nodes := nodes[reParented := nodes[reParented].(parent := x)];
      }
      nodes := nodes[newRoot := nodes[newRoot].(parent := nodes[x].parent)];
      var p := nodes[x].parent;
      if p == NIL {
        root := newRoot;
      } else if x == nodes[p].right {
        nodes := nodes[p := nodes[p].(right := newRoot)];
      } else {
        nodes := nodes[p := nodes[p].(left := newRoot)];
      }
      nodes := nodes[newRoot := nodes[newRoot].(right := x)];
      nodes := nodes[x := nodes[x].(parent := newRoot)];
    }

    /** `rotateRight(x)` when `e` turns left and `rotateLeft(x)`
        otherwise: the child of `x` on side `e` takes its place. */
    method LiftChild(x: Ref, e: Turn)
      requires Rotatable(nodes, x, e)
      modifies this
      ensures nodes == Rotated(old(nodes), x, e)
      ensures root == if old(nodes[x].parent) == NIL then old(ChildRef(nodes, x, e)) else old(root)
      ensures nilParent == old(nilParent) && next == old(next) && tree == old(tree)
    {
      if e {
        RotateRight(x);
      } else {
        RotateLeft(x);
      }
    }

    /** `rotateRight(x)` when `e` turns left and `rotateLeft(x)`
        otherwise, `x` being the node at `q`: its child on side `e` takes
        its place, above it, in the arena and in the tree it holds. */
    method RotateAt(x: Ref, e: Turn, ghost q: seq<Turn>)
      requires Linked() && ValidPath(tree, q) && SubAt(tree, q).Branch? && Child(SubAt(tree, q), e).Branch?
      requires x == RefAt(nodes, root, NIL, tree, q) && x in nodes && ChildRef(nodes, x, e) in nodes
      modifies this
      ensures Linked() && tree == ReplaceAt(old(tree), q, Lift(SubAt(old(tree), q), e))
      ensures ValidPath(tree, q) && SubAt(tree, q) == Lift(SubAt(old(tree), q), e)
      ensures RefAt(nodes, root, NIL, tree, q) == old(ChildRef(nodes, x, e))
      ensures Up(nodes, root, NIL, tree, q) == old(Up(nodes, root, NIL, tree, q))
      ensures x in nodes && old(ChildRef(nodes, x, e)) in nodes && ChildRef(nodes, old(ChildRef(nodes, x, e)), !e) == x
      ensures ChildRef(nodes, old(ChildRef(nodes, x, e)), e) == old(ChildRef(nodes, ChildRef(nodes, x, e), e))
      ensures ChildRef(nodes, x, !e) == old(ChildRef(nodes, x, !e))
      ensures q != [] ==>
        old(Up(nodes, root, NIL, tree, q) in nodes) && Up(nodes, root, NIL, tree, q) in nodes &&
        ChildRef(nodes, Up(nodes, root, NIL, tree, q), !q[|q| - 1]) ==
        old(ChildRef(nodes, Up(nodes, root, NIL, tree, q), !q[|q| - 1]))
      ensures nodes.Keys == old(nodes.Keys) && next == old(next) && nilParent == old(nilParent)
    {
      ghost var t := tree;
      RotateHolds(nodes, root, t, q, e);
      LiftChild(x, e);
      tree := ReplaceAt(t, q, Lift(SubAt(t, q), e));
    }

    /** `insert`: the new node is created first; the walk stops at a node
        holding `key`, leaving the tree as it was, or falls off below
        `parent`, where the new red node is attached on the side `key`
        lies and `fixInsert` repairs the colours. The in-order sequence
        becomes that of the search tree `Insert` builds, and every
        red-black property holds again. */
    method Insert(key: int)
      requires Valid()
      modifies this
      ensures Valid()
      ensures BinaryTree.InOrder(Shape(tree)) == BinaryTree.InOrder(BstSpec.Insert(Shape(old(tree)), key))
      ensures Keys() == old(Keys()) + {key}
      ensures key in old(Keys()) ==> tree == old(tree)
    {
      ghost var t := tree;
      ghost var a := nodes;
      BstSpec.InsertKeys(Shape(t), key);
      BstSpec.InsertBst(Shape(t), key);
      RefsInside(a, root, NIL, t);
      var newNode := NewNode(key);
      Frame(a, nodes, root, NIL, t);
      if root == NIL {
        root := newNode;
        SetBlackAt(root);
        tree := Branch(true, Leaf, key, Leaf);
        return;
      }
      var parent, found, path := Descend(nodes, root, key, a, t);
      if found {
        return;
      }
      Attach(newNode, parent, key, a, path);
      RbInsertSpec.InsertStart(t, path, key);
      FixInsert(newNode, path);
      BinaryTree.SameInOrder(Shape(tree), BstSpec.Insert(Shape(t), key));
    }

    /** The links `insert` makes for the new node `newNode`, fresh
        beside the arena `a` of the tree: its parent becomes `parent`,
        and `parent` points at it on the side `key` lies, where the
        descent along `path` fell off the tree. */
    method Attach(newNode: Ref, parent: Ref, key: int, ghost a: map<Ref, RbSlot>, ghost path: seq<Turn>)
      requires Holds(a, root, NIL, tree) && Below(nodes, next) && newNode !in a && newNode != NIL
      requires nodes == a[newNode := NewSlot(key)]
      requires ValidPath(tree, path) && path != [] && SubAt(tree, path) == Leaf
      requires parent == Up(a, root, NIL, tree, path) && parent in a && path[|path| - 1] == (key < a[parent].key)
      modifies this
      ensures Linked() && tree == ReplaceAt(old(tree), path, Branch(false, Leaf, key, Leaf))
      ensures ValidPath(tree, path) && newNode == RefAt(nodes, root, NIL, tree, path)
      ensures nodes.Keys == old(nodes.Keys) && next == old(next) && root == old(root)
    {
      ghost var t := tree;
      ghost var b := nodes;
      SetParent(newNode, parent);
      if key < nodes[parent].key {
        nodes := nodes[parent := nodes[parent].(left := newNode)];
      } else {
        nodes := nodes[parent := nodes[parent].(right := newNode)];
      }
      ghost var n := Branch(false, Leaf, key, Leaf);
      Splice(a, Reparented(b, newNode, parent), root, NIL, t, path, newNode, n);
      assert nodes == Link(Reparented(b, newNode, parent), parent, path[|path| - 1], newNode);
      assert nodes.Keys == b.Keys;
      tree := ReplaceAt(t, path, n);
    }

    /** The loop of `insert` over the nodes `ns`, which agree with `a` on
        the slots of `a`: it stops with `found` at a node holding `key`,
        where insertion changes nothing, or it falls off the tree along
        `path` below `parent`, on the side `key` lies, where insertion
        puts the new node. */
    static method Descend(ns: map<Ref, RbSlot>, root: Ref, key: int, ghost a: map<Ref, RbSlot>, ghost t: RbTree)
      returns (parent: Ref, found: bool, ghost path: seq<Turn>)
      requires Holds(a, root, NIL, t) && root != NIL && BinaryTree.IsBst(Shape(t))
      requires forall q :: q in a ==> q in ns && ns[q] == a[q]
      ensures found ==> BstSpec.Insert(Shape(t), key) == Shape(t)
      ensures !found ==> key !in BinaryTree.Keys(Shape(t))
      ensures !found ==> ValidPath(t, path) && path != [] && SubAt(t, path) == Leaf
      ensures !found ==> parent == Up(a, root, NIL, t, path) && parent in a
      ensures !found ==> path[|path| - 1] == (key < a[parent].key)
      ensures !found ==> Shape(ReplaceAt(t, path, Branch(false, Leaf, key, Leaf))) == BstSpec.Insert(Shape(t), key)
    {
      var current := root;
      parent := NIL;
      path := [];
      ghost var sub := t;
      while current != NIL
        invariant ValidPath(t, path) && sub == SubAt(t, path) && current == RefAt(a, root, NIL, t, path)
        invariant path == [] ==> current == root
        invariant path != [] ==> parent == Up(a, root, NIL, t, path) && parent in a
        invariant path != [] ==> path[|path| - 1] == (key < a[parent].key)
        invariant TreePath.ValidPath(Shape(t), path)
        invariant TreePath.ReplaceAt(Shape(t), path, BstSpec.Insert(Shape(sub), key)) == BstSpec.Insert(Shape(t), key)
        invariant BinaryTree.IsBst(Shape(sub)) && (key in BinaryTree.Keys(Shape(t)) ==> key in BinaryTree.Keys(Shape(sub)))
        decreases sub
      {
        parent := current;
        ShapeAt(t, path, Leaf);
        if key < ns[current].key {
          Step(a, root, NIL, t, path, GoLeft);
          TreePath.Extend(Shape(t), path, GoLeft, BstSpec.Insert(Shape(sub.left), key));
          current := ns[current].left;
          path := path + [GoLeft];
          sub := sub.left;
        } else if key > ns[current].key {
          Step(a, root, NIL, t, path, GoRight);
          TreePath.Extend(Shape(t), path, GoRight, BstSpec.Insert(Shape(sub.right), key));
          current := ns[current].right;
          path := path + [GoRight];
          sub := sub.right;
        } else {
          TreePath.ReplaceSame(Shape(t), path);
          return parent, true, path;
        }
      }
      found := false;
      ShapeAt(t, path, Branch(false, Leaf, key, Leaf));
    }

    /** Between two rounds of `fixInsert`: `current` is the node at `p`,
        `parent` the node above it, and the tree is in the state the
        repair keeps. */
    ghost predicate InsertState(current: Ref, parent: Ref, p: seq<Turn>)
      reads this
    {
      Linked() && RbInsertSpec.InsertInvariant(tree, p) &&
      current == RefAt(nodes, root, NIL, tree, p) && parent == Up(nodes, root, NIL, tree, p)
    }

    /** `fixInsert(current)`: while the parent of `current` is red, one
        round of recolouring or rotation; then the root is painted
        black. Every red-black property holds afterwards, and the keys
        keep their order. */
    method FixInsert(current0: Ref, ghost p0: seq<Turn>)
      requires Linked() && RbInsertSpec.InsertInvariant(tree, p0) && current0 == RefAt(nodes, root, NIL, tree, p0)
      modifies this
      ensures Linked() && IsRedBlack(tree)
      ensures BinaryTree.InOrder(Shape(tree)) == BinaryTree.InOrder(Shape(old(tree)))
      ensures nodes.Keys == old(nodes.Keys) && next == old(next)
    {
      var current := current0;
      ghost var p := p0;
      ParentIsUp(nodes, root, NIL, tree, p);
      var parent := nodes[current].parent;
      while RedAt(parent)
        invariant InsertState(current, parent, p)
        invariant BinaryTree.InOrder(Shape(tree)) == BinaryTree.InOrder(Shape(old(tree)))
        invariant nodes.Keys == old(nodes.Keys) && next == old(next)
        decreases |p|
      {
        current, parent, p := InsertRound(current, parent, p);
        if current == root {
          break;
        }
      }
      FinishInsert(current, parent, p);
    }

    /** The end of `fixInsert`: once `current` is the root or its parent
        is black, painting the root black leaves a red-black tree. */
    method FinishInsert(current: Ref, parent: Ref, ghost p: seq<Turn>)
      requires InsertState(current, parent, p) && (current == root || !RedAt(parent))
      modifies this
      ensures Linked() && IsRedBlack(tree)
      ensures BinaryTree.InOrder(Shape(tree)) == BinaryTree.InOrder(Shape(old(tree)))
      ensures nodes.Keys == old(nodes.Keys) && next == old(next)
    {
      ghost var t := tree;
      InsertExit(nodes, root, t, p, current, parent);
      RbInsertSpec.InsertFinish(t, p);
      PaintHolds(nodes, root, NIL, t, [], true);
      assert PaintAt(t, [], true) == Paint(t, true);
      ghost var b := nodes;
      SetBlackAt(root);
      assert nodes.Keys == b.Keys;
      tree := Paint(t, true);
    }

    /** One round of the loop of `fixInsert`, `parent` being red and the
        child on side `d1` of the grandparent: a red uncle makes case 1,
        which recolours and moves `current` to the grandparent; otherwise
        case 2 (when `current` is the inner grandchild) rotates it into
        the outer place, and case 3 recolours and rotates at the
        grandparent. */
    method InsertRound(current: Ref, parent: Ref, ghost p: seq<Turn>) returns (current': Ref, parent': Ref, ghost p': seq<Turn>)
      requires InsertState(current, parent, p) && RedAt(parent)
      modifies this
      ensures InsertState(current', parent', p') && |p'| < |p|
      ensures BinaryTree.InOrder(Shape(tree)) == BinaryTree.InOrder(Shape(old(tree)))
      ensures nodes.Keys == old(nodes.Keys) && next == old(next)
    {
      ghost var a, t := nodes, tree;
      RedParent(a, root, t, p, parent);
      ghost var gp, d2 := p[..|p| - 2], p[|p| - 1];
      ParentIsUp(a, root, NIL, t, gp + [p[|p| - 2]]);
      var grandParent := nodes[parent].parent;
      TurnOf(a, root, NIL, t, gp + [p[|p| - 2]]);
      var d1: Turn := parent != nodes[grandParent].right;
      assert d1 == p[|p| - 2];
      var uncle := if d1 then nodes[grandParent].right else nodes[grandParent].left;
      Step(a, root, NIL, t, gp, !d1);
      SlotColour(a, uncle, ParentOf(a, uncle), SubAt(t, gp + [!d1]));
      if RedAt(uncle) {
        current', parent' := InsertUncleCase(parent, grandParent, uncle, gp, d1, d2);
        p' := gp;
      } else {
        var c, pa, g := current, parent, grandParent;
        TurnOf(a, root, NIL, t, p);
        Step(a, root, NIL, t, gp + [d1], d2);
        if current == (if d1 then nodes[parent].right else nodes[parent].left) {
          c, pa, g := InsertInnerCase(parent, gp, d1);
        }
        InsertOuterCase(c, pa, g, gp, d1);
        current', parent', p' := c, pa, gp + [d1];
      }
    }

    /** Case 1 of `fixInsert`: parent and uncle are red; both are painted
        black and the grandparent red, and the grandparent becomes
        `current`. */
    method InsertUncleCase(parent: Ref, grandParent: Ref, uncle: Ref, ghost gp: seq<Turn>, d1: Turn, ghost d2: Turn)
      returns (current': Ref, parent': Ref)
      requires Linked() && ValidPath(tree, gp) && SubAt(tree, gp).Branch?
      requires Child(SubAt(tree, gp), d1).Branch? && Child(SubAt(tree, gp), !d1).Branch?
      requires RbInsertSpec.InsertInvariant(tree, gp + [d1, d2])
      requires RbSpec.IsRed(Child(SubAt(tree, gp), d1)) && RbSpec.IsRed(Child(SubAt(tree, gp), !d1))
      requires ValidPath(tree, gp + [d1]) && ValidPath(tree, gp + [!d1])
      requires parent == RefAt(nodes, root, NIL, tree, gp + [d1]) && uncle == RefAt(nodes, root, NIL, tree, gp + [!d1])
      requires grandParent == RefAt(nodes, root, NIL, tree, gp)
      modifies this
      ensures InsertState(current', parent', gp)
      ensures BinaryTree.InOrder(Shape(tree)) == BinaryTree.InOrder(Shape(old(tree)))
      ensures nodes.Keys == old(nodes.Keys) && next == old(next)
    {
      ghost var t := tree;
      RecolourArena(nodes, root, t, gp, d1, gp, gp);
      RbInsertSpec.InsertRecolour(t, gp, d1, d2);
      SetBlackAt(uncle);
      SetBlackAt(parent);
      SetRedAt(grandParent);
      tree := ReplaceAt(t, gp, RbInsertSpec.Recoloured(SubAt(t, gp)));
      current' := grandParent;
      ParentIsUp(nodes, root, NIL, tree, gp);
      parent' := nodes[current'].parent;
    }

    /** Before case 3 of `fixInsert`: `current` is the outer grandchild,
        on side `d1` of `parent`, itself red on side `d1` of the
        grandparent at `gp`, whose other child is black. */
    ghost predicate OuterState(current: Ref, parent: Ref, grandParent: Ref, gp: seq<Turn>, d1: Turn)
      reads this
    {
      Linked() && OuterOn(nodes, root, tree, current, parent, grandParent, gp, d1)
    }

    /** Case 2 of `fixInsert`: `current` is the inner grandchild; the
        rotation at `parent` lifts it, and the old parent becomes
        `current`, now the outer grandchild. */
    method InsertInnerCase(parent: Ref, ghost gp: seq<Turn>, d1: Turn) returns (current': Ref, parent': Ref, grandParent': Ref)
      requires Linked() && ValidPath(tree, gp) && SubAt(tree, gp).Branch? && Child(SubAt(tree, gp), d1).Branch?
      requires ValidPath(tree, gp + [d1]) && parent == RefAt(nodes, root, NIL, tree, gp + [d1])
      requires RbInsertSpec.InsertInvariant(tree, gp + [d1, !d1])
      requires RbSpec.IsRed(Child(SubAt(tree, gp), d1)) && !RbSpec.IsRed(Child(SubAt(tree, gp), !d1))
      modifies this
      ensures OuterState(current', parent', grandParent', gp, d1)
      ensures BinaryTree.InOrder(Shape(tree)) == BinaryTree.InOrder(Shape(old(tree)))
      ensures nodes.Keys == old(nodes.Keys) && next == old(next)
    {
      ghost var t, a := tree, nodes;
      InnerArena(a, root, t, gp, d1);
      current' := parent;
      LiftChild(current', !d1);
      assert nodes.Keys == a.Keys;
      tree := ReplaceAt(t, gp + [d1], Lift(SubAt(t, gp + [d1]), !d1));
      parent' := nodes[current'].parent;
      grandParent' := nodes[parent'].parent;
    }

    /** Case 3 of `fixInsert`: `parent` is painted black, the grandparent
        red, and the rotation at the grandparent lifts `parent` into its
        place, which ends the loop. */
    method InsertOuterCase(current: Ref, parent: Ref, grandParent: Ref, ghost gp: seq<Turn>, d1: Turn)
      requires OuterState(current, parent, grandParent, gp, d1)
      modifies this
      ensures InsertState(current, parent, gp + [d1]) && !RedAt(parent)
      ensures BinaryTree.InOrder(Shape(tree)) == BinaryTree.InOrder(Shape(old(tree)))
      ensures nodes.Keys == old(nodes.Keys) && next == old(next)
    {
      ghost var t := tree;
      RbInsertSpec.InsertOuter(t, gp, d1);
      PaintOuter(current, parent, grandParent, gp, d1);
      ghost var t1 := tree;
      assert SubAt(t1, gp) == PaintPair(SubAt(t, gp), d1);
      Step(nodes, root, NIL, t1, gp, d1);
      Step(nodes, root, NIL, t1, gp + [d1], d1);
      assert gp + [d1] + [d1] == gp + [d1, d1];
      RotateAt(grandParent, d1, gp);
      Step(nodes, root, NIL, tree, gp, d1);
      ParentIsUp(nodes, root, NIL, tree, gp + [d1]);
      SlotColour(nodes, parent, ParentOf(nodes, parent), SubAt(tree, gp));
    }

    /** The recolouring of case 3 of `fixInsert`: `parent` black and the
        grandparent red. */
    method PaintOuter(current: Ref, parent: Ref, grandParent: Ref, ghost gp: seq<Turn>, d1: Turn)
      requires OuterState(current, parent, grandParent, gp, d1)
      modifies this
      ensures Linked() && tree == ReplaceAt(old(tree), gp, PaintPair(SubAt(old(tree), gp), d1))
      ensures ValidPath(tree, gp) && ValidPath(tree, gp + [d1]) && ValidPath(tree, gp + [d1, d1])
      ensures current == RefAt(nodes, root, NIL, tree, gp + [d1, d1]) && grandParent == RefAt(nodes, root, NIL, tree, gp)
      ensures parent == RefAt(nodes, root, NIL, tree, gp + [d1]) && grandParent in nodes
      ensures root == old(root) && nodes.Keys == old(nodes.Keys) && next == old(next)
    {
      ghost var t := tree;
      PaintPairArena(nodes, root, t, gp, d1, gp + [d1, d1], gp + [d1]);
      PaintPairArena(nodes, root, t, gp, d1, gp, gp);
      ghost var a := nodes;
      SetBlackAt(parent);
      SetRedAt(grandParent);
      assert nodes.Keys == a.Keys;
      tree := ReplaceAt(t, gp, PaintPair(SubAt(t, gp), d1));
    }

    /** `delete`: an empty tree and a missing key leave everything as it
        was; otherwise the node holding `key` goes, by the one-child or
        the two-children case, and `fixDelete` repairs the colours when a
        black node left its place. The in-order sequence becomes that of
        the search tree `Delete` builds, and every red-black property holds
        again. */
    method Delete(key: int)
      requires Valid()
      modifies this
      ensures Valid()
      ensures BinaryTree.InOrder(Shape(tree)) == BinaryTree.InOrder(BstSpec.Delete(Shape(old(tree)), key))
      ensures Keys() == old(Keys()) - {key}
      ensures key !in old(Keys()) ==> tree == old(tree) && nodes == old(nodes) && root == old(root)
    {
      ghost var t := tree;
      BstSpec.DeleteKeys(Shape(t), key);
      if root == NIL {
        return;
      }
      var nodeToDelete, path := FindNode(key);
      ShapeAt(t, path, Leaf);
      if nodeToDelete == NIL {
        TreePath.ReplaceSame(Shape(t), path);
        return;
      }
      ghost var zt := SubAt(t, path);
      ChildHolds(nodes, nodeToDelete, ParentOf(nodes, nodeToDelete), zt, GoLeft);
      ChildHolds(nodes, nodeToDelete, ParentOf(nodes, nodeToDelete), zt, GoRight);
      SlotColour(nodes, nodes[nodeToDelete].left, nodeToDelete, zt.left);
      SlotColour(nodes, nodes[nodeToDelete].right, nodeToDelete, zt.right);
      if nodes[nodeToDelete].left == NIL || nodes[nodeToDelete].right == NIL {
        DeleteOneChild(nodeToDelete, path);
        ghost var c := if zt.left == Leaf then zt.right else zt.left;
        ShapeAt(t, path, c);
        assert BstSpec.Delete(Shape(zt), key) == Shape(c);
      } else {
        DeleteTwoChildren(nodeToDelete, path);
      }
      BinaryTree.SameInOrder(Shape(tree), BstSpec.Delete(Shape(t), key));
    }

    /** The search loop of `delete`: it stops at the node holding `key`,
        or at the sentinel where `key` would be, along `path`; deleting
        `key` from the whole tree is deleting it from the subtree there. */
    method FindNode(key: int) returns (z: Ref, ghost path: seq<Turn>)
      requires Linked() && BinaryTree.IsBst(Shape(tree))
      ensures ValidPath(tree, path) && z == RefAt(nodes, root, NIL, tree, path)
      ensures z != NIL ==> z in nodes && SubAt(tree, path).Branch? && SubAt(tree, path).key == key && key in Keys()
      ensures z == NIL ==> SubAt(tree, path) == Leaf && key !in Keys()
      ensures TreePath.ValidPath(Shape(tree), path)
      ensures TreePath.ReplaceAt(Shape(tree), path, BstSpec.Delete(Shape(SubAt(tree, path)), key)) ==
        BstSpec.Delete(Shape(tree), key)
    {
      z := root;
      path := [];
      ghost var sub := tree;
      while z != NIL && nodes[z].key != key
        invariant ValidPath(tree, path) && sub == SubAt(tree, path) && z == RefAt(nodes, root, NIL, tree, path)
        invariant TreePath.ValidPath(Shape(tree), path)
        invariant TreePath.ReplaceAt(Shape(tree), path, BstSpec.Delete(Shape(sub), key)) == BstSpec.Delete(Shape(tree), key)
        invariant BinaryTree.IsBst(Shape(sub)) && (key in Keys() ==> key in BinaryTree.Keys(Shape(sub)))
        invariant BinaryTree.Keys(Shape(sub)) <= Keys()
        decreases sub
      {
        ShapeAt(tree, path, Leaf);
        if key < nodes[z].key {
          Step(nodes, root, NIL, tree, path, GoLeft);
          TreePath.Extend(Shape(tree), path, GoLeft, BstSpec.Delete(Shape(sub.left), key));
          z := nodes[z].left;
          path := path + [GoLeft];
          sub := sub.left;
        } else {
          Step(nodes, root, NIL, tree, path, GoRight);
          TreePath.Extend(Shape(tree), path, GoRight, BstSpec.Delete(Shape(sub.right), key));
          z := nodes[z].right;
          path := path + [GoRight];
          sub := sub.right;
        }
      }
    }

    /** The one-child case of `delete`: the node `z` at `path`, with the
        sentinel on at least one side, is replaced by its other child;
        `fixDelete` starts there when `z` was black. */
    method DeleteOneChild(z: Ref, ghost path: seq<Turn>)
      requires Valid() && ValidPath(tree, path) && SubAt(tree, path).Branch?
      requires z == RefAt(nodes, root, NIL, tree, path) && z in nodes
      requires nodes[z].left == NIL || nodes[z].right == NIL
      modifies this
      ensures Linked() && IsRedBlack(tree)
      ensures var zt := SubAt(old(tree), path);
        BinaryTree.InOrder(Shape(tree)) ==
        BinaryTree.InOrder(Shape(ReplaceAt(old(tree), path, if zt.left == Leaf then zt.right else zt.left)))
      ensures nodes.Keys == old(nodes.Keys) && next == old(next)
    {
      ghost var t := tree;
      ghost var zt := SubAt(t, path);
      ghost var e: Turn := zt.left != Leaf;
      ChildHolds(nodes, z, ParentOf(nodes, z), zt, GoLeft);
      ChildHolds(nodes, z, ParentOf(nodes, z), zt, GoRight);
      SlotColour(nodes, nodes[z].left, z, zt.left);
      SlotColour(nodes, nodes[z].right, z, zt.right);
      ReplaceHolds(nodes, root, t, path, e);
      RbDeleteSpec.RemoveStart(t, path);
      var isDeletingNodeBlack := RbNode.IsBlack(nodes[z]);
      var replacerNode := NIL;
      if nodes[z].left == NIL {
        replacerNode := nodes[z].right;
        ReplaceSubTree(z, replacerNode);
      } else if nodes[z].right == NIL {
        replacerNode := nodes[z].left;
        ReplaceSubTree(z, replacerNode);
      }
      tree := ReplaceAt(t, path, Child(zt, e));
      StartReaches(nodes, root, nilParent, tree, replacerNode, path);
      if isDeletingNodeBlack {
        FixDelete(replacerNode, path);
      }
    }

    /** The two-children case of `delete`: the successor `y` leaves its
        place to its right child and takes the place, the children and
        the colour of `z`; `fixDelete` starts at `y`'s old place when `y`
        was black. As a search tree that deletes the key of `z`. */
    method DeleteTwoChildren(z: Ref, ghost pz: seq<Turn>)
      requires Valid() && ValidPath(tree, pz) && SubAt(tree, pz).Branch?
      requires SubAt(tree, pz).left.Branch? && SubAt(tree, pz).right.Branch?
      requires z == RefAt(nodes, root, NIL, tree, pz) && z in nodes
      modifies this
      ensures Linked() && IsRedBlack(tree)
      ensures TreePath.ValidPath(Shape(old(tree)), pz)
      ensures BinaryTree.InOrder(Shape(tree)) == BinaryTree.InOrder(
        TreePath.ReplaceAt(Shape(old(tree)), pz, BstSpec.Delete(Shape(SubAt(old(tree), pz)), SubAt(old(tree), pz).key)))
      ensures nodes.Keys == old(nodes.Keys) && next == old(next)
    {
      ghost var t, a := tree, nodes;
      ghost var zt := SubAt(t, pz);
      var successor, ys := FindSuccessor(z, pz);
      SuccessorHolds(a, root, t, pz, ys);
      RbDeleteSpec.SuccessorSplice(t, pz, ys);
      RbDeleteSpec.SuccessorShape(t, pz, ys);
      var isInitiallySuccessorBlack := RbNode.IsBlack(nodes[successor]);
      var successorChild := nodes[successor].right;
      UnlinkSuccessor(z, successor, ys != []);
      JoinSuccessor(z, successor);
      ghost var yt := SubAt(zt.right, ys);
      ghost var yq := pz + [GoRight] + ys;
      tree := ReplaceAt(t, pz, Branch(zt.black, zt.left, yt.key, ReplaceAt(zt.right, ys, yt.right)));
      StartReaches(nodes, root, nilParent, tree, successorChild, yq);
      if isInitiallySuccessorBlack {
        FixDelete(successorChild, yq);
      }
    }

    /** The successor loop of `delete`: from the right child of `z`, to
        the left while there is a left child. */
    method FindSuccessor(z: Ref, ghost pz: seq<Turn>) returns (y: Ref, ghost ys: seq<Turn>)
      requires Linked() && ValidPath(tree, pz) && SubAt(tree, pz).Branch? && SubAt(tree, pz).right.Branch?
      requires z == RefAt(nodes, root, NIL, tree, pz) && z in nodes
      ensures Holds(nodes, nodes[z].right, z, SubAt(tree, pz).right)
      ensures ValidPath(SubAt(tree, pz).right, ys) && SubAt(SubAt(tree, pz).right, ys).Branch?
      ensures SubAt(SubAt(tree, pz).right, ys).left == Leaf
      ensures forall i :: 0 <= i < |ys| ==> ys[i] == GoLeft
      ensures y == RefAt(nodes, nodes[z].right, z, SubAt(tree, pz).right, ys) && y in nodes
    {
      ghost var rt := SubAt(tree, pz).right;
      y := nodes[z].right;
      ys := [];
      while nodes[y].left != NIL
        invariant ValidPath(rt, ys) && SubAt(rt, ys).Branch? && y == RefAt(nodes, nodes[z].right, z, rt, ys) && y in nodes
        invariant forall i :: 0 <= i < |ys| ==> ys[i] == GoLeft
        decreases SubAt(rt, ys)
      {
        Step(nodes, nodes[z].right, z, rt, ys, GoLeft);
        y := nodes[y].left;
        ys := ys + [GoLeft];
        RefsInside(nodes, y, ParentOf(nodes, y), SubAt(rt, ys));
      }
      RefsInside(nodes, nodes[y].left, y, SubAt(rt, ys).left);
    }

    /** The writes of `delete` before `ReplaceSubTree(nodeToDelete,
        successor)`: unless the successor `y` is the right child of `z`,
        its right child takes its place and it takes `z`'s right
        subtree; then its right child gets it as parent. */
    method UnlinkSuccessor(z: Ref, y: Ref, ghost deep: bool)
      requires z in nodes && y in nodes && z != y
      requires nodes[y].parent == NIL || nodes[y].parent in nodes
      requires nodes[y].right == NIL || nodes[y].right in nodes
      requires nodes[z].right in nodes && nodes[z].right != NIL
      requires nodes[y].parent != z ==> nodes[y].parent != y && nodes[y].right != z && nodes[y].parent != NIL
      modifies this
      ensures nodes == SuccessorRight(old(nodes), z, y)
      ensures nilParent == if old(nodes[y].right) == NIL then (if old(nodes[y].parent) == z then y else old(nodes[y].parent))
        else old(nilParent)
      ensures root == old(root) && next == old(next) && tree == old(tree)
    {
      if nodes[y].parent != z {
        ReplaceSubTree(y, nodes[y].right);
        nodes := nodes[y := nodes[y].(right := nodes[z].right)];
      }
      SetParent(nodes[y].right, y);
    }

    /** The writes of `delete` from `ReplaceSubTree(nodeToDelete,
        successor)` on: `y` takes `z`'s place, below `z`'s parent or as
        `root`, then `z`'s left subtree and, by `transferColor`, `z`'s
        colour. */
    method JoinSuccessor(z: Ref, y: Ref)
      requires z in nodes && y in nodes && z != y && y != NIL
      requires nodes[z].parent == NIL || nodes[z].parent in nodes
      requires nodes[z].parent != z && nodes[z].left in nodes && nodes[z].left != NIL
      modifies this
      ensures nodes == SuccessorJoined(old(nodes), z, y)
      ensures root == if old(nodes[z].parent) == NIL then y else old(root)
      ensures nilParent == old(nilParent) && next == old(next) && tree == old(tree)
    {
      ReplaceSubTree(z, y);
      nodes := nodes[y := nodes[y].(left := nodes[z].left)];
      SetParent(nodes[y].left, y);
      TransferColor(z, y);
    }

    /** Between two rounds of `fixDelete`: `current`, the node or the
        sentinel at `p`, carries the extra black, and reading
        `current.parent`, the sentinel's included, reaches the node above
        it. */
    ghost predicate DeleteState(current: Ref, p: seq<Turn>)
      reads this
    {
      Linked() && FixingOn(nodes, root, nilParent, tree, current, p)
    }

    /** `fixDelete(current)`: while `current` is black and not the root,
        one round of the four cases; then `current` is painted black.
        Every red-black property holds afterwards, and the keys keep
        their order. */
    method FixDelete(current0: Ref, ghost p0: seq<Turn>)
      requires DeleteState(current0, p0)
      modifies this
      ensures Linked() && IsRedBlack(tree)
      ensures BinaryTree.InOrder(Shape(tree)) == BinaryTree.InOrder(Shape(old(tree)))
      ensures nodes.Keys == old(nodes.Keys) && next == old(next)
    {
      var current := current0;
      ghost var p := p0;
      while current != root && !RedAt(current)
        invariant DeleteState(current, p)
        invariant BinaryTree.InOrder(Shape(tree)) == BinaryTree.InOrder(Shape(old(tree)))
        invariant nodes.Keys == old(nodes.Keys) && next == old(next)
        decreases if p == [] || RbSpec.IsRed(SubAt(tree, p)) then 0 else |p| + 1
      {
        SlotColour(nodes, current, ParentOf(nodes, current), SubAt(tree, p));
        current, p := DeleteRound(current, p);
      }
      FinishDelete(current, p);
    }

    /** The end of `fixDelete`: once `current` is the root or red,
        painting it black leaves a red-black tree. */
    method FinishDelete(current: Ref, ghost p: seq<Turn>)
      requires DeleteState(current, p) && (current == root || RedAt(current))
      modifies this
      ensures Linked() && IsRedBlack(tree)
      ensures BinaryTree.InOrder(Shape(tree)) == BinaryTree.InOrder(Shape(old(tree)))
      ensures nodes.Keys == old(nodes.Keys) && next == old(next)
    {
      ghost var t, a := tree, nodes;
      DeleteExit(a, root, t, p, current);
      RbDeleteSpec.DeleteFinish(t, p);
      SlotColour(a, current, ParentOf(a, current), SubAt(t, p));
      if current == NIL {
        ReplaceSame(t, p);
      } else {
        PaintHolds(a, root, NIL, t, p, true);
      }
      SetBlackAt(current);
      assert nodes.Keys == a.Keys;
      tree := PaintAt(t, p, true);
    }

    /** One round of the loop of `fixDelete`, `current` black below the
        root, on side `d` of its parent: a red sibling makes case 1 first,
        which gives `current` a black sibling; then case 2 when both
        children of the sibling are black, otherwise case 3 when its far
        child is black, and case 4. */
    method DeleteRound(current: Ref, ghost p: seq<Turn>) returns (current': Ref, ghost p': seq<Turn>)
      requires DeleteState(current, p) && current != root && !RbSpec.IsRed(SubAt(tree, p))
      modifies this
      ensures DeleteState(current', p') && (p' == [] || RbSpec.IsRed(SubAt(tree, p')) || |p'| < |p|)
      ensures BinaryTree.InOrder(Shape(tree)) == BinaryTree.InOrder(Shape(old(tree)))
      ensures nodes.Keys == old(nodes.Keys) && next == old(next)
    {
      Sides(nodes, root, nilParent, tree, current, p);
      var d: Turn := current == nodes[ParentLink(current)].left;
      var sibling := if d then nodes[ParentLink(current)].right else nodes[ParentLink(current)].left;
      if RedAt(sibling) {
        current', p' := RedSiblingRound(current, p, d);
      } else {
        BlackSiblingStart(nodes, root, nilParent, tree, current, p);
        current', p' := BlackSiblingRound(current, p, d);
      }
    }

    /** A round of `fixDelete` that starts with case 1: the parent is red
        once case 1 is done, so cases 2 to 4 end at the root or at a red
        node. */
    method RedSiblingRound(current: Ref, ghost p: seq<Turn>, d: Turn) returns (current': Ref, ghost p': seq<Turn>)
      requires DeleteState(current, p) && p != [] && !RbSpec.IsRed(SubAt(tree, p)) && d == p[|p| - 1]
      requires ValidPath(tree, p[..|p| - 1]) && SubAt(tree, p[..|p| - 1]).Branch?
      requires RbSpec.IsRed(Child(SubAt(tree, p[..|p| - 1]), !d))
      modifies this
      ensures DeleteState(current', p') && (p' == [] || RbSpec.IsRed(SubAt(tree, p')))
      ensures BinaryTree.InOrder(Shape(tree)) == BinaryTree.InOrder(Shape(old(tree)))
      ensures nodes.Keys == old(nodes.Keys) && next == old(next)
    {
      ghost var p1 := RedSiblingCase(current, p, d);
      current', p' := BlackSiblingRound(current, p1, d);
    }

    /** Before cases 2 to 4 of `fixDelete`: `current` at `p`, black and
        below its parent, has a black sibling. */
    ghost predicate SiblingState(current: Ref, p: seq<Turn>)
      reads this
    {
      Linked() && SiblingOn(nodes, root, nilParent, tree, current, p)
    }

    /** Case 1 of `fixDelete`: the sibling is red; it is painted black,
        the parent red, and the rotation at the parent lifts the sibling,
        which leaves `current` two levels lower, still below its parent,
        now red, with a black sibling. */
    method RedSiblingCase(current: Ref, ghost p: seq<Turn>, d: Turn) returns (ghost p': seq<Turn>)
      requires DeleteState(current, p) && p != [] && !RbSpec.IsRed(SubAt(tree, p)) && d == p[|p| - 1]
      requires ValidPath(tree, p[..|p| - 1]) && SubAt(tree, p[..|p| - 1]).Branch?
      requires RbSpec.IsRed(Child(SubAt(tree, p[..|p| - 1]), !d))
      modifies this
      ensures SiblingState(current, p') && p'[|p'| - 1] == d && RbSpec.IsRed(SubAt(tree, p'[..|p'| - 1]))
      ensures BinaryTree.InOrder(Shape(tree)) == BinaryTree.InOrder(Shape(old(tree)))
      ensures nodes.Keys == old(nodes.Keys) && next == old(next)
    {
      ghost var t, a := tree, nodes;
      ghost var t2, p2 := RedSiblingArena(a, root, nilParent, t, current, p);
      var parent := ParentLink(current);
      var sibling := if d then nodes[parent].right else nodes[parent].left;
      PaintUpperRed(parent, sibling);
      LiftChild(parent, !d);
      assert nodes.Keys == a.Keys;
      tree := t2;
      p' := p2;
    }

    /** `lower.setBlack()` and `upper.setRed()`: the sibling and the
        parent in case 1 of `fixDelete`, the near child and the sibling in
        case 3. */
    method PaintUpperRed(upper: Ref, lower: Ref)
      requires NIL !in nodes && upper in nodes && lower in nodes
      modifies this
      ensures nodes == Painted(Painted(old(nodes), lower, true), upper, false)
      ensures root == old(root) && nilParent == old(nilParent) && next == old(next) && tree == old(tree)
    {
      SetBlackAt(lower);
      SetRedAt(upper);
    }

    /** Cases 2 to 4 of `fixDelete`, the sibling being black. */
    method BlackSiblingRound(current: Ref, ghost p: seq<Turn>, d: Turn) returns (current': Ref, ghost p': seq<Turn>)
      requires SiblingState(current, p) && d == p[|p| - 1]
      modifies this
      ensures DeleteState(current', p')
      ensures p' == [] || (p' == p[..|p| - 1] && RbSpec.IsRed(SubAt(tree, p')) == old(RbSpec.IsRed(SubAt(tree, p[..|p| - 1]))))
      ensures BinaryTree.InOrder(Shape(tree)) == BinaryTree.InOrder(Shape(old(tree)))
      ensures nodes.Keys == old(nodes.Keys) && next == old(next)
    {
      SiblingChildren(nodes, root, nilParent, tree, current, p);
      var sibling := if d then nodes[ParentLink(current)].right else nodes[ParentLink(current)].left;
      if !RedAt(nodes[sibling].left) && !RedAt(nodes[sibling].right) {
        current', p' := RecolourCase(current, p, d);
      } else {
        if !RedAt(if d then nodes[sibling].right else nodes[sibling].left) {
          NearRedCase(current, p, d);
        }
        current' := FarRedCase(current, p, d);
        p' := [];
      }
    }

    /** Case 2 of `fixDelete`: both children of the black sibling are
        black; the sibling is painted red and the parent becomes
        `current`. */
    method RecolourCase(current: Ref, ghost p: seq<Turn>, d: Turn) returns (current': Ref, ghost p': seq<Turn>)
      requires SiblingState(current, p) && d == p[|p| - 1]
      requires !RbSpec.IsRed(Child(SubAt(tree, p[..|p| - 1]), !d).left)
      requires !RbSpec.IsRed(Child(SubAt(tree, p[..|p| - 1]), !d).right)
      modifies this
      ensures DeleteState(current', p') && p' == p[..|p| - 1]
      ensures RbSpec.IsRed(SubAt(tree, p')) == old(RbSpec.IsRed(SubAt(tree, p[..|p| - 1])))
      ensures BinaryTree.InOrder(Shape(tree)) == BinaryTree.InOrder(Shape(old(tree)))
      ensures nodes.Keys == old(nodes.Keys) && next == old(next)
    {
      ghost var t, a := tree, nodes;
      ghost var t1 := BlackChildrenArena(a, root, nilParent, t, current, p);
      var sibling := if d then nodes[ParentLink(current)].right else nodes[ParentLink(current)].left;
      SetRedAt(sibling);
      assert nodes.Keys == a.Keys;
      tree := t1;
      current' := ParentLink(current);
      p' := p[..|p| - 1];
    }

    /** Case 3 of `fixDelete`: the far child of the black sibling is
        black, so its near child is red; that child is painted black, the
        sibling red, and the rotation at the sibling lifts the near child,
        which makes it the new, black sibling with a red far child. */
    method NearRedCase(current: Ref, ghost p: seq<Turn>, d: Turn)
      requires SiblingState(current, p) && d == p[|p| - 1]
      requires RbSpec.IsRed(Child(Child(SubAt(tree, p[..|p| - 1]), !d), d))
      requires !RbSpec.IsRed(Child(Child(SubAt(tree, p[..|p| - 1]), !d), !d))
      modifies this
      ensures SiblingState(current, p)
      ensures RbSpec.IsRed(Child(Child(SubAt(tree, p[..|p| - 1]), !d), !d))
      ensures RbSpec.IsRed(SubAt(tree, p[..|p| - 1])) == old(RbSpec.IsRed(SubAt(tree, p[..|p| - 1])))
      ensures BinaryTree.InOrder(Shape(tree)) == BinaryTree.InOrder(Shape(old(tree)))
      ensures nodes.Keys == old(nodes.Keys) && next == old(next)
    {
      ghost var t, a := tree, nodes;
      ghost var t2 := NearRedArena(a, root, nilParent, t, current, p);
      var sibling := if d then nodes[ParentLink(current)].right else nodes[ParentLink(current)].left;
      var near := if d then nodes[sibling].left else nodes[sibling].right;
      PaintUpperRed(sibling, near);
      LiftChild(sibling, d);
      assert nodes.Keys == a.Keys;
      tree := t2;
    }

    /** Case 4 of `fixDelete`: the black sibling has a red far child; the
        sibling takes the parent's colour, the parent and the far child
        are painted black, and the rotation at the parent lifts the
        sibling. That removes the extra black, and `current` becomes the
        root. */
    method FarRedCase(current: Ref, ghost p: seq<Turn>, d: Turn) returns (current': Ref)
      requires SiblingState(current, p) && d == p[|p| - 1]
      requires RbSpec.IsRed(Child(Child(SubAt(tree, p[..|p| - 1]), !d), !d))
      modifies this
      ensures DeleteState(current', [])
      ensures BinaryTree.InOrder(Shape(tree)) == BinaryTree.InOrder(Shape(old(tree)))
      ensures nodes.Keys == old(nodes.Keys) && next == old(next)
    {
      ghost var t, a := tree, nodes;
      ghost var t2 := FarRedArena(a, root, nilParent, t, current, p);
      var parent := ParentLink(current);
      var sibling := if d then nodes[parent].right else nodes[parent].left;
      FarRedPaint(parent, sibling, d);
      LiftChild(parent, !d);
      assert nodes.Keys == a.Keys;
      tree := t2;
      current' := root;
    }

    /** `transferColor(current.parent, sibling)`,
        `current.parent.setBlack()` and the far child's `setBlack()` in
        case 4 of `fixDelete`. */
    method FarRedPaint(parent: Ref, sibling: Ref, d: Turn)
      requires NIL !in nodes && parent in nodes && sibling in nodes && ChildRef(nodes, sibling, !d) in nodes
      modifies this
      ensures nodes == Painted(Painted(Painted(old(nodes), sibling, old(nodes[parent].black)), parent, true),
                               old(ChildRef(nodes, sibling, !d)), true)
      ensures root == old(root) && nilParent == old(nilParent) && next == old(next) && tree == old(tree)
    {
      TransferColor(parent, sibling);
      SetBlackAt(parent);
      SetBlackAt(if d then nodes[sibling].right else nodes[sibling].left);
    }
  }
}
