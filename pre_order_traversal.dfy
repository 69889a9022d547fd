/** Pre-order traversal: the iterative version pops a node, visits it and pushes its
    right child before its left one, so the left subtree is finished first. */
module PreOrderTraversal {
  import opened BinaryTree

  /** The visits still owed to the stacked subtrees; the stack is a `Deque` whose
      top is element 0. */
  function StackRest(stack: seq<Tree>): seq<int>
  {
    if stack == [] then [] else PreOrder(stack[0]) + StackRest(stack[1..])
  }

  /** `x` pushed when it is a node; a null child is not pushed. */
  function PushIfPresent(x: Tree, stack: seq<Tree>): seq<Tree>
  {
    if x.Node? then [x] + stack else stack
  }

  /** Only non-null nodes are ever on the stack. */
  predicate AllPresent(stack: seq<Tree>)
  {
    forall i :: 0 <= i < |stack| ==> stack[i].Node?
  }

  lemma PushStep(x: Tree, stack: seq<Tree>)
    ensures StackRest(PushIfPresent(x, stack)) == PreOrder(x) + StackRest(stack)
  {
    if x.Node? {
      assert ([x] + stack)[1..] == stack;
    }
  }

  /** Popping a node owes its visit, then whatever its pushed children owe. */
  lemma PopStep(stack: seq<Tree>)
    requires stack != [] && stack[0].Node?
    ensures StackRest(stack)
         == [stack[0].key] + StackRest(PushIfPresent(stack[0].left, PushIfPresent(stack[0].right, stack[1..])))
  {
    var top := stack[0];
    var mid := PushIfPresent(top.right, stack[1..]);
    PushStep(top.right, stack[1..]);
    PushStep(top.left, mid);
    var pl, pr, sr := PreOrder(top.left), PreOrder(top.right), StackRest(stack[1..]);
    assert ([top.key] + pl + pr) + sr == [top.key] + (pl + (pr + sr));
  }

  lemma PushPresent(x: Tree, stack: seq<Tree>)
    requires AllPresent(stack)
    ensures AllPresent(PushIfPresent(x, stack))
  {
  }

  /** Iterative pre-order walk; `visits` is the sequence of `visit()` calls. */
  method IterativePreOrderTraverse(root: Tree) returns (visits: seq<int>)
    ensures visits == PreOrder(root)
  {
    visits := [];
    if root.Nil? {
      return;
    }
    var stack: seq<Tree> := [root];
    while stack != []
      invariant AllPresent(stack)
      invariant visits + StackRest(stack) == PreOrder(root)
      decreases |PreOrder(root)| - |visits|
    {
      var node := stack[0];
      PopStep(stack);
      stack := stack[1..];
      PushPresent(node.right, stack);
      stack := PushIfPresent(node.right, stack);
      PushPresent(node.left, stack);
      stack := PushIfPresent(node.left, stack);
      assert visits + ([node.key] + StackRest(stack)) == (visits + [node.key]) + StackRest(stack);
      visits := visits + [node.key];
    }
  }
}
