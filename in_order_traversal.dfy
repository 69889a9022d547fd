/** In-order traversal: the iterative version with an explicit node stack, proved to
    emit the recursive visit sequence `BinaryTree.InOrder`. */
module InOrderTraversal {
  import opened BinaryTree

  /** What the stacked nodes still owe; the stack is a `Deque` whose top is
      element 0. Each popped node is visited, then its right subtree. */
  function StackRest(stack: seq<Tree>): seq<int>
    requires forall i :: 0 <= i < |stack| ==> stack[i].Node?
  {
    if stack == [] then []
    else [stack[0].key] + InOrder(stack[0].right) + StackRest(stack[1..])
  }

  /** Pushing a node moves its key and right subtree onto the stack. */
  lemma PushStep(node: Tree, stack: seq<Tree>)
    requires node.Node? && forall i :: 0 <= i < |stack| ==> stack[i].Node?
    ensures forall i :: 0 <= i < |[node] + stack| ==> ([node] + stack)[i].Node?
    ensures InOrder(node.left) + StackRest([node] + stack) == InOrder(node) + StackRest(stack)
  {
    assert ([node] + stack)[1..] == stack;
  }

  /** Iterative in-order walk; `visits` is the sequence of `visit()` calls. */
  method IterativeInOrderTraverse(root: Tree) returns (visits: seq<int>)
    ensures visits == InOrder(root)
  {
    visits := [];
    if root.Nil? {
      return;
    }
    var stack: seq<Tree> := [];
    var node := root;
    while stack != [] || node.Node?
      invariant forall i :: 0 <= i < |stack| ==> stack[i].Node?
      invariant visits + (InOrder(node) + StackRest(stack)) == InOrder(root)
      decreases |InOrder(root)| - |visits|, Size(node)
    {
      if node.Node? {
        PushStep(node, stack);
        stack := [node] + stack;
        node := node.left;
      } else {
        var top := stack[0];
        assert StackRest(stack) == [top.key] + InOrder(top.right) + StackRest(stack[1..]);
        stack := stack[1..];
        assert visits + (InOrder(node) + ([top.key] + InOrder(top.right) + StackRest(stack)))
            == (visits + [top.key]) + (InOrder(top.right) + StackRest(stack));
        visits := visits + [top.key];
        node := top.right;
      }
    }
  }
}
