/** Post-order traversal: the two-stack iterative version. The first loop moves
    every node from `stack1` onto `stack2`; popping `stack2` then visits the nodes
    in post-order. Both stacks are `Deque`s whose top is element 0. */
module PostOrderTraversal {
  import opened BinaryTree

  /** The post-order visits still owed to the subtrees on `stack1`; those nearer
      the top are visited later. */
  function Owed(stack1: seq<NodeRef>): seq<int>
  {
    if stack1 == [] then [] else Owed(stack1[1..]) + PostOrder(stack1[0])
  }

  /** The keys on `stack2`, top first: the order in which they will be visited. */
  function KeysOf(stack2: seq<NodeRef>): (keys: seq<int>)
    ensures |keys| == |stack2|
  {
    if stack2 == [] then [] else [stack2[0].key] + KeysOf(stack2[1..])
  }

  /** `x` pushed when it is a node; a null child is not pushed. */
  function PushIfPresent(x: Tree, stack: seq<NodeRef>): seq<NodeRef>
  {
    if x.Node? then [x] + stack else stack
  }

  lemma PushStep(x: Tree, stack: seq<NodeRef>)
    ensures Owed(PushIfPresent(x, stack)) == Owed(stack) + PostOrder(x)
  {
    if x.Node? {
      assert ([x] + stack)[1..] == stack;
    }
  }

  /** Moving the top of `stack1` to `stack2` and pushing its left, then its right
      child keeps what both stacks together owe. */
  lemma MoveStep(stack1: seq<NodeRef>, stack2: seq<NodeRef>)
    requires stack1 != []
    ensures var node := stack1[0];
      Owed(PushIfPresent(node.right, PushIfPresent(node.left, stack1[1..]))) + KeysOf([node] + stack2)
      == Owed(stack1) + KeysOf(stack2)
  {
    var node := stack1[0];
    var rest := stack1[1..];
    var mid := PushIfPresent(node.left, rest);
    PushStep(node.left, rest);
    PushStep(node.right, mid);
    var o, pl, pr, ks := Owed(rest), PostOrder(node.left), PostOrder(node.right), KeysOf(stack2);
    assert ([node] + stack2)[1..] == stack2;
    assert KeysOf([node] + stack2) == [node.key] + ks;
    assert Owed(stack1) == o + (pl + pr + [node.key]);
    Regroup(o, pl, pr, node.key, ks);
  }

  lemma Regroup(o: seq<int>, pl: seq<int>, pr: seq<int>, k: int, ks: seq<int>)
    ensures (o + pl + pr) + ([k] + ks) == (o + (pl + pr + [k])) + ks
  {
  }

  /** Iterative two-stack post-order walk; `visits` is the sequence of `visit()`
      calls. */
  method IterativePostOrderTraverse(root: Tree) returns (visits: seq<int>)
    ensures visits == PostOrder(root)
  {
    visits := [];
    if root.Nil? {
      return;
    }
    var stack1: seq<NodeRef> := [root];
    var stack2: seq<NodeRef> := [];
    assert Owed(stack1) == Owed([]) + PostOrder(root);
    while stack1 != []
      invariant Owed(stack1) + KeysOf(stack2) == PostOrder(root)
      decreases |PostOrder(root)| - |stack2|
    {
      var node := stack1[0];
      MoveStep(stack1, stack2);
      stack1 := stack1[1..];
      stack2 := [node] + stack2;
      stack1 := PushIfPresent(node.left, stack1);
      stack1 := PushIfPresent(node.right, stack1);
    }
    while stack2 != []
      invariant visits + KeysOf(stack2) == PostOrder(root)
      decreases |stack2|
    {
      assert KeysOf(stack2) == [stack2[0].key] + KeysOf(stack2[1..]);
      assert visits + KeysOf(stack2) == (visits + [stack2[0].key]) + KeysOf(stack2[1..]);
      visits := visits + [stack2[0].key];
      stack2 := stack2[1..];
    }
  }
}
