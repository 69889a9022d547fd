/** The stack demonstrations, one per implementation, with the values the
    source's comments say they print. */
module StackMain {
  import opened Java
  import StaticArrayStack
  import DynamicArrayStack
  import LinkedListStack

  /** Capacity 3: push A, B, C; pushing D throws `IllegalStateException`;
      pop gives C, peek gives B, the stack is not empty, and after two more
      pops it is. */
  method DemoStaticArrayStack() returns (pushD: Outcome, popped: Result<char>, peeked: Result<char>,
                                         emptyBefore: bool, emptyAfter: bool)
    ensures pushD == Fail(IllegalState) && popped == Success('C') && peeked == Success('B')
    ensures !emptyBefore && emptyAfter
  {
    var s := new StaticArrayStack.StaticArrayStack(3);
    var o := s.Push('A');
    o := s.Push('B');
    o := s.Push('C');
    assert s.Contents() == ['A', 'B', 'C'];
    pushD := s.Push('D');
    popped := s.Pop();
    assert s.Contents() == ['A', 'B'];
    peeked := s.Peek();
    emptyBefore := s.IsEmpty();
    var r := s.Pop();
    r := s.Pop();
    emptyAfter := s.IsEmpty();
  }

  /** Capacity 2: push W, X, Y (which doubles the array), Z; pop gives Z,
      peek gives Y, the stack is not empty, and after three more pops it is. */
  method DemoDynamicArrayStack() returns (popped: Result<char>, peeked: Result<char>,
                                          emptyBefore: bool, emptyAfter: bool)
    ensures popped == Success('Z') && peeked == Success('Y')
    ensures !emptyBefore && emptyAfter
  {
    var s := new DynamicArrayStack.DynamicArrayStack(2);
    s.Push('W');
    s.Push('X');
    s.Push('Y');
    s.Push('Z');
    assert s.Contents() == ['W', 'X', 'Y', 'Z'];
    popped := s.Pop();
    assert s.Contents() == ['W', 'X', 'Y'];
    peeked := s.Peek();
    emptyBefore := s.IsEmpty();
    var r := s.Pop();
    assert s.Contents() == ['W', 'X'];
    r := s.Pop();
    r := s.Pop();
    emptyAfter := s.IsEmpty();
  }

  /** Push 1, 2, 3; pop gives 3, peek gives 2, the stack is not empty, and
      after two more pops it is. */
  method DemoLinkedListStack() returns (popped: Result<char>, peeked: Result<char>,
                                        emptyBefore: bool, emptyAfter: bool)
    ensures popped == Success('3') && peeked == Success('2')
    ensures !emptyBefore && emptyAfter
  {
    var s := new LinkedListStack.LinkedListStack();
    s.Push('1');
    s.Push('2');
    s.Push('3');
    assert s.Contents() == ['3', '2', '1'];
    popped := s.Pop();
    assert s.Contents() == ['2', '1'];
    peeked := s.Peek();
    emptyBefore := s.IsEmpty();
    var r := s.Pop();
    r := s.Pop();
    emptyAfter := s.IsEmpty();
  }
}
