/** A LIFO stack of characters as a singly linked chain of nodes from `top`. */
module LinkedListStack {
  import opened Java

  /** A chain node; its character never changes. */
  class Node {
    const data: char
    var next: Node?

    constructor (data: char)
      ensures this.data == data && next == null
    {
      this.data := data;
      next := null;
    }
  }

  /** The characters held by a sequence of nodes, in order. */
  ghost function Values(nodes: seq<Node>): (vs: seq<char>)
    ensures |vs| == |nodes| && forall i :: 0 <= i < |nodes| ==> vs[i] == nodes[i].data
  {
    seq(|nodes|, i requires 0 <= i < |nodes| => nodes[i].data)
  }

  class LinkedListStack {
    var top: Node?
    /** The nodes reachable from `top`, top first. */
    ghost var spine: seq<Node>

    /** `top` starts the spine, each node links to the next one and the last
        one to null. */
    ghost predicate Valid()
      reads this, spine
    {
      (top == null <==> spine == []) &&
      (spine != [] ==> top == spine[0] && spine[|spine| - 1].next == null) &&
      (forall i :: 0 <= i < |spine| - 1 ==> spine[i].next == spine[i + 1])
    }

    /** The stacked characters, top first. */
    ghost function Contents(): seq<char>
      reads this
    {
      Values(spine)
    }

    /** An empty stack. */
    constructor ()
      ensures Valid() && Contents() == []
    {
      top := null;
      spine := [];
    }

    /** `isEmpty`. */
    function IsEmpty(): (b: bool)
      reads this, spine
      requires Valid()
      ensures b <==> Contents() == []
    {
      top == null
    }

    /** `push`: a new node holding `value` becomes the top. */
    method Push(value: char)
      requires Valid()
      modifies this
      ensures Valid() && Contents() == [value] + old(Contents())
      ensures fresh(top) && spine[1..] == old(spine)
    {
      var node := new Node(value);
      node.next := top;
      top := node;
      spine := [node] + spine;
    }

    /** `pop`: unlinks and returns the top character, or throws
        `NoSuchElementException` on an empty stack, changing nothing. */
    method Pop() returns (r: Result<char>)
      requires Valid()
      modifies this
      ensures Valid()
      ensures r == if old(Contents()) == [] then Failure(NoSuchElement) else Success(old(Contents())[0])
      ensures r.Success? ==> Contents() == old(Contents())[1..] && spine == old(spine)[1..]
      ensures r.Failure? ==> Contents() == old(Contents()) && spine == old(spine)
    {
      if IsEmpty() {
        return Failure(NoSuchElement);
      }
      var value := top.data;
      assert |spine| > 1 ==> top.next == spine[1];
      top := top.next;
      spine := spine[1..];
      return Success(value);
    }

    /** `peek`: the top character, or `NoSuchElementException` on an empty
        stack; a function, so it changes nothing. */
    function Peek(): (r: Result<char>)
      reads this, spine
      requires Valid()
      ensures r == if Contents() == [] then Failure(NoSuchElement) else Success(Contents()[0])
    {
      if IsEmpty() then Failure(NoSuchElement) else Success(top.data)
    }
  }

  /** `push(v)` followed by `pop()` returns `v` and leaves the stack as it
      was, down to the very nodes. */
  method PushThenPop(s: LinkedListStack, v: char) returns (r: Result<char>)
    requires s.Valid()
    modifies s
    ensures s.Valid() && r == Success(v)
    ensures s.Contents() == old(s.Contents()) && s.spine == old(s.spine) && s.top == old(s.top)
  {
    s.Push(v);
    r := s.Pop();
  }
}
