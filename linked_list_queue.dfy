/** A FIFO queue of characters as a singly linked chain from `front` to
    `rear`. */
module LinkedListQueue {
  import opened Java

  /** A chain node; its character never changes. */
  class Node {
    const data: char
    var next: Node?

    constructor (data: char)
      ensures this.data == data && next == null
    {
      this.data := data;
      next := null;
    }
  }

  /** The characters held by a sequence of nodes, in order. */
  ghost function Values(nodes: seq<Node>): (vs: seq<char>)
    ensures |vs| == |nodes| && forall i :: 0 <= i < |nodes| ==> vs[i] == nodes[i].data
  {
    seq(|nodes|, i requires 0 <= i < |nodes| => nodes[i].data)
  }

  class LinkedListQueue {
    var front: Node?
    var rear: Node?
    /** The nodes from `front` to `rear`, in order. */
    ghost var spine: seq<Node>

    /** `front` is null exactly when `rear` is, `front` and `rear` are the
        first and last nodes of the spine, each node links to the next one
        and `rear` to null. */
    ghost predicate Valid()
      reads this, spine
    {
      (front == null <==> spine == []) && (rear == null <==> spine == []) &&
      (spine != [] ==> front == spine[0] && rear == spine[|spine| - 1] && rear.next == null) &&
      (forall i :: 0 <= i < |spine| - 1 ==> spine[i].next == spine[i + 1])
    }

    /** The queued characters, front first. */
    ghost function Contents(): seq<char>
      reads this
    {
      Values(spine)
    }

    /** An empty queue. */
    constructor ()
      ensures Valid() && Contents() == []
    {
      front := null;
      rear := null;
      spine := [];
    }

    /** `isEmpty`. */
    function IsEmpty(): (b: bool)
      reads this, spine
      requires Valid()
      ensures b <==> Contents() == []
    {
      front == null
    }

    /** `enqueue`: a new node holding `value` is linked after `rear` (or
        becomes `front` too when the queue is empty) and becomes `rear`. */
    method Enqueue(value: char)
      requires Valid()
      modifies this, spine
      ensures Valid() && Contents() == old(Contents()) + [value]
      ensures fresh(rear) && spine == old(spine) + [rear]
    {
      var newNode := new Node(value);
      if IsEmpty() {
        front := newNode;
      } else {
        rear.next := newNode;
      }
      rear := newNode;
      spine := spine + [newNode];
    }

    /** `dequeue`: unlinks and returns the front character, resetting `rear`
        to null when that empties the queue, or throws
        `NoSuchElementException` on an empty queue, changing nothing. */
    method Dequeue() returns (r: Result<char>)
      requires Valid()
      modifies this
      ensures Valid()
      ensures r == if old(Contents()) == [] then Failure(NoSuchElement) else Success(old(Contents())[0])
      ensures r.Success? ==> Contents() == old(Contents())[1..] && spine == old(spine)[1..]
      ensures r.Success? && old(|spine|) == 1 ==> front == null && rear == null
      ensures r.Failure? ==> Contents() == old(Contents()) && spine == old(spine)
    {
      if IsEmpty() {
        return Failure(NoSuchElement);
      }
      var data := front.data;
      assert |spine| > 1 ==> front.next == spine[1];
      front := front.next;
      if front == null {
        rear := null;
      }
      spine := spine[1..];
      return Success(data);
    }

    /** `peek`: the front character, or `NoSuchElementException` on an empty
        queue; a function, so it changes nothing. */
    function Peek(): (r: Result<char>)
      reads this, spine
      requires Valid()
      ensures r == if Contents() == [] then Failure(NoSuchElement) else Success(Contents()[0])
    {
      if IsEmpty() then Failure(NoSuchElement) else Success(front.data)
    }
  }
}
