/** The queue demonstration: enqueue A, B and C, then alternate peek and
    dequeue, asking twice whether the queue is empty. */
module QueueMain {
  import opened Java
  import StaticArrayQueue
  import DynamicArrayQueue
  import LinkedListQueue

  /** What the demonstration prints, for one queue: the peeked and dequeued
      characters in order, and the two emptiness answers. */
  predicate DemoOutput(shown: seq<Result<char>>, empties: seq<bool>)
  {
    shown == [Success('A'), Success('A'), Success('B'), Success('B'), Success('C'), Success('C')] &&
    empties == [false, true]
  }

  /** `demoQueue` on a `StaticArrayQueue` of capacity 5. */
  method DemoStaticArrayQueue() returns (shown: seq<Result<char>>, empties: seq<bool>)
    ensures DemoOutput(shown, empties)
  {
    var q := new StaticArrayQueue.StaticArrayQueue(5);
    var o := q.Enqueue('A');
    o := q.Enqueue('B');
    o := q.Enqueue('C');
    assert q.Contents() == ['A', 'B', 'C'];
    var p1 := q.Peek();
    var d1 := q.Dequeue();
    assert q.Contents() == ['B', 'C'];
    var p2 := q.Peek();
    var d2 := q.Dequeue();
    assert q.Contents() == ['C'];
    var p3 := q.Peek();
    var e1 := q.IsEmpty();
    var d3 := q.Dequeue();
    var e2 := q.IsEmpty();
    shown := [p1, d1, p2, d2, p3, d3];
    empties := [e1, e2];
  }

  /** `demoQueue` on a `DynamicArrayQueue` of capacity 5. */
  method DemoDynamicArrayQueue() returns (shown: seq<Result<char>>, empties: seq<bool>)
    ensures DemoOutput(shown, empties)
  {
    var q := new DynamicArrayQueue.DynamicArrayQueue(5);
    q.Enqueue('A');
    q.Enqueue('B');
    q.Enqueue('C');
    assert q.Contents() == ['A', 'B', 'C'];
    var p1 := q.Peek();
    var d1 := q.Dequeue();
    assert q.Contents() == ['B', 'C'];
    var p2 := q.Peek();
    var d2 := q.Dequeue();
    assert q.Contents() == ['C'];
    var p3 := q.Peek();
    var e1 := q.IsEmpty();
    var d3 := q.Dequeue();
    var e2 := q.IsEmpty();
    shown := [p1, d1, p2, d2, p3, d3];
    empties := [e1, e2];
  }

  /** `demoQueue` on a `LinkedListQueue`. */
  method DemoLinkedListQueue() returns (shown: seq<Result<char>>, empties: seq<bool>)
    ensures DemoOutput(shown, empties)
  {
    var q := new LinkedListQueue.LinkedListQueue();
    q.Enqueue('A');
    q.Enqueue('B');
    q.Enqueue('C');
    assert q.Contents() == ['A', 'B', 'C'];
    var p1 := q.Peek();
    var d1 := q.Dequeue();
    assert q.Contents() == ['B', 'C'];
    var p2 := q.Peek();
    var d2 := q.Dequeue();
    assert q.Contents() == ['C'];
    var p3 := q.Peek();
    var e1 := q.IsEmpty();
    var d3 := q.Dequeue();
    var e2 := q.IsEmpty();
    shown := [p1, d1, p2, d2, p3, d3];
    empties := [e1, e2];
  }
}
