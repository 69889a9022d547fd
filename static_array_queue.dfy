/** A bounded FIFO queue of characters in a fixed circular buffer. */
module StaticArrayQueue {
  import opened Java
  import opened CircularBuffer

  class StaticArrayQueue {
    const data: array<char>
    var front: int
    var rear: int
    var size: int

    /** `0 <= size <= capacity`, `front` and `rear` are cells (or `rear` is the
        initial `-1`), and `rear` is `front + size - 1` modulo the capacity. */
    ghost predicate Valid()
      reads this
    {
      var n := data.Length;
      n >= 1 && 0 <= front < n && 0 <= size <= n && -1 <= rear < n &&
      Wrap(rear + 1, n) == Wrap(front + size, n)
    }

    /** The queued characters, front first. */
    ghost function Contents(): seq<char>
      reads this, data
      requires Valid()
    {
      Window(data[..], front, size)
    }

    /** The constructor once its argument check has passed: an empty queue
        with `capacity` cells. */
    constructor (capacity: int)
      requires capacity >= 1
      ensures Valid() && fresh(data) && data.Length == capacity && Contents() == []
    {
      data := new char[capacity];
      front := 0;
      rear := -1;
      size := 0;
    }

    /** `isEmpty`. */
    function IsEmpty(): (b: bool)
      reads this, data
      requires Valid()
      ensures b <==> Contents() == []
    {
      size == 0
    }

    /** `isFull`: every cell is in use. */
    function IsFull(): (b: bool)
      reads this, data
      requires Valid()
      ensures b <==> |Contents()| == data.Length
    {
      size == data.Length
    }

    /** `enqueue`: appends at the rear, or throws `IllegalStateException` on a
        full queue, changing nothing. */
    method Enqueue(value: char) returns (o: Outcome)
      requires Valid()
      modifies this, data
      ensures Valid()
      ensures o == if old(|Contents()|) == data.Length then Fail(IllegalState) else Pass
      ensures o.Pass? ==> Contents() == old(Contents()) + [value]
      ensures o.Fail? ==> Contents() == old(Contents())
    {
      if IsFull() {
        return Fail(IllegalState);
      }
      ModIsWrap(rear + 1, data.Length);
      rear := (rear + 1) % data.Length;
      data[rear] := value;
      size := size + 1;
      WindowAppend(old(data[..]), front, size - 1, value);
      return Pass;
    }

    /** `dequeue`: removes and returns the front character, or throws
        `NoSuchElementException` on an empty queue, changing nothing. */
    method Dequeue() returns (r: Result<char>)
      requires Valid()
      modifies this
      ensures Valid()
      ensures r == if old(Contents()) == [] then Failure(NoSuchElement) else Success(old(Contents())[0])
      ensures r.Success? ==> Contents() == old(Contents())[1..]
      ensures r.Failure? ==> Contents() == old(Contents())
    {
      if IsEmpty() {
        return Failure(NoSuchElement);
      }
      WindowAdvance(data[..], front, size);
      var value := data[front];
      ModIsWrap(front + 1, data.Length);
      front := (front + 1) % data.Length;
      size := size - 1;
      return Success(value);
    }

    /** `peek`: the front character, or `NoSuchElementException` on an empty
        queue; a function, so it changes nothing. */
    function Peek(): (r: Result<char>)
      reads this, data
      requires Valid()
      ensures r == if Contents() == [] then Failure(NoSuchElement) else Success(Contents()[0])
    {
      if IsEmpty() then Failure(NoSuchElement)
      else
        WindowAdvance(data[..], front, size);
        Success(data[front])
    }
  }

  /** `new StaticArrayQueue(capacity)`: `IllegalArgumentException` when the
      capacity is below 1, otherwise an empty queue of that capacity. */
  method Create(capacity: int) returns (r: Result<StaticArrayQueue>)
    ensures r.Failure? <==> capacity < 1
    ensures r.Failure? ==> r.error == IllegalArgument
    ensures r.Success? ==> fresh(r.value) && fresh(r.value.data) && r.value.Valid()
    ensures r.Success? ==> r.value.data.Length == capacity && r.value.Contents() == []
  {
    if capacity < 1 {
      return Failure(IllegalArgument);
    }
    var q := new StaticArrayQueue(capacity);
    return Success(q);
  }
}
