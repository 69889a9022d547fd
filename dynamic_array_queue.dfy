/** An unbounded FIFO queue of characters in a circular buffer that doubles
    when full and is resized once a dequeue leaves it a quarter full. */
module DynamicArrayQueue {
  import opened Java
  import opened CircularBuffer

  class DynamicArrayQueue {
    var data: array<char>
    var front: int
    var rear: int
    var size: int

    /** `0 <= size <= capacity`, `front` and `rear` are cells (or `rear` is the
        initial `-1`), and `rear` is `front + size - 1` modulo the capacity. */
    ghost predicate Valid()
      reads this
    {
      var n := data.Length;
      n >= 1 && 0 <= front < n && 0 <= size <= n && -1 <= rear < n &&
      Wrap(rear + 1, n) == Wrap(front + size, n)
    }

    /** The queued characters, front first. */
    ghost function Contents(): seq<char>
      reads this, data
      requires Valid()
    {
      Window(data[..], front, size)
    }

    /** The constructor once its argument check has passed: an empty queue
        with `capacity` cells. */
    constructor (capacity: int)
      requires capacity >= 1
      ensures Valid() && fresh(data) && data.Length == capacity && Contents() == []
    {
      data := new char[capacity];
      front := 0;
      rear := -1;
      size := 0;
    }

    /** `isEmpty`. */
    function IsEmpty(): (b: bool)
      reads this, data
      requires Valid()
      ensures b <==> Contents() == []
    {
      size == 0
    }

    /** `enqueue`: appends at the rear and never fails; a full buffer is first
        resized to twice its capacity. */
    method Enqueue(value: char)
      requires Valid()
      modifies this, data
      ensures Valid() && (data == old(data) || fresh(data))
      ensures Contents() == old(Contents()) + [value]
      ensures data.Length == if old(size) == old(data.Length) then 2 * old(data.Length) else old(data.Length)
    {
      if size == data.Length {
        Resize(2 * data.Length);
      }
      ghost var before := data[..];
      ModIsWrap(rear + 1, data.Length);
      rear := (rear + 1) % data.Length;
      data[rear] := value;
      size := size + 1;
      WindowAppend(before, front, size - 1, value);
    }

    /** `dequeue`: removes and returns the front character, then, if that
        leaves a non-empty queue of exactly a quarter of the capacity, resizes
        to `max(capacity / 2, 10)`; on an empty queue it throws
        `NoSuchElementException` and changes nothing. */
    method Dequeue() returns (r: Result<char>)
      requires Valid()
      modifies this
      ensures Valid() && (data == old(data) || fresh(data))
      ensures r == if old(Contents()) == [] then Failure(NoSuchElement) else Success(old(Contents())[0])
      ensures r.Success? ==> Contents() == old(Contents())[1..]
      ensures r.Success? ==> data.Length == CapacityAfterDequeue(old(size) - 1, old(data.Length))
      ensures r.Failure? ==> Contents() == old(Contents()) && data == old(data)
    {
      if IsEmpty() {
        return Failure(NoSuchElement);
      }
      WindowAdvance(data[..], front, size);
      var value := data[front];
      ModIsWrap(front + 1, data.Length);
      front := (front + 1) % data.Length;
      size := size - 1;
      if size > 0 && size == data.Length / 4 {
        Resize(Max(data.Length / 2, 10));
      }
      return Success(value);
    }

    /** `peek`: the front character, or `NoSuchElementException` on an empty
        queue; a function, so it changes nothing. */
    function Peek(): (r: Result<char>)
      reads this, data
      requires Valid()
      ensures r == if Contents() == [] then Failure(NoSuchElement) else Success(Contents()[0])
    {
      if IsEmpty() then Failure(NoSuchElement)
      else
        WindowAdvance(data[..], front, size);
        Success(data[front])
    }

    /** `resize`: a fresh buffer holding the elements in queue order in cells
        `0 .. size - 1`, with `front = 0` and `rear = size - 1`. */
    method Resize(newCapacity: int)
      requires Valid() && size <= newCapacity && newCapacity >= 1
      modifies this
      ensures Valid() && fresh(data) && data.Length == newCapacity
      ensures Contents() == old(Contents()) && data[..size] == old(Contents())
      ensures front == 0 && rear == size - 1 && size == old(size)
    {
      var newData := new char[newCapacity];
      ghost var w := Contents();
      for i := 0 to size
        modifies newData
        invariant newData[..i] == w[..i]
      {
        ModIsWrap(front + i, data.Length);
        newData[i] := data[(front + i) % data.Length];
      }
      assert newData[..size] == w;
      data := newData;
      front := 0;
      rear := size - 1;
      WindowFromStart(data[..], size);
    }
  }

  /** The capacity a dequeue leaves when `size` elements remain in a buffer of
      `capacity` cells. */
  function CapacityAfterDequeue(size: int, capacity: int): int
  {
    if size > 0 && size == capacity / 4 then Max(capacity / 2, 10) else capacity
  }

  /** `new DynamicArrayQueue(capacity)`: `IllegalArgumentException` when the
      capacity is below 1, otherwise an empty queue of that capacity. */
  method Create(capacity: int) returns (r: Result<DynamicArrayQueue>)
    ensures r.Failure? <==> capacity < 1
    ensures r.Failure? ==> r.error == IllegalArgument
    ensures r.Success? ==> fresh(r.value) && fresh(r.value.data) && r.value.Valid()
    ensures r.Success? ==> r.value.data.Length == capacity && r.value.Contents() == []
  {
    if capacity < 1 {
      return Failure(IllegalArgument);
    }
    var q := new DynamicArrayQueue(capacity);
    return Success(q);
  }
}
