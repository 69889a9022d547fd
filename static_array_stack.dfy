/** A bounded LIFO stack of characters in a fixed array; `top` indexes the
    most recently pushed element. */
module StaticArrayStack {
  import opened Java

  class StaticArrayStack {
    const data: array<char>
    var top: int

    /** `-1 <= top <= capacity - 1` and the capacity is at least 1. */
    ghost predicate Valid()
      reads this
    {
      data.Length >= 1 && -1 <= top < data.Length
    }

    /** The stacked characters, bottom first, so the top is the last one. */
    ghost function Contents(): seq<char>
      reads this, data
      requires Valid()
    {
      data[..top + 1]
    }

    /** The constructor once its argument check has passed: an empty stack
        with `capacity` cells. */
    constructor (capacity: int)
      requires capacity >= 1
      ensures Valid() && fresh(data) && data.Length == capacity && Contents() == []
    {
      data := new char[capacity];
      top := -1;
    }

    /** `isEmpty`. */
    function IsEmpty(): (b: bool)
      reads this, data
      requires Valid()
      ensures b <==> Contents() == []
    {
      top == -1
    }

    /** `isFull`: a full stack is one whose top is the last cell. */
    function IsFull(): (b: bool)
      reads this, data
      requires Valid()
      ensures b <==> |Contents()| == data.Length
    {
      top == data.Length - 1
    }

    /** `push`: places `value` on top, or throws `IllegalStateException` on a
        full stack, changing nothing. */
    method Push(value: char) returns (o: Outcome)
      requires Valid()
      modifies this, data
      ensures Valid()
      ensures o == if old(|Contents()|) == data.Length then Fail(IllegalState) else Pass
      ensures o.Pass? ==> Contents() == old(Contents()) + [value]
      ensures o.Fail? ==> Contents() == old(Contents())
    {
      if IsFull() {
        return Fail(IllegalState);
      }
      top := top + 1;
      data[top] := value;
      return Pass;
    }

    /** `pop`: removes and returns the top character, or throws
        `NoSuchElementException` on an empty stack, changing nothing. */
    method Pop() returns (r: Result<char>)
      requires Valid()
      modifies this
      ensures Valid()
      ensures r == if old(Contents()) == [] then Failure(NoSuchElement) else Success(Last(old(Contents())))
      ensures r.Success? ==> Contents() == old(Contents())[..|old(Contents())| - 1]
      ensures r.Failure? ==> Contents() == old(Contents())
    {
      if IsEmpty() {
        return Failure(NoSuchElement);
      }
      var value := data[top];
      top := top - 1;
      return Success(value);
    }

    /** `peek`: the top character, or `NoSuchElementException` on an empty
        stack; a function, so it changes nothing. */
    function Peek(): (r: Result<char>)
      reads this, data
      requires Valid()
      ensures r == if Contents() == [] then Failure(NoSuchElement) else Success(Last(Contents()))
    {
      if IsEmpty() then Failure(NoSuchElement) else Success(data[top])
    }
  }

  /** The last element of a non-empty sequence. */
  function Last<T>(s: seq<T>): T
    requires s != []
  {
    s[|s| - 1]
  }

  /** `new StaticArrayStack(capacity)`: `IllegalArgumentException` when the
      capacity is below 1, otherwise an empty stack of that capacity. */
  method Create(capacity: int) returns (r: Result<StaticArrayStack>)
    ensures r.Failure? <==> capacity < 1
    ensures r.Failure? ==> r.error == IllegalArgument
    ensures r.Success? ==> fresh(r.value) && fresh(r.value.data) && r.value.Valid()
    ensures r.Success? ==> r.value.data.Length == capacity && r.value.Contents() == []
  {
    if capacity < 1 {
      return Failure(IllegalArgument);
    }
    var s := new StaticArrayStack(capacity);
    return Success(s);
  }
}
