/** An unbounded LIFO stack of characters in an array that doubles when full
    and halves once a pop leaves it a quarter full. */
module DynamicArrayStack {
  import opened Java
  import StaticArrayStack

  class DynamicArrayStack {
    var data: array<char>
    var top: int

    /** The element count `top + 1` never exceeds the capacity, which is at
        least 1. */
    ghost predicate Valid()
      reads this
    {
      data.Length >= 1 && -1 <= top < data.Length
    }

    /** The stacked characters, bottom first, so the top is the last one. */
    ghost function Contents(): seq<char>
      reads this, data
      requires Valid()
    {
      data[..top + 1]
    }

    /** The constructor once its argument check has passed: an empty stack
        with `capacity` cells. */
    constructor (capacity: int)
      requires capacity >= 1
      ensures Valid() && fresh(data) && data.Length == capacity && Contents() == []
    {
      data := new char[capacity];
      top := -1;
    }

    /** `isEmpty`. */
    function IsEmpty(): (b: bool)
      reads this, data
      requires Valid()
      ensures b <==> Contents() == []
    {
      top == -1
    }

    /** `push`: places `value` on top and never fails; a full array is first
        resized to twice its capacity. */
    method Push(value: char)
      requires Valid()
      modifies this, data
      ensures Valid() && (data == old(data) || fresh(data))
      ensures Contents() == old(Contents()) + [value]
      ensures data.Length == if old(top) + 1 == old(data.Length) then 2 * old(data.Length) else old(data.Length)
    {
      if top + 1 == data.Length {
        Resize(data.Length * 2);
      }
      top := top + 1;
      data[top] := value;
    }

    /** `pop`: removes and returns the top character, then halves the
        capacity if that leaves a non-empty stack of exactly a quarter of it;
        on an empty stack it throws `NoSuchElementException` and changes
        nothing. */
    method Pop() returns (r: Result<char>)
      requires Valid()
      modifies this
      ensures Valid() && (data == old(data) || fresh(data))
      ensures r == if old(Contents()) == [] then Failure(NoSuchElement)
                   else Success(StaticArrayStack.Last(old(Contents())))
      ensures r.Success? ==> Contents() == old(Contents())[..|old(Contents())| - 1]
      ensures r.Success? ==> data.Length == CapacityAfterPop(old(top), old(data.Length))
      ensures r.Failure? ==> Contents() == old(Contents()) && data == old(data)
    {
      if IsEmpty() {
        return Failure(NoSuchElement);
      }
      var value := data[top];
      top := top - 1;
      if top + 1 > 0 && top + 1 == data.Length / 4 {
        Resize(data.Length / 2);
      }
      return Success(value);
    }

    /** `peek`: the top character, or `NoSuchElementException` on an empty
        stack; a function, so it changes nothing. */
    function Peek(): (r: Result<char>)
      reads this, data
      requires Valid()
      ensures r == if Contents() == [] then Failure(NoSuchElement)
                   else Success(StaticArrayStack.Last(Contents()))
    {
      if IsEmpty() then Failure(NoSuchElement) else Success(data[top])
    }

    /** `resize`: a fresh array of the new capacity whose first `top + 1`
        cells are copied from the old one. */
    method Resize(newCapacity: int)
      requires Valid() && top + 1 <= newCapacity && newCapacity >= 1
      modifies this
      ensures Valid() && fresh(data) && data.Length == newCapacity
      ensures top == old(top) && Contents() == old(Contents())
    {
      var newArray := new char[newCapacity];
      for k := 0 to top + 1
        modifies newArray
        invariant newArray[..k] == data[..k]
      {
        newArray[k] := data[k];
      }
      data := newArray;
    }
  }

  /** The capacity a pop leaves when `count` elements remain in an array of
      `capacity` cells. */
  function CapacityAfterPop(count: int, capacity: int): int
  {
    if count > 0 && count == capacity / 4 then capacity / 2 else capacity
  }

  /** `new DynamicArrayStack(capacity)`: `IllegalArgumentException` when the
      capacity is below 1, otherwise an empty stack of that capacity. */
  method Create(capacity: int) returns (r: Result<DynamicArrayStack>)
    ensures r.Failure? <==> capacity < 1
    ensures r.Failure? ==> r.error == IllegalArgument
    ensures r.Success? ==> fresh(r.value) && fresh(r.value.data) && r.value.Valid()
    ensures r.Success? ==> r.value.data.Length == capacity && r.value.Contents() == []
  {
    if capacity < 1 {
      return Failure(IllegalArgument);
    }
    var s := new DynamicArrayStack(capacity);
    return Success(s);
  }
}
