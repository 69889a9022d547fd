/** A growable `int` array: a fixed buffer whose first `size` cells hold the
    elements, doubled when full and halved when at most a quarter is used. */
module DynamicArray {
  import opened Java

  class DynamicArray {
    var arr: array<int>
    var size: int
    var capacity: int

    /** `0 <= size <= capacity == array.length` and `capacity >= 1`. */
    ghost predicate Valid()
      reads this
    {
      0 <= size <= capacity == arr.Length && capacity >= 1
    }

    /** The elements, in index order. */
    ghost function Contents(): seq<int>
      reads this, arr
      requires Valid()
    {
      arr[..size]
    }

    /** The constructor once its argument check has passed: an empty array of
        the given capacity. */
    constructor (initialCapacity: int)
      requires initialCapacity >= 1
      ensures Valid() && fresh(arr)
      ensures Contents() == [] && capacity == initialCapacity
    {
      arr := new int[initialCapacity];
      size := 0;
      capacity := initialCapacity;
    }

    /** `get`: the element at `index`, or `IndexOutOfBoundsException` outside
        `[0, size)`. */
    method Get(index: int) returns (r: Result<int>)
      requires Valid()
      ensures !(0 <= index < size) <==> r == Failure(IndexOutOfBounds)
      ensures 0 <= index < size ==> r == Success(Contents()[index])
    {
      if index < 0 || index >= size {
        return Failure(IndexOutOfBounds);
      }
      return Success(arr[index]);
    }

    /** `set`: replaces the element at `index` and nothing else, or throws
        `IndexOutOfBoundsException` outside `[0, size)` with no change. */
    method Set(index: int, value: int) returns (o: Outcome)
      requires Valid()
      modifies arr
      ensures Valid() && size == old(size) && capacity == old(capacity)
      ensures o == if 0 <= index < old(size) then Pass else Fail(IndexOutOfBounds)
      ensures o.Pass? ==> Contents() == old(Contents())[index := value]
      ensures o.Fail? ==> Contents() == old(Contents())
    {
      if index < 0 || index >= size {
        return Fail(IndexOutOfBounds);
      }
      arr[index] := value;
      assert arr[..size] == old(arr[..size])[index := value];
      return Pass;
    }

    /** `add(value)`: appends, doubling the capacity first when the buffer is
        full. */
    method Add(value: int)
      requires Valid()
      modifies this, arr
      ensures arr == old(arr) || fresh(arr)
      ensures Valid() && Contents() == old(Contents()) + [value]
      ensures capacity == if old(size) == old(capacity) then 2 * old(capacity) else old(capacity)
    {
      EnsureCapacity();
      arr[size] := value;
      size := size + 1;
      assert arr[..size] == arr[..size - 1] + [value];
    }

    /** `add(index, value)`: inserts at `index`, shifting the tail right. The
        index must lie in `[0, size)`, so appending through this method is
        rejected with `IndexOutOfBoundsException`, leaving everything as it was. */
    method AddAt(index: int, value: int) returns (o: Outcome)
      requires Valid()
      modifies this, arr
      ensures arr == old(arr) || fresh(arr)
      ensures Valid()
      ensures o == if 0 <= index < old(size) then Pass else Fail(IndexOutOfBounds)
      ensures o.Pass? ==> Contents() == old(Contents())[..index] + [value] + old(Contents())[index..]
      ensures o.Pass? ==> capacity == if old(size) == old(capacity) then 2 * old(capacity) else old(capacity)
      ensures o.Fail? ==> Contents() == old(Contents()) && capacity == old(capacity) && arr == old(arr)
    {
      if index < 0 || index >= size {
        return Fail(IndexOutOfBounds);
      }
      EnsureCapacity();
      ghost var c := Contents();
      ShiftRight(index);
      arr[index] := value;
      size := size + 1;
      assert arr[..size] == c[..index] + [value] + c[index..];
      return Pass;
    }

    /** `System.arraycopy(array, index, array, index + 1, size - index)`: the
        cells `[index, size)` move one place right, copied from the top down. */
    method ShiftRight(index: int)
      requires Valid() && 0 <= index <= size < capacity
      modifies arr
      ensures forall m :: 0 <= m <= index ==> arr[m] == old(arr[m])
      ensures forall m :: index < m <= size ==> arr[m] == old(arr[m - 1])
    {
      var k := size;
      while k > index
        invariant index <= k <= size
        invariant forall m :: 0 <= m <= k ==> arr[m] == old(arr[m])
        invariant forall m :: k < m <= size ==> arr[m] == old(arr[m - 1])
      {
        arr[k] := arr[k - 1];
        k := k - 1;
      }
    }

    /** `remove(index)`: deletes the element at `index`, shifting the tail left,
        then halves the capacity (never below 1) once at most a quarter of it is
        used; outside `[0, size)` it throws `IndexOutOfBoundsException` and
        changes nothing. */
    method Remove(index: int) returns (o: Outcome)
      requires Valid()
      modifies this, arr
      ensures arr == old(arr) || fresh(arr)
      ensures Valid()
      ensures o == if 0 <= index < old(size) then Pass else Fail(IndexOutOfBounds)
      ensures o.Pass? ==> Contents() == old(Contents())[..index] + old(Contents())[index + 1..]
      ensures o.Pass? ==> capacity == ShrunkCapacity(old(size) - 1, old(capacity))
      ensures o.Fail? ==> Contents() == old(Contents()) && capacity == old(capacity) && arr == old(arr)
    {
      if index < 0 || index >= size {
        return Fail(IndexOutOfBounds);
      }
      ghost var c := Contents();
      var numberElementsMoved := size - index - 1;
      if numberElementsMoved > 0 {
        ShiftLeft(index);
      }
      size := size - 1;
      assert arr[..size] == c[..index] + c[index + 1..];
      ShrinkCapacity();
      return Pass;
    }

    /** `System.arraycopy(array, index + 1, array, index, size - index - 1)`:
        the cells `(index, size)` move one place left, copied from the bottom up. */
    method ShiftLeft(index: int)
      requires Valid() && 0 <= index < size
      modifies arr
      ensures forall m :: 0 <= m < index ==> arr[m] == old(arr[m])
      ensures forall m :: index <= m < size - 1 ==> arr[m] == old(arr[m + 1])
    {
      var k := index;
      while k < size - 1
        invariant index <= k <= size - 1
        invariant forall m :: 0 <= m < index ==> arr[m] == old(arr[m])
        invariant forall m :: index <= m < k ==> arr[m] == old(arr[m + 1])
        invariant forall m :: k <= m < size ==> arr[m] == old(arr[m])
      {
        arr[k] := arr[k + 1];
        k := k + 1;
      }
    }

    /** `size()`. */
    function Size(): (n: int)
      reads this, arr
      requires Valid()
      ensures n == |Contents()|
    {
      size
    }

    /** `ensureCapacity`: a full buffer is doubled, keeping the elements. */
    method EnsureCapacity()
      requires Valid()
      modifies this
      ensures Valid() && Contents() == old(Contents()) && size < capacity
      ensures capacity == if old(size) == old(capacity) then 2 * old(capacity) else old(capacity)
      ensures old(size) < old(capacity) ==> arr == old(arr)
      ensures arr == old(arr) || fresh(arr)
    {
      if size == capacity {
        Resize(capacity * 2);
      }
    }

    /** `shrinkCapacity`: once at most a quarter of a buffer longer than one
        cell is used, it is halved (never below 1), keeping the elements. */
    method ShrinkCapacity()
      requires Valid()
      modifies this
      ensures Valid() && Contents() == old(Contents())
      ensures capacity == ShrunkCapacity(old(size), old(capacity))
      ensures arr == old(arr) || fresh(arr)
    {
      if size <= capacity / 4 && capacity > 1 {
        Resize(Max(capacity / 2, 1));
      }
    }

    /** `resize`: a fresh buffer of the new capacity holding the same elements. */
    method Resize(newCapacity: int)
      requires Valid() && size <= newCapacity && newCapacity >= 1
      modifies this
      ensures Valid() && Contents() == old(Contents()) && capacity == newCapacity
      ensures fresh(arr)
    {
      var newArray := new int[newCapacity];
      for k := 0 to size
        modifies newArray
        invariant newArray[..k] == arr[..k]
      {
        newArray[k] := arr[k];
      }
      arr := newArray;
      capacity := newCapacity;
    }
  }

  /** The capacity `shrinkCapacity` leaves for `size` elements in a buffer of
      `capacity` cells. */
  function ShrunkCapacity(size: int, capacity: int): int
  {
    if size <= capacity / 4 && capacity > 1 then Max(capacity / 2, 1) else capacity
  }

  /** `new DynamicArray(capacity)`: `IllegalArgumentException` when the
      capacity is below 1, otherwise an empty array of that capacity. */
  method Create(capacity: int) returns (r: Result<DynamicArray>)
    ensures r.Failure? <==> capacity < 1
    ensures r.Failure? ==> r.error == IllegalArgument
    ensures r.Success? ==> fresh(r.value) && fresh(r.value.arr) && r.value.Valid()
    ensures r.Success? ==> r.value.capacity == capacity && r.value.Contents() == []
  {
    if capacity < 1 {
      return Failure(IllegalArgument);
    }
    var d := new DynamicArray(capacity);
    return Success(d);
  }

  /** The demonstration sequence: capacity 5; add 10, 20, 30; insert 15 at 1;
      remove index 1; add 40, 50, 60 (which doubles the buffer); remove index 0
      four times (which halves it). */
  method Demo() returns (contents: seq<int>, size: int, capacity: int)
    ensures contents == [50, 60] && size == 2 && capacity == 5
  {
    var d := new DynamicArray(5);
    d.Add(10);
    d.Add(20);
    d.Add(30);
    assert d.Contents() == [10, 20, 30] && d.capacity == 5;
    assert d.Contents()[..1] == [10] && d.Contents()[1..] == [20, 30];
    var o := d.AddAt(1, 15);
    assert d.Contents() == [10, 15, 20, 30] && d.capacity == 5;
    assert d.Contents()[..1] == [10] && d.Contents()[2..] == [20, 30];
    o := d.Remove(1);
    assert d.Contents() == [10, 20, 30] && d.capacity == 5;
    DemoGrowAndShrink(d);
    contents := d.arr[..d.size];
    size := d.Size();
    capacity := d.capacity;
  }

  /** The second half of the demonstration. */
  method DemoGrowAndShrink(d: DynamicArray)
    requires d.Valid() && d.Contents() == [10, 20, 30] && d.capacity == 5
    modifies d, d.arr
    ensures d.Valid() && d.Contents() == [50, 60] && d.capacity == 5
  {
    d.Add(40);
    d.Add(50);
    assert d.Contents() == [10, 20, 30, 40, 50] && d.capacity == 5;
    d.Add(60);
    assert d.Contents() == [10, 20, 30, 40, 50, 60] && d.capacity == 10;
    assert d.Contents()[1..] == [20, 30, 40, 50, 60];
    var o := d.Remove(0);
    assert d.Contents() == [20, 30, 40, 50, 60] && d.capacity == 10;
    assert d.Contents()[1..] == [30, 40, 50, 60];
    o := d.Remove(0);
    assert d.Contents() == [30, 40, 50, 60] && d.capacity == 10;
    assert d.Contents()[1..] == [40, 50, 60];
    o := d.Remove(0);
    assert d.Contents() == [40, 50, 60] && d.capacity == 10;
    assert d.Contents()[1..] == [50, 60];
    o := d.Remove(0);
  }
}
