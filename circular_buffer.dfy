/** The logical contents of a circular buffer: `size` cells read from `front`
    onwards, wrapping round at the end of the buffer. Shared by the two array
    queues. */
module CircularBuffer {

  /** The cell index `x` wraps to in a buffer of `n` cells, for `x < 2 * n`. */
  function Wrap(x: int, n: int): int
  {
    if x < n then x else x - n
  }

  /** Java's `x % n` for `0 <= x < 2 * n` is `Wrap(x, n)`. */
  lemma ModIsWrap(x: int, n: int)
    requires 0 <= x < 2 * n
    ensures x % n == Wrap(x, n)
  {
    if x >= n {
      assert x == n + (x - n);
      assert 0 <= x - n < n;
    }
  }

  /** The queue held by `buf` when it starts at `front` and has `size`
      elements: element `i` sits in cell `front + i`, wrapped. */
  function Window<T>(buf: seq<T>, front: int, size: int): (w: seq<T>)
    requires 0 <= front < |buf| && 0 <= size <= |buf|
    ensures |w| == size
  {
    seq(size, i requires 0 <= i < size => buf[Wrap(front + i, |buf|)])
  }

  /** Writing the cell just past the window and growing it by one appends
      the written value. */
  lemma WindowAppend<T>(buf: seq<T>, front: int, size: int, v: T)
    requires 0 <= front < |buf| && 0 <= size < |buf|
    ensures Window(buf[Wrap(front + size, |buf|) := v], front, size + 1)
         == Window(buf, front, size) + [v]
  {
    var n := |buf|;
    var buf' := buf[Wrap(front + size, n) := v];
    var lhs := Window(buf', front, size + 1);
    var rhs := Window(buf, front, size) + [v];
    forall i | 0 <= i < size + 1
      ensures lhs[i] == rhs[i]
    {
      if i < size {
        assert Wrap(front + i, n) != Wrap(front + size, n);
      }
    }
  }

  /** Dropping the first element moves the front one cell on, wrapping. */
  lemma WindowAdvance<T>(buf: seq<T>, front: int, size: int)
    requires 0 <= front < |buf| && 0 < size <= |buf|
    ensures Window(buf, front, size)[0] == buf[front]
    ensures Window(buf, front, size)[1..] == Window(buf, Wrap(front + 1, |buf|), size - 1)
  {
    var n := |buf|;
    var w := Window(buf, front, size);
    var w' := Window(buf, Wrap(front + 1, n), size - 1);
    assert w[0] == buf[Wrap(front, n)];
    forall i | 0 <= i < size - 1
      ensures w[1..][i] == w'[i]
    {
      assert w[1..][i] == w[i + 1] == buf[Wrap(front + i + 1, n)];
      assert w'[i] == buf[Wrap(Wrap(front + 1, n) + i, n)];
    }
  }

  /** A window starting at cell 0 is a plain prefix. */
  lemma WindowFromStart<T>(buf: seq<T>, size: int)
    requires 0 < |buf| && 0 <= size <= |buf|
    ensures Window(buf, 0, size) == buf[..size]
  {
    var w := Window(buf, 0, size);
    forall i | 0 <= i < size
      ensures w[i] == buf[..size][i]
    {
      assert Wrap(i, |buf|) == i;
    }
  }
}
