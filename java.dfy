/** Java runtime notions shared by every model: the exceptions the source throws
    and the 32-bit integer range. */
module Java {

  /** The exception classes thrown by the modelled code. */
  datatype Exception =
    | IllegalArgument
    | IllegalState
    | NoSuchElement
    | IndexOutOfBounds
    | NullPointer
    | NegativeArraySize

  /** Completion of a `void` Java method: normal, or by throwing. */
  datatype Outcome = Pass | Fail(error: Exception)

  /** Completion of a value-returning Java method. */
  datatype Result<T> = Success(value: T) | Failure(error: Exception)

  /** A Java reference that may be null. */
  datatype Option<T> = None | Some(value: T)

  const INT_MAX: int := 0x7fff_ffff
  const INT_MIN: int := -0x8000_0000

  predicate IsInt(x: int) { INT_MIN <= x <= INT_MAX }

  /** `Math.max` on ints. */
  function Max(x: int, y: int): int
  {
    if x >= y then x else y
  }
}
