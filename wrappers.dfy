/** Small value types shared by the rest of the model. */
module Wrappers {

  /** A Java reference that may be null: `None` is `null`. */
  datatype Option<+T> = None | Some(value: T)

  /** The outcome of an operation that may throw StringIndexOutOfBoundsException. */
  datatype Result<+T> = Ok(value: T) | IndexOutOfBounds

  /** Java's Math.min on ints. */
  function Min(a: int, b: int): (m: int)
    ensures m <= a && m <= b && (m == a || m == b)
  {
    if a <= b then a else b
  }

  /** Java's Math.max on ints. */
  function Max(a: int, b: int): (m: int)
    ensures a <= m && b <= m && (m == a || m == b)
  {
    if a >= b then a else b
  }
}
