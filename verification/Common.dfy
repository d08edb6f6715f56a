/** Failure-compatible wrappers and the Python numeric conversions shared by the models. */
module Common {

  datatype Option<+T> = None | Some(value: T)

  /** `Err` stands for the exception the original raises. */
  datatype Result<+T> = Ok(value: T) | Err

  type Byte = x: int | 0 <= x < 256

  type Bytes = seq<Byte>

  /** Python's `int(x)` on a float: truncation toward zero. */
  function Truncate(x: real): int {
    if x >= 0.0 then x.Floor else -((-x).Floor)
  }

  function Max(a: int, b: int): int {
    if a >= b then a else b
  }
}
