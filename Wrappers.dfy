/** Failure-carrying result types shared by the other modules. */
module Wrappers {

  datatype Option<+T> = None | Some(value: T)

  datatype Result<+R, +E> = Success(value: R) | Failure(error: E)

  /** An octet, the unit that UTF-8 produces and Base64 consumes. */
  type Byte = b: int | 0 <= b < 0x100
}
