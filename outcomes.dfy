/**
 * Definitions shared by the driver and the mesh reader: success/failure
 * wrappers, and the `std::min` of the thread count and of `erase`.
 */
module Outcomes {

  /** A value that may be absent (a `string::npos` search, a missing array). */
  datatype Option<+T> = None | Some(value: T)

  /** The result of an operation that may fail with an error of type `E`. */
  datatype Result<+T, +E> = Success(value: T) | Failure(error: E)

  /** `std::min` on sizes. */
  function Min(a: nat, b: nat): nat
  {
    if a < b then a else b
  }
}
