/** Failure-compatible wrappers used across the model: an optional value and a
    value-or-error result. */
module Wrappers {

  /** An optional value; `Bits.find` in the detector answers with one of these. */
  datatype Option<+T> = None | Some(value: T)

  /** Either a computed value or the error that stopped the computation. */
  datatype Result<+R, +E> = Success(value: R) | Failure(error: E)
}
