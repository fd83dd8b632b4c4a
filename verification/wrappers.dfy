/** Option and Result datatypes shared by the model. */
module Wrappers {

  /** Some/None, used where a lookup may find nothing. */
  datatype Option<+T> = None | Some(value: T)

  /** A computed value, or the error that stopped the computation. */
  datatype Result<+R, +E> = Success(value: R) | Failure(error: E)
}
