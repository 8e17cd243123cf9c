/** Failure-compatible wrappers shared by the whole model. */
module Wrappers {

  /** An optional value: a relay that answered, a decoded key, an embedding. */
  datatype Option<+T> = None | Some(value: T)

  /** Either a value or an error message, for operations that reject their input. */
  datatype Result<+R, +E> = Success(value: R) | Failure(error: E)
}
