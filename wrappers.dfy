/** Option and Result, the two failure-carrying types the model uses for PHP's
    null and for a call that either returns or throws an exception. */
module Wrappers {

  /** PHP's null (None) or a present value (Some). */
  datatype Option<+T> = None | Some(value: T)

  /** A call that returns a value (Success) or throws an exception whose
      message is `error` (Failure). */
  datatype Result<+T, +E> = Success(value: T) | Failure(error: E)
}
