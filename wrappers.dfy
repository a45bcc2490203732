/** Option and Result, the failure-carrying values used throughout the model. */
module Wrappers {

  /** `None` stands for JavaScript's `undefined`/`null` where the source uses an optional value. */
  datatype Option<+T> = None | Some(value: T)

  /** `Failure` stands for a thrown `Error`; `Success` for a normal return. */
  datatype Result<+R, +E> = Success(value: R) | Failure(error: E)
}
