/** Failure-carrying datatypes: `Option` stands for a Kotlin/Java nullable
    reference, `Result` for a call that may throw. */
module Wrappers {

  /** `None` is `null`; `Some(v)` is a non-null reference to `v`. */
  datatype Option<+T> = None | Some(value: T)

  /** `Failure(e)` is an exception `e` thrown out of the call. */
  datatype Result<+R, +E> = Success(value: R) | Failure(error: E)
}
