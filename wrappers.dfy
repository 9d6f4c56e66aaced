/** Optional values and throwing results, as Swift's `Optional` and `Result`/`throws` express them. */
module Wrappers {

  /** Swift's `Optional`: `nil` is `None`. */
  datatype Option<+T> = None | Some(value: T)

  /** The outcome of a call that either returns a value or throws / emits an error. */
  datatype Result<+R, +E> = Success(value: R) | Failure(error: E)
}
