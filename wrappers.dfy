/** Option and Result values used by the models of the resolvers and helpers. */
module Wrappers {

  /** `None` stands for JavaScript's `null` and `undefined`. */
  datatype Option<+T> = None | Some(value: T)

  /** The value a helper returns, or the error it throws. */
  datatype Result<+R, +E> = Success(value: R) | Failure(error: E)
}
