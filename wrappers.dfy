/** Option and Result values shared by the authentication and discovery models. */
module Wrappers {

  datatype Option<+T> = None | Some(value: T)

  /** The outcome of an API call: a value, or the error the call raises. */
  datatype Result<+R, +E> = Success(value: R) | Failure(error: E)
}
