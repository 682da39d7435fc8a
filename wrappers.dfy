/** Failure-compatible wrappers shared by the model: Go's `(value, error)`
    pairs become `Result`, a nilable `error` becomes `Option<Error>`. */
module Wrappers {

  datatype Option<+T> = None | Some(value: T)

  datatype Result<+R, +E> = Success(value: R) | Failure(error: E)
}
