/** Option and Result, used for JavaScript's `undefined` and for the TypeErrors the
    formatter can throw. */
module Wrappers {

  datatype Option<+T> = None | Some(value: T)

  datatype Result<+T, +E> = Success(value: T) | Failure(error: E)
}
