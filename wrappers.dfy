/** `Option` and `Result` datatypes: `Option` for "maybe absent", `Result` for a Python call that either
    returns a value or raises. */
module Wrappers {

  datatype Option<+T> = None | Some(value: T)

  datatype Result<+T, +E> = Success(value: T) | Failure(error: E)
}
