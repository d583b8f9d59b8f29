/** Wrappers used throughout the model: an optional value (JavaScript
    `undefined`/`null` versus a value) and the outcome of a promise
    (resolved with a value or rejected with an error message). */
module Wrappers {

  datatype Option<+T> = None | Some(value: T)

  datatype Result<+T, +E> = Success(value: T) | Failure(error: E)
}
