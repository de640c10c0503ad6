/** Failure-compatible wrappers used by the model: an optional value (a cell a
    pandas outer merge leaves empty) and a result that is either a value or an
    error (a computation Python would abort with an exception). */
module Wrappers {

  datatype Option<+T> = None | Some(value: T)

  datatype Result<+R, +E> = Success(value: R) | Failure(error: E)
}
