/** Small helper datatypes shared by the other modules. */
module Wrappers {

  /** An optional value; `None` stands for Go's `nil` pointer results. */
  datatype Option<+T> = None | Some(value: T)

  /** A value or an error, for Go's `(value, error)` result pairs. */
  datatype Result<+T, +E> = Success(value: T) | Failure(error: E)
}
