/** Absent-or-present values and value-or-error results, standing in for Go's
    nil slices and for the (value, error) result pairs of the qp package. */
module Wrappers {

  /** A value that may be absent (Go: a nil slice or map). */
  datatype Option<+T> = None | Some(value: T)

  /** A value or an error (Go: a (value, error) pair where exactly one is non-nil). */
  datatype Result<+R, +E> = Success(value: R) | Failure(error: E)
}
