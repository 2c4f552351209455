/** Failure-carrying return values: Go's `(value, error)` pairs and nil
    regex matches become `Result` and `Option` here. */
module Wrappers {

  /** A value that may be missing (a nil match, an absent JSON field). */
  datatype Option<+T> = None | Some(value: T) {

    /** The value, or `default` when missing. */
    function GetOr(default: T): T {
      match this
      case Some(v) => v
      case None => default
    }
  }

  /** A Go `(value, error)` pair where exactly one side is meaningful. */
  datatype Result<+R, +E> = Success(value: R) | Failure(error: E)
}
