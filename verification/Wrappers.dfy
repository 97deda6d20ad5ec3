/** Stock result types shared by the other modules. */
module Wrappers {

  /** A column that may be NULL, or a pointer that may be nil. */
  datatype Option<+T> = None | Some(value: T) {
    function GetOr(default: T): T {
      match this
      case Some(v) => v
      case None => default
    }
  }

  /** A Go `(value, error)` pair whose error is not inspected further. */
  datatype Result<+T> = Success(value: T) | Failure
}
