/** Wrappers used by the model: an optional value (a store
    lookup that may find nothing) and a result that is either a value or an
    error (an operation the source aborts with a panic). */
module Wrappers {

  datatype Option<+T> = None | Some(value: T) {

    /** The wrapped value, or `default` when there is none. */
    function GetOr(default: T): T {
      match this
      case Some(v) => v
      case None => default
    }
  }

  datatype Result<+R, +E> = Success(value: R) | Failure(error: E)
}
