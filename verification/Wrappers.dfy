/** The usual option and result types, used where the Python code returns `None` or raises. */
module Wrappers {

  datatype Option<+T> = None | Some(value: T) {

    function GetOr(default: T): T {
      match this
      case Some(v) => v
      case None => default
    }

    /** The SQL `COALESCE(this, other)`; also Python's `this or other` on an optional value. */
    function OrElse(other: Option<T>): Option<T> {
      if Some? then this else other
    }
  }

  datatype Result<+T, +E> = Success(value: T) | Failure(error: E)
}
