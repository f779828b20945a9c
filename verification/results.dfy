/** Optional values and success/failure results. */
module Results {

  /** A value that may be absent (Python's `None`). */
  datatype Option<T> = None | Some(value: T) {

    /** The wrapped value, or `default` when absent. */
    function GetOr(default: T): T {
      if Some? then value else default
    }
  }

  /** The outcome of an operation that may raise: a value or an error. */
  datatype Result<T, E> = Success(value: T) | Failure(error: E)
}
