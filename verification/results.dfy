/** Optional values and fallible outcomes. A Python key that may be absent
    becomes an `Option`; a call that may raise becomes a `Result`. */
module Results {

  datatype Option<+T> = None | Some(value: T) {

    /** The wrapped value, or `default` when absent: Python's `d.get(key, default)`. */
    function GetOr(default: T): T {
      match this
      case Some(v) => v
      case None => default
    }
  }

  /** The outcome of a call that may raise; `error` keeps the exception's message. */
  datatype Result<+T> = Success(value: T) | Failure(error: string)
}
