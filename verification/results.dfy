/** Failure-carrying values used across the model: a value that may be absent
    (a missing dictionary key, a file that does not exist yet) and the outcome
    of an operation that the Python code ends by raising an exception. */
module Results {

  datatype Option<+T> = None | Some(value: T) {

    /** The value, or `default` when absent (Python's `dict.get(key, default)`). */
    function GetOr(default: T): (r: T)
      ensures Some? ==> r == value
      ensures None? ==> r == default
    {
      match this
      case Some(v) => v
      case None => default
    }
  }

  datatype Result<+R, +E> = Success(value: R) | Failure(error: E)
}
