/** Option and Result: absent values and the exceptions of the pipeline. */
module Results {

  /** Python's `x | None`: a value that may be missing. */
  datatype Option<+T> = None | Some(value: T) {
    function GetOr(default: T): T
    {
      match this
      case Some(v) => v
      case None => default
    }
  }

  /** Either a normal return or the exception that was raised. */
  datatype Result<+R, +E> = Success(value: R) | Failure(error: E)
}
