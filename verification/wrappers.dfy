/** Failure-carrying datatypes shared by the whole model.
    `Option` stands for a Python value that may be `None` (a regex search that
    did not match, a JSON field left `null`); `Result` stands for a computation
    that may raise. */
module Wrappers {

  datatype Option<+T> = None | Some(value: T)
  {
    /** The value, or `default` when there is none. */
    function GetOr(default: T): T
    {
      match this
      case Some(v) => v
      case None => default
    }
  }

  datatype Result<+R, +E> = Success(value: R) | Failure(error: E)

}
