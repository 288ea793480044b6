/** The Option and Result datatypes the model uses for null pointers and
    for the constructor's exception. */
module Wrappers {

  /** `None` stands for a null pointer or an absent JSON member. */
  datatype Option<+T> = None | Some(value: T) {

    /** The wrapped value, or `default` when there is none. */
    function GetOr(default: T): T
    {
      match this
      case Some(v) => v
      case None => default
    }
  }

  /** `Failure` stands for an exception thrown instead of a value. */
  datatype Result<+R, +E> = Success(value: R) | Failure(error: E)
}
