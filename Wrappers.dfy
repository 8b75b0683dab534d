/** Option and Result, the two failure-carrying datatypes the model uses. */
module Wrappers {

  /** A value that may be missing: a nullable column, an absent form field. */
  datatype Option<+T> = None | Some(value: T) {

    /** The value, or `default` when it is missing (a column default). */
    function GetOr(default: T): T {
      match this
      case Some(v) => v
      case None => default
    }
  }

  /** Either a value or the error that the source raises instead. */
  datatype Result<+R, +E> = Success(value: R) | Failure(error: E)
}
