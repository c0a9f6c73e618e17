/** Failure-carrying datatypes shared by the scraper model. */
module Wrappers {

  /** A value that may be absent: a lookup that found no element, an attribute that is not set. */
  datatype Option<+T> = None | Some(value: T) {

    /** The wrapped value, or `default` when there is none. */
    function GetOr(default: T): T {
      match this
      case Some(v) => v
      case None => default
    }
  }

  /** Either a computed value or the error that stopped the computation. */
  datatype Result<+R, +E> = Success(value: R) | Failure(error: E)
}
