/** Option and Result, the values Java expresses with null, Optional and exceptions. */
module Wrappers {

  /** A value that may be absent: a Java reference that may be null, or an Optional. */
  datatype Option<+T> = None | Some(value: T) {
    function GetOr(default: T): T {
      match this
      case Some(v) => v
      case None => default
    }
  }

  /** The outcome of an operation that either returns a value or throws an exception. */
  datatype Result<+T, +E> = Ok(value: T) | Err(error: E)
}
