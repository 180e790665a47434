/** Option and Result values shared by the modules of this model. */
module Wrappers {

  /** A value that may be absent: Java's null, JavaScript's null/undefined. */
  datatype Option<T> = None | Some(value: T) {
    function GetOr(default: T): T {
      match this
      case Some(v) => v
      case None => default
    }
  }

  /** The outcome of an operation that either returns a value or fails with an error. */
  datatype Result<T, E> = Ok(value: T) | Err(error: E)
}
