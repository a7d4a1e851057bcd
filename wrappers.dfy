/** Result types shared by the modules of this model. */
module Wrappers {

  /** A value that may be missing: the model of a Java reference that may be null. */
  datatype Option<+T> = None | Some(value: T) {

    /** The value, or `default` when there is none. */
    function GetOr(default: T): T {
      match this
      case Some(v) => v
      case None => default
    }
  }

  /** The outcome of an operation that returns nothing but may throw. */
  datatype Outcome<+E> = Pass | Fail(error: E)

  /** The outcome of an operation that returns a value but may throw. */
  datatype Result<+T, +E> = Ok(value: T) | Err(error: E)
}
