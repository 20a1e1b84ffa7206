/** Failure-compatible result types shared by every module of the model. */
module Wrappers {

  /** An optional value; PHP's `null` becomes `None`. */
  datatype Option<+T> = None | Some(value: T) {

    /** Returns the value carried by Some, or `default` when None. */
    function GetOr(default: T): T
    {
      match this
      case Some(v) => v
      case None => default
    }
  }

  /** The outcome of an operation that can be rejected; PHP exceptions become `Err`. */
  datatype Result<+T, +E> = Ok(value: T) | Err(error: E)
}
