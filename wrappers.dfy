/** Optional values and failure results shared by the other modules. */
module Wrappers {

  /** Python's `None` or a value. */
  datatype Option<+T> = None | Some(value: T)

  /** A value or the exception that was raised instead. */
  datatype Result<+T, +E> = Ok(value: T) | Err(error: E) {
    /** Forgets the value. */
    function ToOutcome(): Outcome<E>
    {
      match this
      case Ok(_) => Pass
      case Err(e) => Fail(e)
    }
  }

  /** Normal completion, or the exception that was raised. */
  datatype Outcome<+E> = Pass | Fail(error: E)
}
