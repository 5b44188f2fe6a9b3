/** Small option and error-return types shared by the other modules. */
module Wrappers {

  /** A value that may be missing; `None` plays the role of JavaScript's `undefined`. */
  datatype Option<+T> = None | Some(value: T) {

    /** The wrapped value, or `default` when there is none. */
    function GetOr(default: T): T
    {
      match this
      case Some(v) => v
      case None => default
    }
  }

  /** The outcome of an operation that may throw: its value, or the thrown error's message. */
  datatype Checked<+T> = Ok(value: T) | Invalid(message: string)
}
