/**
  Failure-carrying values shared by the whole model.

  - `Option` stands for a .NET reference that may be `null`.
  - `Result` stands for a call that either returns a value or throws an
    exception; the error side carries the exception's message.
 */
module Results {

  /** A value that may be absent (`null` in the program). */
  datatype Option<+T> = None | Some(value: T) {

    /** The `x ?? fallback` operator. */
    function GetOr(fallback: T): T
    {
      match this
      case Some(v) => v
      case None => fallback
    }
  }

  /** A call that returns `value`, or throws an exception whose message is `msg`. */
  datatype Result<+T> = Ok(value: T) | Err(msg: string)
}
