/**
 The two small wrappers the rest of the model uses: `Option` stands for a
 JavaScript value that may be `null` or `undefined`, and `Result` for a
 computation that either returns a value or throws an `Error` with a message.
 */
module Options {

  datatype Option<+T> = None | Some(value: T) {

    /** The value, or `default` when it is missing (JavaScript's `x || default`
        for a value that is either missing or present). */
    function GetOr(default: T): T {
      match this
      case Some(v) => v
      case None => default
    }
  }

  datatype Result<+T> = Ok(value: T) | Err(message: string)
}
