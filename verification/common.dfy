/** Failure-carrying values shared by every component of the model. */
module Common {

  /** A value that may be absent: Python's `None` where the source returns it. */
  datatype Option<+T> = None | Some(value: T)

  /** The exceptions the source raises. */
  datatype Error =
    | ValueError  // invalid length, empty or out-of-alphabet site/phrase, non-character, undecryptable vault
    | IndexError  // the first value of an empty class-count dictionary
    | KeyError    // a vault record without a "site" key reached by an update loop

  /** Either the value a source routine returns or the exception it raises. */
  datatype Result<+T> = Ok(value: T) | Err(error: Error)
}
