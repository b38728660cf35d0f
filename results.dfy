/** Optional values (the source's `null`/`undefined`) and the outcome of an operation that may throw. */
module Results {

  /** A value that may be absent, where the source returns or accepts `null` or `undefined`. */
  datatype Option<+T> = None | Some(value: T)

  /** Either the value an operation returns or the message of the `Error` it throws. */
  datatype Result<+T> = Ok(value: T) | Err(message: string)
}
