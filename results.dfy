/** Failure-carrying values shared by the modules of this model. */
module Results {

  /** A value that may be absent (a JavaScript `null` or `undefined`). */
  datatype Option<T> = None | Some(value: T)

  /** The outcome of an operation that may throw: its value, or the message
      of the error it threw. */
  datatype Result<T> = Success(value: T) | Failure(error: string)
}
