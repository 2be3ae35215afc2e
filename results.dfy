/** Optional values and the error outcomes of the operations (a thrown `Error` or a rejected promise). */
module Results {

  /** A JavaScript value that may be `undefined`/`null`, or a query that may find nothing. */
  datatype Option<+T> = None | Some(value: T)

  /** The outcome of an operation that may throw: `Err` carries the message of the thrown error. */
  datatype Result<+T> = Ok(value: T) | Err(message: string)
}
