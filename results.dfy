/**
 * Error values and the Option/Result wrappers the pipeline uses in place of
 * Go's `(value, error)` return pairs.
 */
module Results {

  /** An opaque Go `error`: every stage passes the error it receives on unchanged. */
  datatype Error = Error(message: string)

  datatype Option<+T> = None | Some(value: T)

  datatype Result<+T> = Ok(value: T) | Err(error: Error)
}
