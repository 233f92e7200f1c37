/** Failure-carrying result types used by the codec: the Python code raises
    exceptions (KeyError, TypeError, OverflowError); the model returns them. */
module Results {

  /** A value that may be absent. */
  datatype Option<+T> = None | Some(value: T)

  /** Either a value or the error the Python code would raise instead. */
  datatype Result<+T, +E> = Ok(value: T) | Err(error: E)
}
