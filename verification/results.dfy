/** Failure-carrying values shared by the decoder and the indexer: the Java
    code signals absence with flags and failure with exceptions; the model
    returns these instead. */
module Results {

  /** An optional value: an argument that may be absent from a line. */
  datatype Option<+T> = None | Some(value: T)

  /** The outcome of an operation that the Java code can abort with an exception. */
  datatype Result<+T, +E> = Ok(value: T) | Err(error: E)
}
