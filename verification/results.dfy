/** Failure-carrying values shared by the codec and the event model. */
module Results {

  /** An optional value: the model's stand-in for Swift's `T?`. */
  datatype Option<+T> = None | Some(value: T)

  /** Either a value or the error that prevented computing it. */
  datatype Result<+T, +E> = Ok(value: T) | Err(error: E)
}
