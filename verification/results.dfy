/** Stand-ins for JavaScript's `undefined` and for a thrown error. */
module Results {

  /** A property that may have been left undefined. */
  datatype Option<T> = None | Some(value: T)

  /** Either the value computed or the error that would have been thrown. */
  datatype Result<T, E> = Success(value: T) | Failure(error: E)
}
