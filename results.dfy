/** The outcome of a step that either yields a value or raises. */
module Results {

  /** `Failure` carries what the raised exception would carry (the missing key of a KeyError). */
  datatype Result<+T, +E> = Success(value: T) | Failure(error: E)

  /** Optional input, such as a file that may be absent. */
  datatype Option<+T> = None | Some(value: T)
}
