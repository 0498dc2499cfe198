/** Failure-carrying datatypes shared by the model of the image pipeline. */
module Results {

  /** An optional value: the model of Go's `(value, ok)` and `(value, err)` pairs
      when only the success of the call matters. */
  datatype Option<+T> = None | Some(value: T)

  /** A value or an error; Go's `(value, error)` return pair. */
  datatype Result<+R, +E> = Success(value: R) | Failure(error: E)
}
