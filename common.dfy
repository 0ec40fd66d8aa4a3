// Optional values and results shared by every module of the model.
module Common {

  datatype Option<+T> = None | Some(value: T)

  /** The outcome of a validation chain: the validated data, or the first
      check that failed. */
  datatype Result<+T, +E> = Success(value: T) | Failure(error: E)
}
