/** Option and Result, the failure-carrying wrappers used throughout the model.
    Go's `error` return value becomes `Option<Error>` (None is `nil`). */
module Results {

  datatype Option<+T> = None | Some(value: T)

  datatype Result<+T, +E> = Success(value: T) | Failure(error: E)
}
