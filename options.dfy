/** Option and Result values for the lookups that may miss and the handler that may fail. */
module Options {

  datatype Option<+T> = None | Some(value: T)

  datatype Result<+R, +E> = Success(value: R) | Failure(error: E)
}
