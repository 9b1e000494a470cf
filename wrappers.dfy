/** Option and Result values, for results that may be absent and for
    operations whose exception the model turns into a value. */
module Wrappers {

  datatype Option<+T> = None | Some(value: T)

  datatype Result<+R, +E> = Success(value: R) | Failure(error: E)
}
