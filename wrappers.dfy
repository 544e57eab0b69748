/** Option and Result values used for optional query parameters and for
    handler outcomes that the source signals by an exception or a 404. */
module Wrappers {

  datatype Option<+T> = None | Some(value: T)

  datatype Result<+R, +E> = Success(value: R) | Failure(error: E)
}
