/** Wrappers shared by the whole model: an optional value (the source's
    nullable `DateTime?`) and a result that is either a value or the exception
    the source would throw. */
module Wrappers {

  datatype Option<+T> = None | Some(value: T)

  datatype Result<+R, +E> = Success(value: R) | Failure(error: E)
}
