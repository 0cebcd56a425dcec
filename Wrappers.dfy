/** Option and Result: the error paths of the modelled code (a thrown exception, a missing value). */
module Wrappers {

  datatype Option<+T> = None | Some(value: T)

  datatype Result<+R, +E> = Success(value: R) | Failure(error: E)
}
