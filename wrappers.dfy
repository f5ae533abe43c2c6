/** Option and Result: the error paths of the modelled functions. */
module Wrappers {

  datatype Option<+T> = None | Some(value: T)

  /** `Failure` stands for a raised exception, carrying what its message reports. */
  datatype Result<+R, +E> = Success(value: R) | Failure(error: E)
}
