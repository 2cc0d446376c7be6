/** Optional values and results with an error, standing in for std::optional and thrown exceptions. */
module Wrappers {

  datatype Option<+T> = None | Some(value: T)

  /** The exception classes the modelled code throws. */
  datatype Error = RuntimeError(what: string) | LogicError(what: string)

  datatype Result<+R> = Success(value: R) | Failure(error: Error)
}
