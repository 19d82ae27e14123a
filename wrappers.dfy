/** Option and Result, used for Ruby's nil and for raised exceptions. */
module Wrappers {

  datatype Option<+T> = None | Some(value: T)

  /** `Failure(e)` stands for `raise e`; `Success(v)` for a normal return of `v`. */
  datatype Result<+T, +E> = Success(value: T) | Failure(error: E)
}
