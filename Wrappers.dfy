/** Option and Result, the two failure-carrying datatypes the model uses.
    `None` stands for JavaScript's NaN / a missing value; `Failure` for the
    error status a handler shows before it returns. */
module Wrappers {

  datatype Option<+T> = None | Some(value: T)

  datatype Result<+R, +E> = Success(value: R) | Failure(error: E)
}
