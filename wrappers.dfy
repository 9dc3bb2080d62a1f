/** Option and Result: the failure-carrying values used for Python's None,
    exceptions and error responses throughout the model. */
module Wrappers {

  datatype Option<+T> = None | Some(value: T)

  datatype Result<+T, +E> = Ok(value: T) | Err(error: E)
}
