/** Option and Result, the two ways the model returns "maybe nothing" and
    "a value or the exception the Python code would raise". */
module Wrappers {

  datatype Option<+T> = None | Some(value: T)

  datatype Result<+T, +E> = Ok(value: T) | Err(error: E)
}
