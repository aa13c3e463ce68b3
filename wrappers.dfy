/** Option and Result: a missing spreadsheet cell, a parse that fails, an exception the pipeline raises. */
module Wrappers {

  datatype Option<+T> = None | Some(value: T)

  datatype Result<+T, +E> = Ok(value: T) | Err(error: E)
}
