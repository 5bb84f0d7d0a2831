/** Option and Result, the two failure-carrying datatypes the model uses for
    JavaScript's `null` results and thrown errors. */
module Wrappers {

  /** A value or its absence (JavaScript `null`). */
  datatype Option<+T> = None | Some(value: T)

  /** A value, or the error a JavaScript function would have thrown. */
  datatype Result<+T, +E> = Ok(value: T) | Err(error: E)
}
