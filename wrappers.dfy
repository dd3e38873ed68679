/** Option and Result, used for JavaScript's null/undefined results and thrown errors. */
module Wrappers {

  /** A value that may be absent (`null` or `undefined` in JavaScript). */
  datatype Option<+T> = None | Some(value: T)

  /** A computation that either yields a value or throws an error. */
  datatype Result<+T, +E> = Ok(value: T) | Err(error: E)
}
