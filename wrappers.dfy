/** Failure-compatible wrappers shared by the table read path and the aggregator. */
module Wrappers {

  /** An optional value: `None` stands for SQL NULL, an absent key or an exhausted scan. */
  datatype Option<+T> = None | Some(value: T)

  /** The outcome of an operation that can fail with an error of type `E`. */
  datatype Result<+T, +E> = Ok(value: T) | Err(error: E)
}
