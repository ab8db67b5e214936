/** Option and Result, the two wrappers the model uses for missing values and failures. */
module Wrappers {

  /** `None` stands for a missing value (pandas' NaN). */
  datatype Option<+T> = None | Some(value: T)

  /** A computation that either produced a value or stopped with an error. */
  datatype Result<+T, +E> = Ok(value: T) | Err(error: E)
}
