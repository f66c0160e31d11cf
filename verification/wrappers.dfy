/** Failure-carrying values: the `null` that parseMedian returns and the
    exceptions the adapters throw become ordinary data. */
module Wrappers {

  datatype Option<+T> = None | Some(value: T)

  datatype Result<+T, +E> = Ok(value: T) | Err(error: E)
}
