/** Optional values and error-or-value results, standing for Go's `nil`-able
    values and its `(value, error)` return pairs. */
module Outcomes {

  datatype Option<+T> = None | Some(value: T)

  datatype Result<+T, +E> = Ok(value: T) | Err(error: E)
}
