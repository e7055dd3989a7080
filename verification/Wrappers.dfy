// The two result shapes the models share: an optional value, and a value or a
// typed refusal.
module Wrappers {
  datatype Option<+T> = None | Some(value: T)

  datatype Result<+T, +E> = Ok(value: T) | Err(error: E)
}
