/** Optional values, and results that may be errors. */
module Wrappers {
  datatype Option<+T> = None | Some(value: T)

  /** Python's truth value of an optional text. */
  predicate Truthy(s: Option<string>) {
    s.Some? && s.value != ""
  }

  datatype Result<+T, +E> = Ok(value: T) | Err(error: E)
}
