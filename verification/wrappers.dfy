/** Failure-carrying values used across the model in place of Python's
    `None` and raised exceptions. */
module Wrappers {

  datatype Option<+T> = None | Some(value: T)

  datatype Result<+T, +E> = Success(value: T) | Failure(error: E)

  /** Python truthiness of an optional attribute value: present and non-empty. */
  predicate Present(o: Option<string>) {
    o.Some? && o.value != ""
  }
}
