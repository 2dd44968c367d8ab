/** Results that may be missing or an error. */
module Wrappers {
  datatype Option<T> = Some(value: T) | None

  datatype Result<T> = Ok(value: T) | Error
}
