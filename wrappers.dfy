/** Failure-carrying result types shared by the other modules. */
module Wrappers {

  /** A value that may be absent (the source's `Option`). */
  datatype Option<+T> = None | Some(value: T)

  /** A value or an error (the source's `Result<T, String>`, with the
      message replaced by a tag that carries the data formatted into it). */
  datatype Result<+T, +E> = Ok(value: T) | Err(error: E)
}
