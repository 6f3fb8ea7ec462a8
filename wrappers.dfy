/** Option and Result, used wherever the compile stage can raise an exception. */
module Wrappers {

  datatype Option<+T> = None | Some(value: T)

  /** Err carries the kind of Python exception the original raises at that point. */
  datatype Result<+T> = Ok(value: T) | Err(error: string)
}
