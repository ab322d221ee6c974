/** Option and Result, shared by the other modules. */
module Wrappers {

  /** A value that may be absent; `None` also stands for SQL NULL and Python's `None`. */
  datatype Option<T> = None | Some(value: T)

  /** The outcome of an operation that raises `E` instead of returning. */
  datatype Result<T, E> = Ok(value: T) | Err(error: E)
}
