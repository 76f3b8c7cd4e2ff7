/** Option and Result values for the pipeline's absent values and error paths. */
module Wrappers {

  datatype Option<T> = None | Some(value: T)

  /** The outcome of an operation that in the program may raise or return None. */
  datatype Result<T, E> = Ok(value: T) | Err(error: E)
}
