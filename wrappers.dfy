/** Failure-carrying values and the path type shared by the other modules. */
module Wrappers {

  /** A file-system path, as std's `Path`/`PathBuf`; only its text matters to the model. */
  type Path = string

  datatype Option<T> = None | Some(value: T)

  /** The outcome of an operation that can fail, as Rust's `Result<T, E>`. */
  datatype Result<T, E> = Ok(value: T) | Err(error: E)
}
