/** The Rust `Option` and `Result` types. */
module Wrappers {

  datatype Option<+T> = None | Some(value: T)

  datatype Result<+T, +E> = Ok(value: T) | Err(error: E)

  /** The `std::io::ErrorKind`s that the modelled code produces or forwards. */
  datatype IoErrorKind = InvalidInput | InvalidData | OutOfMemory | UnexpectedEof | Other
}
