/** The three error kinds the library throws (ZXWriterError), and the
    wrappers used for throwing and optional results. */
module Errors {
  datatype ZXError = InvalidFormat | IllegalArgument | Unspecified

  /** The outcome of a throwing Swift function. */
  datatype Result<T> = Ok(value: T) | Err(error: ZXError)

  /** Swift's optional. */
  datatype Option<T> = None | Some(value: T)
}
