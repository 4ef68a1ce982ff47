/** Shared value types: bytes, optional values and results with an error message. */
module Base {

  /** One octet of a file's contents. */
  newtype byte = x: int | 0 <= x < 256

  /** The contents of a file, or the body of an HTTP response read as an array buffer. */
  type Bytes = seq<byte>

  datatype Option<T> = None | Some(value: T)

  /** The outcome of an operation that can throw; `message` is the thrown error's `message`. */
  datatype Result<T> = Ok(value: T) | Err(message: string)
}
