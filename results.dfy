/** The error kinds a quantization run can end with, and the result wrappers used by every stage. */
module Results {

  /** DecodeError: malformed or truncated input container. EncodeError: a value the output format cannot hold. */
  datatype Error = DecodeError | EncodeError

  datatype Result<T> = Ok(value: T) | Err(error: Error)

  datatype Option<T> = None | Some(value: T)

  /** A value read from a byte stream, with the position of the stream cursor after the read. */
  datatype Read<T> = Read(value: T, next: nat)
}
