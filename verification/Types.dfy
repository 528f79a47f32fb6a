/** The library's error codes. */
module Types {
  datatype Error =
    | OK
    | INVALID_ARGUMENT
    | BUFFER_TOO_SMALL
    | BAD_RECORD
    | BAD_HANDSHAKE
    | UNSUPPORTED
    | CRYPTO
    | VERIFY
    | IO
    | CLOSED

  type Failure = e: Error | e != OK witness IO

  datatype Result<T> = Ok(value: T) | Err(error: Failure)

  datatype Option<T> = None | Some(value: T)
}
