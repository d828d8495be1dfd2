/** Error numbers and the three ways an operation of the time layer can end:
    with a value, with an error number, or with a Rust panic
    (`unwrap`, `expect`, `unreachable!`, an overflowing `Duration::new`). */
module Wrappers {

  /** The errno values the time layer produces or inspects; any other
      errno a collaborator might report is `Other`. */
  datatype Errno = EINVAL | EINTR | ETIMEDOUT | Other(code: nat)

  /** The crate's `Result<T>`: a value or an errno. */
  datatype Result<T> = Ok(value: T) | Err(errno: Errno)

  /** How a call ends: it returns a value, or the enclave thread panics. */
  datatype Outcome<T> = Returns(value: T) | Panics

  datatype Option<T> = None | Some(value: T)
}
