/** Rust's `Option` and `Result`, plus the `std::io::Error` kinds the model
    distinguishes. */
module Results {

  datatype Option<+T> = None | Some(value: T)

  datatype Result<+T, +E> = Ok(value: T) | Err(error: E)

  /** The `std::io::ErrorKind` values that the modelled code produces or
      inspects. */
  datatype ErrorKind =
    | NotFound
    | PermissionDenied
    | AlreadyExists
    | IsADirectory
    | InvalidInput
    | UnexpectedEof
    | Other

  datatype IoError = IoError(kind: ErrorKind)
}
