/**
 * Error and result types shared by the OTP engines and the replay store.
 * `AppError` mirrors the application's two error kinds (src/error.rs); the
 * engines only ever produce the internal kind.
 */
module Error {

  /** Rust's `Result<T, E>`. */
  datatype Result<+T, +E> = Ok(value: T) | Err(error: E)

  /** The application error: an internal defect or a malformed request. */
  datatype AppError = Internal(message: string) | Validation(message: string)
}
