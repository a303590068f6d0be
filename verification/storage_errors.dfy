/**
 * The storage layer's error taxonomy and the result shapes of its operations.
 *
 * Go returns `(value, error)` pairs and compares errors against package-level
 * sentinel values with `errors.Is`. Here an operation returns a `Result` (a value
 * or an error) or an `Outcome` (nothing or an error), and a sentinel is a
 * constructor of `Error`, so `errors.Is(err, ErrBookNoFound)` reads
 * `err == BookNoFound`. Any error that is not one of the sentinels (an ad-hoc
 * `errors.New`, a failure of a library call, a backend failure) is `Other`; it
 * never equals a sentinel, whatever its message says.
 */
module StorageErrors {

  datatype Error =
    | BookAlredyExist
    | EmptyStorage
    | BookNoFound
    | UserAlredyExist
    | InvalidPassword
    | UserNoExist
    | Other(message: string)

  /** A value, or the error that prevented it. */
  datatype Result<T> = Ok(value: T) | Err(error: Error)

  /** Success, or the error that occurred (an operation returning only `error`). */
  datatype Outcome = Pass | Fail(error: Error)
}
