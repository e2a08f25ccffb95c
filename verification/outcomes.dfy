/** Shared result shapes of the crate: Rust's Option and Result, one attempted line
    read, the error values the readers return, and the panics the crate can raise. */
module Outcomes {

  datatype Option<+T> = None | Some(value: T)

  datatype Result<+T, +E> = Ok(value: T) | Err(error: E)

  /** One item of a line iterator (`BufRead::lines` or `Stdin::read_line`): either the
      text that was read or an I/O error for that line. */
  datatype Line = Read(text: string) | Unreadable

  /** The two `io::ErrorKind::NotFound` errors of the `.env` reader, kept apart by their
      messages: a line that is not `name=value` ("Couldn't find the variable requested in
      the .env"), or no value at all ("There doesn't seem to be a variable in the .env"). */
  datatype FileError = RejectedLine | NoValue

  /** `std::env::VarError`, with `NotUnicode` folded into `NotPresent`. */
  datatype VarError = NotPresent

  /** The `io::Error` of a failed read from standard input. */
  datatype IoError = StdinFailed

  /** Why a call aborts the program instead of returning. */
  datatype PanicCause =
    | EnvFileOpenFailed                // `File::open(".env").unwrap()`
    | LoneQuote                        // `token.remove(0)` on the empty string
    | UnwrapFileError(file: FileError) // `.unwrap()` on the reader's `Err`
    | UnwrapVarError(env: VarError)    // `.unwrap()` on `std::env::var`'s `Err`
    | UnwrapIoError(io: IoError)       // `.unwrap()` on `read_line`'s `Err`

  /** A computation that either returns a value or panics. */
  datatype Run<+T> = Returns(value: T) | Panics(cause: PanicCause)
}
