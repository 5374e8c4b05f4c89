/** Small wrapper types shared by every module of the model. */
module Common {

  /** A value that may be absent: a C# `null` / `T?`, or a JavaScript `null`/`undefined`. */
  datatype Option<+T> = None | Some(value: T)

  /** The outcome of an operation that can fail with an error message (a thrown `Error`). */
  datatype Result<+T> = Ok(value: T) | Err(message: string)
}
