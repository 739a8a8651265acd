/** Small value types shared by every module of the voice backend model. */
module Common {

  /** Python's `Optional[T]`: `None` or a present value. */
  datatype Option<+T> = None | Some(value: T)

  /** An HTTP error raised by a handler (`HTTPException(status_code, detail)`). */
  datatype HttpError = HttpError(status: int, detail: string)

  /** A handler either returns a value or raises an `HTTPException`. */
  datatype Result<+T> = Ok(value: T) | Err(error: HttpError)

  /** One byte of an audio payload. */
  newtype byte = x: int | 0 <= x < 256
}
