/** Value wrappers shared by the model: an optional value, and the outcome of a
    Python call that either returns a value or raises an exception. */
module Base {

  datatype Option<+T> = None | Some(value: T)

  /** The two families of exceptions the upload handler tells apart:
      `requests.RequestException` (and its subclasses) and every other exception.
      `msg` is what `str(exc)` yields. */
  datatype Exception =
    | RequestException(msg: string)
    | OtherException(msg: string)

  /** A Python call that returned `value` or raised `exc`. */
  datatype Result<+T> = Ok(value: T) | Raised(exc: Exception)
}
