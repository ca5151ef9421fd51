/** Failure-carrying wrappers shared by the badge generator model. */
module Common {

  /** A value that may be absent: an unset command-line option, an unknown key. */
  datatype Option<+T> = None | Some(value: T)

  /** Either a computed value or the reason it could not be computed. */
  datatype Result<+R, +E> = Success(value: R) | Failure(error: E)

  function Min(a: int, b: int): int
  {
    if a <= b then a else b
  }
}
