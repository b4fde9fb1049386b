/** Failure-carrying values shared by every module of the model. */
module Wrappers {

  /** An optional value: a search that may not finish, a type that may not resolve. */
  datatype Option<+T> = None | Some(value: T)

  /** A value or an error message: the model's stand-in for a thrown exception. */
  datatype Result<+R> = Ok(value: R) | Err(message: string)

  function Min(a: int, b: int): (m: int)
    ensures m <= a && m <= b
    ensures m == a || m == b
  {
    if a <= b then a else b
  }
}
