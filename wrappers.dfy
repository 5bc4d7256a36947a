/** Option and Result values used where the source returns null or throws. */
module Wrappers {

  /** A value that may be absent (the source's null or undefined). */
  datatype Option<+T> = None | Some(value: T) {
    function GetOr(default: T): T {
      match this
      case Some(v) => v
      case None => default
    }
  }

  /** The outcome of an operation that may throw: the thrown message is kept verbatim. */
  datatype Result<+T> = Ok(value: T) | Err(message: string) {
    predicate IsErr() { Err? }
  }
}
