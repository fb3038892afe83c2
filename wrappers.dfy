/** Failure-compatible result types used by every codec in the model. */
module Wrappers {

  /** A value that may be absent (Rust `Option<T>`, C# nullable). */
  datatype Option<+T> = None | Some(value: T) {
    predicate IsFailure() { None? }

    function PropagateFailure<U>(): Option<U>
      requires None?
    {
      None
    }

    function Extract(): T
      requires Some?
    {
      value
    }
  }

  /** Either a value or a typed error (Rust `Result<T, E>`, a C# method that returns or throws). */
  datatype Result<+T, +E> = Ok(value: T) | Err(error: E) {
    predicate IsFailure() { Err? }

    function PropagateFailure<U>(): Result<U, E>
      requires Err?
    {
      Err(error)
    }

    function Extract(): T
      requires Ok?
    {
      value
    }
  }

  /** A value read from a byte buffer together with the position just after it. */
  datatype Parsed<+T> = Parsed(value: T, next: nat)

  /** What a reader method reports, seen as a parse result: its value and the reader's new position. */
  function Track<T, E>(r: Result<T, E>, pos: nat): Result<Parsed<T>, E> {
    match r
    case Ok(v) => Ok(Parsed(v, pos))
    case Err(e) => Err(e)
  }
}
