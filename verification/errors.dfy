/** The failures an evaluation can end in, and the result type that carries them. */
module Errors {

  /** The source raises one exception type that differs only by its message; each
      message becomes a variant here. `Overflow` stands for a signed 64-bit overflow,
      which is undefined behaviour in the source and is surfaced as an error instead. */
  datatype Error =
    | KeyNotFound(name: string)
    | DivisionByZero
    | TypeMismatch
    | UnsupportedOp
    | Overflow

  /** Either a value or the error that aborted the computation; usable with `:-`. */
  datatype Result<+T> = Ok(value: T) | Err(error: Error) {

    predicate IsFailure() {
      Err?
    }

    function PropagateFailure<U>(): Result<U>
      requires Err?
    {
      Err(error)
    }

    function Extract(): T
      requires Ok?
    {
      value
    }
  }
}
