/** Failure-compatible result types shared by every stage of the compiler.

    The original reports every error by printing a diagnostic and calling
    `exit(1)`.  Here an error is a value: `Diag` is what would have been
    printed, and `Result` carries it up to the caller. */
module Wrappers {

  datatype Option<+T> = None | Some(value: T) {

    predicate IsFailure() {
      None?
    }

    function PropagateFailure<U>(): Option<U>
      requires None?
    {
      None
    }

    function Extract(): T
      requires Some?
    {
      value
    }
  }

  /** A fatal diagnostic.  `At` is anchored at a byte offset of the input, the
      column under which the caret is drawn (`error_at`, `error_tok`); `Fatal`
      carries no position (`error`). */
  datatype Diag = At(offset: nat, msg: string) | Fatal(msg: string)

  datatype Result<+T> = Ok(value: T) | Err(error: Diag) {

    predicate IsFailure() {
      Err?
    }

    function PropagateFailure<U>(): Result<U>
      requires Err?
    {
      Err(error)
    }

    function Extract(): T
      requires Ok?
    {
      value
    }
  }
}
