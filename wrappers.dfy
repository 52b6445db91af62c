/** Failure-compatible result types. A Java method that can throw
    `IllegalArgumentException` returns a `Result` here instead. */
module Wrappers {

  /** The one exception kind the library raises, with its message. */
  datatype Error = IllegalArgument(message: string)

  datatype Option<+T> = None | Some(value: T)

  datatype Result<+T> = Ok(value: T) | Err(error: Error) {

    predicate IsFailure() {
      Err?
    }

    function PropagateFailure<U>(): Result<U>
      requires Err?
    {
      Err(error)
    }

    function Extract(): T
      requires Ok?
    {
      value
    }
  }
}
