/** Failure-compatible wrappers shared by the whole model. */
module Results {

  /** Python's `None` or a value. */
  datatype Option<+T> = None | Some(value: T)

  /** What ends an operation early: a call to `sys.exit(code)`, or a Python
      exception that nothing catches. */
  datatype Failure =
    | Exit(code: int)
    | UnboundLocal(name: string)
    | IndexError
    | KeyError(key: string)
    | TypeError

  /** The outcome of an operation that may fail; usable with `:-`. */
  datatype Result<+T> = Ok(value: T) | Err(failure: Failure) {

    predicate IsFailure() {
      Err?
    }

    function PropagateFailure<U>(): Result<U>
      requires Err?
    {
      Err(failure)
    }

    function Extract(): T
      requires Ok?
    {
      value
    }
  }
}
