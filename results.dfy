/** Outcomes of the pipeline: a value, or the exception that aborts the whole invocation. */
module Results {

  /** The two ways the pipeline can fail.
      ZeroDivision: `divmod` with a column count of zero.
      MissingTopRule: the `IndexError` raised when a block has no line equal to the top-rule marker. */
  datatype Error = ZeroDivision | MissingTopRule

  datatype Result<+T> = Ok(value: T) | Err(error: Error) {
    predicate IsFailure() {
      Err?
    }

    function PropagateFailure<U>(): Result<U>
      requires Err?
    {
      Err(error)
    }

    function Extract(): T
      requires Ok?
    {
      value
    }
  }

  datatype Option<+T> = None | Some(value: T)
}
