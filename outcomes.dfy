/** Failure values of the hydrograph pipeline.  Each constructor stands for one
    way in which the Python code raises instead of returning. */
module Outcomes {

  datatype Error =
    | InvalidDate        // strptime or int() rejects a string (ValueError)
    | DateOverflow       // date arithmetic leaves the years 1..9999 (OverflowError)
    | SourceFailure      // the remote data source raised
    | EmptySeries        // min()/max() of an empty column, or unpacking an empty zip (ValueError)
    | IndexOutOfRange    // a positional read past the end of a list or a column (IndexError)
    | SubstringNotFound  // str.index found no occurrence (ValueError)
    | MissingValue       // an attribute that is still None is used (TypeError)
    | ShapeMismatch      // numpy is given x and y values of different lengths (TypeError)

  /** A value that may be Python's None. */
  datatype Option<+T> = None | Some(value: T)

  /** The value of a computation that may raise. */
  datatype Result<+T> = Ok(value: T) | Err(error: Error) {
    predicate IsFailure() { Err? }

    function PropagateFailure<U>(): Result<U>
      requires Err?
    {
      Err(error)
    }

    function Extract(): T
      requires Ok?
    {
      value
    }
  }

  /** The outcome of a step that returns nothing but may raise. */
  datatype Outcome = Pass | Fail(error: Error) {
    predicate IsFailure() { Fail? }

    function PropagateFailure(): Outcome
      requires Fail?
    {
      this
    }
  }
}
