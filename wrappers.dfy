/** Failure-carrying results and the error conditions the alert core can raise. */
module Wrappers {

  /** The exceptions the modelled Python code can raise, one constructor per kind. */
  datatype Error =
    | MalformedField   // int() of an interval field that is neither "*" nor an integer
    | InvalidDate      // datetime(...) or datetime.replace(...) given a component out of its range
    | DateOverflow     // OverflowError: datetime + timedelta leaving the years 1..9999, or a
                       // datetime(...) or replace(...) argument beyond the C int range
    | ZeroDivision     // a percentage of a zero-byte cap
    | MissingKey       // a dictionary lookup of an absent key
    | EmptyList        // index 0 of an empty list
    | AssertionFailed  // a failing assert statement

  datatype Result<+T> = Ok(value: T) | Err(error: Error) {
    predicate IsFailure() { Err? }

    function PropagateFailure<U>(): Result<U>
      requires Err?
    {
      Err(error)
    }

    function Extract(): T
      requires Ok?
    {
      value
    }
  }

  /** A value that may be absent, as a SQL NULL read into Python's None. */
  datatype Option<+T> = None | Some(value: T)

  /** The outcome of a step that returns nothing: it completes, or raises. */
  datatype Outcome = Pass | Fail(error: Error)

  /**
   * The right-hand operand of a Python comparison operator: a value of the
   * class being compared, or an object of some other class (for which the
   * source's `isinstance` test answers no).
   */
  datatype Operand<+T> = Same(value: T) | Foreign
}
