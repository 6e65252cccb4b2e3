/** Outcomes of the feed parser.

    The player is written in a language with null references and unchecked
    exceptions. A null string is modelled as `None`, and an exception that
    escapes an operation is modelled as `Err(fault)`, where the fault names
    the exception kind the source would raise at that point.
 */
module Results {

  /** The exception kinds the parsing core can raise. */
  datatype Fault =
    | IndexOutOfBounds  // a substring or charAt outside the string
    | NullDereference   // a method called on a null string
    | InvalidUri        // URI construction rejected its text
    | IllegalArgument   // an explicit argument check of the library

  /** A possibly-null value. */
  datatype Option<+T> = None | Some(value: T)

  /** Either a value or the fault that was raised instead. */
  datatype Result<+T> = Ok(value: T) | Err(fault: Fault) {

    predicate IsFailure() {
      Err?
    }

    function PropagateFailure<U>(): Result<U>
      requires Err?
    {
      Err(fault)
    }

    function Extract(): T
      requires Ok?
    {
      value
    }
  }
}
