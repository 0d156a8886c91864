/** Values that stand for Java's null references and thrown exceptions. */
module Outcomes {

  /** A reference that may be null. */
  datatype Option<T> = None | Some(value: T)

  /** The unchecked exceptions that can escape a call in the modelled code. */
  datatype Fault =
    | NullPointer      // java.lang.NullPointerException
    | IllegalArgument  // java.lang.IllegalArgumentException

  /** The outcome of a Java call: a returned value or an exception that propagates. */
  datatype Result<T> = Ok(value: T) | Err(fault: Fault)
}
