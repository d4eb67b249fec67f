/** Failure-carrying wrappers: Java's null references and thrown exceptions. */
module Std {

  /** A value that may be absent; stands for a Java reference that may be null. */
  datatype Option<+T> = None | Some(value: T) {

    predicate IsFailure() {
      None?
    }

    function PropagateFailure<U>(): Option<U>
      requires None?
    {
      None
    }

    function Extract(): T
      requires Some?
    {
      value
    }

    /** The wrapped value, or `default` when absent. */
    function GetOr(default: T): T {
      match this
      case Some(v) => v
      case None => default
    }
  }

  /** The Java exceptions the modelled code lets escape. */
  datatype JavaError =
    | NullPointer
    | IndexOutOfBounds
    | NumberFormat
    | UnsupportedOperation

  /** Either a computed value or the exception a Java method would throw. */
  datatype Result<+T> = Ok(value: T) | Err(error: JavaError) {

    predicate IsFailure() {
      Err?
    }

    function PropagateFailure<U>(): Result<U>
      requires Err?
    {
      Err(error)
    }

    function Extract(): T
      requires Ok?
    {
      value
    }
  }
}
