/** Failure-compatible result type and the Java exceptions of the query element as values. */
module Wrappers {

  datatype Option<+T> = None | Some(value: T)

  /** The unchecked exceptions the element lets escape, one constructor per kind. */
  datatype Error =
    | NullPointer       // NullPointerException
    | ClassCast         // ClassCastException
    | IndexOutOfBounds  // StringIndexOutOfBoundsException / ArrayIndexOutOfBoundsException
    | NoSuchField       // NoSuchFieldException thrown by a composite object

  datatype Result<+T> = Ok(value: T) | Err(error: Error) {

    predicate IsFailure() {
      Err?
    }

    function PropagateFailure<U>(): Result<U>
      requires Err?
    {
      Err(error)
    }

    function Extract(): T
      requires Ok?
    {
      value
    }
  }
}
