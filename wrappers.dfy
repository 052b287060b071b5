/** Failure-compatible result types shared by every module of the model.
    `JavaException` names the exceptions the modelled Java code throws, so an
    operation that can throw returns a `Result` instead of requiring the
    failure away. */
module Wrappers {

  datatype Option<+T> = None | Some(value: T)

  /** The exceptions raised by the modelled code. */
  datatype JavaException =
    | IllegalState            // java.lang.IllegalStateException
    | EmptyStack              // java.util.EmptyStackException
    | IndexOutOfBounds        // java.lang.IndexOutOfBoundsException and its String variant
    | NullPointer             // java.lang.NullPointerException
    | UnsupportedOperation    // java.lang.UnsupportedOperationException
    | MatrixAccess            // com.highbar.matrix.MatrixAccessException
    | Matrix                  // matrix.util.MatrixException, raised by the database
    | Arithmetic              // java.lang.ArithmeticException (division by zero)

  datatype Result<+T> = Ok(value: T) | Err(error: JavaException) {
    predicate IsFailure() { Err? }

    function PropagateFailure<U>(): Result<U>
      requires Err?
    {
      Err(error)
    }

    function Extract(): T
      requires Ok?
    {
      value
    }
  }

  /** The outcome of a `void` Java method that may throw. */
  datatype Outcome = Done | Thrown(error: JavaException)
}
