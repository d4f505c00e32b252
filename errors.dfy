/** Optional values, and the .NET exceptions of the library as the error side of a result. */
module Errors {

  datatype Option<T> = None | Some(value: T)

  /** The exception types the library throws, by .NET name. */
  datatype Exception =
    | ArgumentNull
    | Argument
    | ArgumentOutOfRange
    | IndexOutOfRange
    | InvalidOperation
    | InvalidData
    | NotSupported
    | ObjectDisposed
    | DataMisaligned
    | TreeKeyExists
    | KeyNotFound
    | NullReference
    | Overflow
    | Generic
    /** Not an exception: the source's loop never ends on this input. */
    | NonTermination

  /** Either the value an operation returns or the exception it throws. */
  datatype Result<T> = Ok(value: T) | Err(error: Exception) {
    predicate IsFailure() { Err? }

    function PropagateFailure<U>(): Result<U>
      requires Err?
    {
      Err(error)
    }

    function Extract(): T
      requires Ok?
    {
      value
    }
  }

  /** The outcome of an operation that returns nothing. */
  datatype Status = Done | Fail(error: Exception) {
    predicate IsFailure() { Fail? }

    function PropagateFailure(): Status
      requires Fail?
    {
      this
    }
  }
}
