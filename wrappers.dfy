/** Results of operations that may throw in the original program: a thrown C++ exception
    becomes a failure value carrying the exception's class and its what() text. */
module Wrappers {

  /** The standard exception classes the program throws or lets escape. */
  datatype Exception =
    | OutOfRange(what: string)       // std::out_of_range
    | InvalidArgument(what: string)  // std::invalid_argument
    | RuntimeError(what: string)     // std::runtime_error

  /** A value, or the exception raised instead of returning one. */
  datatype Result<+T> = Success(value: T) | Failure(error: Exception) {
    predicate IsFailure() {
      Failure?
    }

    function PropagateFailure<U>(): Result<U>
      requires Failure?
    {
      Failure(error)
    }

    function Extract(): T
      requires Success?
    {
      value
    }
  }

  /** Completion of a void operation: it returned normally, or it threw. */
  datatype Outcome = Pass | Fail(error: Exception)

  datatype Option<+T> = None | Some(value: T)
}
