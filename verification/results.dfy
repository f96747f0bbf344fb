/** Optional values, the exceptions the scheduler can raise, and a failure-compatible
    Result type so that `:-` propagates them the way Python propagates an exception. */
module Results {

  datatype Option<+T> = None | Some(value: T)

  /** The kinds of exception the modelled code can raise. Only the date resolver's own
      error and failed `assert` statements carry a message that callers can observe. */
  datatype Error =
    | InvalidDate(text: string)        // dates.InvalidDateError
    | ValueError                       // e.g. date.replace to a day that does not exist
    | KeyError                         // a dictionary lookup of a missing key
    | IndexError                       // indexing past the end of a list or string
    | TypeError                        // e.g. subscripting None
    | AttributeError                   // e.g. calling .split() on None
    | ZeroDivision                     // modulo by an empty list's length
    | NameError                        // a loop variable read before it was ever bound
    | AssertionError(message: string)  // a failed `assert`

  datatype Result<+T> = Success(value: T) | Failure(error: Error) {
    predicate IsFailure() { Failure? }

    function PropagateFailure<U>(): Result<U>
      requires Failure?
    {
      Failure(error)
    }

    function Extract(): T
      requires Success?
    {
      value
    }
  }
}
