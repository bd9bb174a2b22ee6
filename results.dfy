/** Outcomes of the operations: the exceptions the JavaScript code throws become Failure values. */
module Results {

  /** The errors the modelled code can raise. */
  datatype Error =
    | InvalidCharacterError  // DOMException thrown by btoa and atob
    | TypeError              // reading `join` of the null that `match` returns
    | InvalidUsage           // Error("Invalid usage type. Must be 'encryption' or 'signing'.")
    | ProviderError(reason: string)  // a rejection by the platform's crypto engine

  datatype Result<+T> = Success(value: T) | Failure(error: Error) {
    predicate IsFailure() { Failure? }

    function PropagateFailure<U>(): Result<U>
      requires Failure?
    {
      Failure(error)
    }

    function Extract(): T
      requires Success?
    {
      value
    }
  }

  datatype Option<+T> = None | Some(value: T)
}
