/** Option and Result, the two failure-compatible wrappers the model uses in place
    of Java's null and Java's exceptions. */
module Wrappers {

  /** A possibly absent value: None stands for a Java null. */
  datatype Option<+T> = None | Some(value: T)

  /** A value or the exception that prevented it. */
  datatype Result<+R, +E> = Success(value: R) | Failure(error: E) {

    predicate IsFailure() {
      Failure?
    }

    function PropagateFailure<U>(): Result<U, E>
      requires Failure?
    {
      Failure(error)
    }

    function Extract(): R
      requires Success?
    {
      value
    }
  }
}

/** The exceptions the parser can raise, as values. */
module Errors {

  /** Why a URI was refused (the IllegalArgumentException messages). */
  datatype Reason = NoBucket | NoHostname | NotAnEndpoint

  datatype Error =
    | InvalidUri(reason: Reason)  // IllegalArgumentException
    | InvalidEscape               // IllegalStateException from the percent-decoder
    | IndexOutOfBounds            // StringIndexOutOfBoundsException from String.substring
}
