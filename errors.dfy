/** The ways a generation call can fail in this model, and the result type that carries them.
    Integer-width errors of the sampling step and the strategy code are not among them. */
module Errors {

  datatype Error =
    | OutOfBounds   // a window end lies outside the nanosecond timestamp range (OutOfBoundsDatetime)
    | Overflow      // adding one day to the last segment start leaves that range (OverflowError)
    | EmptyWindow   // no day segment at all, so the last segment end cannot be read (IndexError)
    | IdTooLong     // an identifier row is longer than 200 characters (ValueError on the row assignment)

  datatype Result<T> = Success(value: T) | Failure(error: Error)
}
