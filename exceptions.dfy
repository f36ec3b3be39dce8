/** The standard library exceptions thrown by the minimiser and its expression
    front end, and the result type through which the model reports them. */
module Exceptions {

  /** std::invalid_argument, std::logic_error and std::out_of_range, each
      with the text passed to its constructor. */
  datatype Exception =
    | InvalidArgument(what: string)
    | LogicError(what: string)
    | OutOfRange(what: string)

  /** Either the value an operation returns or the exception it throws. */
  datatype Result<T> = Success(value: T) | Failure(error: Exception)
}
