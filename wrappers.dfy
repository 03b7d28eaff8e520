/** Small failure-carrying datatypes used in place of Python's None and exceptions. */
module Wrappers {

  /** Python's `None` versus a present value. */
  datatype Option<+T> = None | Some(value: T)

  /** The outcome of an operation that either completes or raises. */
  datatype Outcome<+E> = Pass | Fail(error: E)

  /** A value, or the exception raised instead of producing it. */
  datatype Result<+T, +E> = Success(value: T) | Failure(error: E)
}

/** The Python exceptions the contact book can raise, with the data each one carries. */
module Exceptions {

  datatype Error =
    | ValueError(message: string)  // raised by Phone and Birthday validation
    | KeyError(key: string)        // raised by `del` on a missing dictionary key
    | NameError(name: string)      // raised when a global name was never bound
}
