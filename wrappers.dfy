/** Failure-carrying values shared by the modules of the model. */
module Wrappers {

  datatype Option<+T> = None | Some(value: T)

  datatype Result<+R, +E> = Success(value: R) | Failure(error: E)

  /** The exceptions the modelled Python code can raise. */
  datatype Error =
    | UnknownKey(key: char)   // KeyError: a feedback key other than 'b' or 'w'
    | PopFromEmpty            // IndexError: pop() on an empty list
    | IndexOutOfRange         // IndexError: an index past the end of a list

  datatype Outcome = Pass | Fail(error: Error)
}
