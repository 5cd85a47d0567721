/** Option and Result, the failure-carrying values that stand for Python's
    None and for the exceptions the modelled code raises. */
module Wrappers {

  datatype Option<+T> = None | Some(value: T)

  datatype Result<+R, +E> = Success(value: R) | Failure(error: E)

  /** The Python exception classes the modelled code can raise. */
  datatype PyError =
    | KeyError
    | ValueError
    | TypeError
    | AttributeError
    | UnboundLocalError
    | OverflowError
    | IndexError
}
