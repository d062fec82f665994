/** Optional values, results, and the Python exceptions the modelled code can raise. */
module Wrappers {

  /** Python's `None` or a present value. */
  datatype Option<+T> = None | Some(value: T)

  /** A value, or the exception a call raises instead of returning. */
  datatype Result<+R, +E> = Success(value: R) | Failure(error: E)

  /** The exceptions that escape the modelled functions. */
  datatype PyError =
    | UnboundLocalError   // a local name read before any assignment
    | KeyError(key: int)  // a dict lookup of a missing key
    | IndexError          // a list subscript out of range
}
