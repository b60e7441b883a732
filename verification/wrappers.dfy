/** Optional values and request outcomes shared by the catalogue model. */
module Wrappers {

  /** An optional value: a nullable database column or a lookup that may miss. */
  datatype Option<+T> = None | Some(value: T)

  /** The outcome of a request: its value, or the error the route reports. */
  datatype Result<+T, +E> = Success(value: T) | Failure(error: E)
}
