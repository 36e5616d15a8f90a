/** Optional values and success-or-exception results shared by the other modules. */
module Wrappers {

  /** A value that may be absent; PHP's `null` and `false` "not found" results map to `None`. */
  datatype Option<+T> = None | Some(value: T)

  /** Either a returned value or a thrown exception. */
  datatype Result<+R, +E> = Success(value: R) | Failure(error: E)
}
