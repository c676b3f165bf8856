/** Optional values and host results: the two wrappers the codecs pass values through. */
module Wrappers {

  /** A value that may be absent (a null or missing field). */
  datatype Option<+T> = None | Some(value: T)

  /** The outcome of the host framework's own extraction of a field: the
      extracted value, or the host's error, which the codecs never inspect. */
  datatype Result<+R, +E> = Success(value: R) | Failure(error: E)
}
