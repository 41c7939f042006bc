/** Optional values and results with an error, used for SQL NULL, absent
    configuration keys and the exceptions `generate` throws. */
module Wrappers {

  datatype Option<+T> = None | Some(value: T)

  datatype Result<+T, +E> = Success(value: T) | Failure(error: E)
}
