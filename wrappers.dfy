/** Optional values and results with an error, used wherever the exporter may fail or a
    lookup may come back empty. */
module Wrappers {

  datatype Option<+T> = None | Some(value: T)

  datatype Result<+T, +E> = Success(value: T) | Failure(error: E)
}
