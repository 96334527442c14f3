/** Option and Result, the two wrappers the model uses for absent values and for raised errors. */
module Wrappers {

  datatype Option<+T> = None | Some(value: T)

  /** A Python call that either returns a value or raises; `error` is what `str(e)` shows. */
  datatype Result<+R> = Success(value: R) | Failure(error: string)
}
