/** Failure-carrying result types shared by every module of the model. */
module Wrappers {

  /** A value that may be absent, as a Python `None` default or a missing key. */
  datatype Option<+T> = None | Some(value: T) {
    function GetOr(default: T): T {
      match this
      case Some(v) => v
      case None => default
    }
  }

  /** The exceptions the modelled code raises, by kind. */
  datatype Error =
    | UnknownMethod(name: string)   // ValueError for an unknown clustering method
    | InvalidClusterCount(k: int)     // the clustering library rejects fewer than one cluster
    | MissingKey(key: int)            // KeyError from a dictionary lookup
    | NotPrepared                     // ValueError: data not prepared
    | DivisionByZero                  // ZeroDivisionError
    | EmptyResize                     // the image library rejects a target size with a zero side

  /** Either a value or the exception that stopped the computation. */
  datatype Result<+R> = Success(value: R) | Failure(error: Error)
}
