/** Option and Result, the two failure-carrying shapes the model uses for
    pandas' missing cells (NaN / NaT) and for the exceptions the script raises. */
module Wrappers {

  /** A cell that may be missing: None stands for NaN, NaT or an empty cell. */
  datatype Option<+T> = None | Some(value: T) {

    /** The cell's value, or `default` when it is missing (pandas' fillna). */
    function GetOr(default: T): T {
      match this
      case Some(v) => v
      case None => default
    }
  }

  /** The outcome of an operation that may raise. */
  datatype Result<+R, +E> = Success(value: R) | Failure(error: E)
}
