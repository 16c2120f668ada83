/** Result type for the error paths of the tensor pipeline. */
module Wrappers {

  /** The fatal conditions the core can raise; they propagate to the caller. */
  datatype Error =
    | ShapeMismatch      // a reshape or broadcast whose element counts do not fit
    | DivisionByZero     // an integer `//` by zero
    | IndexOutOfRange    // an indexing expression on a tensor of the wrong rank

  datatype Result<+R> = Success(value: R) | Failure(error: Error)

  /** An optional value, as Python's `None` or an object. */
  datatype Option<+T> = None | Some(value: T)
}
