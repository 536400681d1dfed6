/** Optional values, results that may carry an error, and the exceptions the date axis can raise. */
module Wrappers {

  datatype Option<+T> = None | Some(value: T)

  datatype Result<+T, +E> = Ok(value: T) | Err(error: E)

  /** The Python exceptions that can escape the axis computations. */
  datatype Error =
    | ValueError         // datetime.fromtimestamp outside years 1..9999
    | OverflowError      // datetime + timedelta beyond 9999-12-31
    | ZeroDivisionError  // float(L) / maxMajSteps with maxMajSteps == 0
}
