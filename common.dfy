/** Failure values shared by the register and state modules.

    The Rust code reports every one of these conditions by panicking; the model
    returns them instead, so that each error path can be stated and proved. */
module Common {

  /** The ways an operation of the core can fail. */
  datatype Error =
    | Overflow            // `2u32.pow(pos)` exceeds the 32-bit range
    | IndexOutOfBounds    // writing an amplitude past the end of the vector
    | DimensionMismatch   // a 2x2 gate applied to a vector whose length is not 2
    | AlreadyMeasured     // a gate or measurement after the one allowed measurement

  /** The result of an operation that produces a value. */
  datatype Result<+T> = Success(value: T) | Failure(error: Error)

  /** The result of an operation that produces no value. */
  datatype Outcome = Pass | Fail(error: Error)
}
