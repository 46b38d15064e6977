/** The driver's error taxonomy and the result type its operations return. */
module Errors {

  datatype Error =
    | I2c             // a bus write or read failed
    | VoltageTooHigh  // the sample is the resolution's largest code
    | VoltageTooLow   // the sample is the resolution's smallest code
    | NotInitialized  // declared by the driver, never produced
    | NotReady        // declared by the driver, never produced

  /** Rust's `Result<T, Error>`; `:-` plays the part of `?`. */
  datatype Result<+T> = Ok(value: T) | Err(error: Error) {
    predicate IsFailure() {
      Err?
    }

    function PropagateFailure<U>(): Result<U>
      requires Err?
    {
      Err(error)
    }

    function Extract(): T
      requires Ok?
    {
      value
    }
  }
}
