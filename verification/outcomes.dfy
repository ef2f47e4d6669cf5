/** Failure-carrying values for the one operation of the governor that can refuse a request. */
module Outcomes {

  /** Either the value an operation produced, or the reason it produced none. */
  datatype Result<+T, +E> = Success(value: T) | Failure(error: E)

  /** Success without a value, or the reason for failing. */
  datatype Outcome<+E> = Pass | Fail(error: E)
}
