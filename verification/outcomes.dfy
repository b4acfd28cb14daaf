/** Results of the operations whose source loops run "until 1" or "until a
    power of two".  Termination of those loops is the Collatz conjecture, so
    each is modelled with an explicit iteration budget (fuel); running out of
    it is reported as OutOfFuel, and Python's ZeroDivisionError as
    DivisionByZero. */
module Outcomes {

  datatype Failure = OutOfFuel | DivisionByZero

  datatype Result<+T> = Ok(value: T) | Err(failure: Failure)
}
