/**
 The exceptions the selectors and the correctness harness can raise, as values.
 */
module Errors {

  /** What `testSameElements` reports when two collections differ. */
  datatype Mismatch =
    | SizeMismatch(expectedSize: nat, actualSize: nat)
    | ElementMismatch(index: nat, expected: int, actual: int)

  datatype Error =
    /** A negative list capacity, a non-positive queue capacity, or a sub-list whose start is past its end. */
    | IllegalArgument
    /** A sub-list that starts before index 0. */
    | IndexOutOfBounds
    /** A failed correctness check. */
    | IllegalState(mismatch: Mismatch)

  datatype Result<+T> = Success(value: T) | Failure(error: Error)

  datatype Outcome = Pass | Fail(error: Error)
}
