// Option/Result wrappers and the failure kinds of one conversion attempt.

module Wrappers {

  datatype Option<+T> = None | Some(value: T)

  /** How an operation of the converter can fail.  A failed C `assert` or a
      thrown `ASSERT` ends the whole program; the two named exceptions only
      end the current attempt and make the driver retry with the next seed. */
  datatype Failure =
    | AssertionFailed(where: string)
    | CrossingMeet
    | BadBorder
    | MaxTryExceeded
  {
    /** The failures the retry driver catches. */
    predicate Retryable()
    {
      this == CrossingMeet || this == BadBorder
    }
  }

  datatype Result<+T> = Ok(value: T) | Err(error: Failure)

  /** The outcome of an operation that produces no value. */
  datatype Outcome = Pass | Fail(error: Failure)
}
