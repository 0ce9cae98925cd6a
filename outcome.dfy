/** The failures the calculator can raise, and a Result type to carry them.
    The program reports every failure as a Java exception: an array index out
    of bounds on a fixed table, or a RuntimeException thrown after a branch
    lookup came back null. */
module Outcome {

  /** Which branch lookup came back null (the text of each RuntimeException). */
  datatype EarthlyLookup = YearEarthly | MonthEarthly | DayEarthly | TimeEarthly

  datatype Error =
    | ArrayIndexOutOfBounds(index: int, length: nat)
    | EarthlyIsNull(lookup: EarthlyLookup, key: int)

  datatype Option<+T> = None | Some(value: T)

  datatype Result<+T> = Success(value: T) | Failure(error: Error) {
    predicate IsFailure() { Failure? }

    function PropagateFailure<U>(): Result<U>
      requires Failure?
    {
      Failure(error)
    }

    function Extract(): T
      requires Success?
    {
      value
    }
  }
}
