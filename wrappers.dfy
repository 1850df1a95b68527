/** Failure-compatible result types for the toolkit's operations, which either
    produce a value or throw. */
module Wrappers {

  datatype Option<+T> = None | Some(value: T)

  /** The exceptions the toolkit's operations can raise. */
  datatype Error =
    /** crypto.randomInt(min, max) throws a RangeError when max <= min. */
    | OutOfRange
    /** Array(n) throws a RangeError "Invalid array length" unless 0 <= n < 2^32. */
    | InvalidArrayLength

  datatype Result<+T> = Ok(value: T) | Err(error: Error) {
    predicate IsFailure() { Err? }

    function PropagateFailure<U>(): Result<U>
      requires Err?
    {
      Err(error)
    }

    function Extract(): T
      requires Ok?
    {
      value
    }
  }

  /** JavaScript's `x || d` for a number x: d when x is 0 (or unset), x
      otherwise; so the result is set whenever the default is. */
  function OrDefault(x: int, d: int): (r: int)
    ensures x != 0 ==> r == x
    ensures x == 0 ==> r == d
    ensures d != 0 ==> r != 0
  {
    if x == 0 then d else x
  }
}
