/** Outcomes of the parser's operations.

    The parser signals every failure with one exception kind, ParseException; its
    message is display-only, so a failure here is a single value. */
module Outcomes {

  /** What a parser operation returns: a value, or the ParseException it raised. */
  datatype Result<T> = Ok(value: T) | Err {
    predicate IsFailure() { Err? }
    function PropagateFailure<U>(): Result<U>
      requires Err?
    {
      Err
    }
    function Extract(): T
      requires Ok?
    {
      value
    }
  }

  /** What a grammar rule does to a cursor over a token sequence: on success the value
      it built and the position after it; on failure the position where the cursor was
      left, which need not be where the rule started (tokens matched before the failing
      step stay consumed). */
  datatype Parsed<T> = Done(value: T, next: nat) | Failed(at: nat) {
    predicate IsFailure() { Failed? }
    function PropagateFailure<U>(): Parsed<U>
      requires Failed?
    {
      Failed(at)
    }
    function Extract(): Parsed<T>
      requires Done?
    {
      this
    }

    /** The cursor after the rule, whether it succeeded or not. */
    function Cursor(): nat {
      if Done? then next else at
    }

    /** The rule's return value as its caller sees it. */
    function AsResult(): Result<T> {
      if Done? then Ok(value) else Err
    }
  }
}
