/** Result types shared by every component.

  The program reports errors by throwing; all exceptions are modelled by the single
  value `Fail`, and optional results (`std::optional`) by `Option`. */
module Outcomes {

  datatype Option<+T> = None | Some(value: T)

  datatype Result<+T> = Ok(value: T) | Fail
  {
    predicate IsFailure() {
      Fail?
    }

    function PropagateFailure<U>(): Result<U>
      requires Fail?
    {
      Fail
    }

    function Extract(): T
      requires Ok?
    {
      value
    }
  }

  /** What a command leaves behind, and whether it succeeds; a command that fails may have had effects. */
  datatype Effect<+T> = Effect(after: T, succeeded: bool)

  /** The method returned the value of the specification and stopped at its end position. */
  predicate Agrees<T(==)>(expected: Result<(T, nat)>, result: Result<T>, position: nat) {
    match expected
    case Ok((value, next)) => result == Ok(value) && position == next
    case Fail => result == Result.Fail
  }
}
