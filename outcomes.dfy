/**
 * Error results of the solver core. The Python code signals these conditions
 * by raising exceptions; here they are values.
 */
module Outcomes {
  datatype Option<T> = None | Some(value: T)

  datatype Error =
    | InvalidMapCharacter(ch: char)                 // a feedback character that is not c, i or m
    | EmptyDictionary                               // a solver built from no words
    | GuessLengthMismatch(expected: nat, actual: nat)
    | GuessNotFound                                 // removing a guess that is not in the history

  datatype Result<T> = Ok(value: T) | Err(error: Error)

  /** The outcome of an operation that returns nothing but may fail. */
  datatype Outcome = Pass | Fail(error: Error)
}
