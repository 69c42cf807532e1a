/**
 * Outcomes of the lending operations.
 *
 * Java `null` results become `Option`; a thrown `BookStateException` becomes a
 * `Failure`/`Fail` that carries the exception's message.
 */
module Wrappers {

  datatype Option<+T> = None | Some(value: T)

  /** The result of an operation that returns a value or throws `BookStateException(message)`. */
  datatype Result<+T> = Success(value: T) | Failure(message: string)

  /** The result of a `void` operation that may throw `BookStateException(message)`. */
  datatype Outcome = Pass | Fail(message: string)
}
