/** Failure-compatible wrappers shared by the indexer model.

    Java signals the only failures of the modelled core by throwing
    `StringIndexOutOfBoundsException` from `String.substring`; `Result`
    carries the same three numbers that exception reports. */
module Results {

  /** An optional value: `Map.get` returning `null`, a search finding nothing. */
  datatype Option<+T> = None | Some(value: T)

  /** The exception `String.substring(begin, end)` throws on a string of
      the given length when `begin > end`, `begin < 0` or `end > length`. */
  datatype Error = StringIndexOutOfBounds(begin: int, end: int, length: int)

  /** Either a value or the exception that aborted the computation. */
  datatype Result<+T> = Ok(value: T) | Err(error: Error) {

    predicate IsFailure() {
      Err?
    }

    function PropagateFailure<U>(): Result<U>
      requires Err?
    {
      Err(error)
    }

    function Extract(): T
      requires Ok?
    {
      value
    }
  }
}
