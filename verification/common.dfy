/** Failure-carrying wrappers shared by every stage of the pipeline.

    The Python scripts signal "missing" with `None`/`NaN` and fail by raising
    exceptions; here the first is an `Option` and the second a `Result` whose
    error names the Python exception that would have been raised.
 */
module Common {

  datatype Option<+T> = None | Some(value: T) {

    function GetOr(default: T): T {
      match this
      case Some(v) => v
      case None => default
    }
  }

  /** The exceptions the loaders can raise on malformed input. */
  datatype Error =
    | TypeError          // `in` on a non-container, iterating a non-iterable, str-indexing a list or string
    | AttributeError     // `.get` called on something that is not a dict
    | DecodeError(line: string)  // an NDJSON line that is not JSON
    | KeyError(column: string)   // a canonical column absent from every input frame

  datatype Result<+T> = Ok(value: T) | Err(error: Error) {

    predicate IsFailure() {
      Err?
    }

    function PropagateFailure<U>(): Result<U>
      requires Err?
    {
      Err(error)
    }

    function Extract(): T
      requires Ok?
    {
      value
    }
  }
}
