/** Optional values and the Python exceptions that escape the scheduler's code paths. */
module Outcomes {

  datatype Option<T> = None | Some(value: T)

  /** The built-in exceptions the modelled code can raise. */
  datatype PyError = ValueError | KeyError | IndexError

  /** A value, or the exception raised while computing it. */
  datatype Result<T> = Ok(value: T) | Raised(error: PyError)

  /** The outcome of a statement sequence that returns nothing. */
  datatype Outcome = Done | Failed(error: PyError)
}
