/** Optional values and the success-or-failure outcome of an external call. */
module Wrappers {

  datatype Option<+T> = None | Some(value: T)

  /** What an awaited call settles to: a value, or a thrown error rendered
      to the text that `error.toString()` would produce. */
  datatype Result<+T> = Ok(value: T) | Err(error: string)

  /** The error text of a failed call, None for a successful one. */
  function ErrorOf<T>(r: Result<T>): Option<string>
  {
    match r
    case Ok(_) => None
    case Err(m) => Some(m)
  }
}
