/** The two value shapes every callback of the page works with. */
module Outcomes {

  /** A value that may be absent (the source's `null` / `undefined`). */
  datatype Option<+T> = None | Some(value: T)

  /**
   * The error-first callback convention `callback(error, result)`:
   * either `callback(null, value)` or `callback(error, null)`.
   */
  datatype Reply<+T> = Ok(value: T) | Err(error: string)
}
