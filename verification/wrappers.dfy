/** Optional values: the source's `null` results ("no hit") and its thrown
    errors become values of these types. */
module Wrappers {

  datatype Option<+T> = None | Some(value: T)

  /** A computation that either yields a value or fails with the name of the
      error the JavaScript engine would throw. */
  datatype Result<+T> = Ok(value: T) | Err(error: string)
}
