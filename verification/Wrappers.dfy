/** Optional values and fallible results, shared by every other module. */
module Wrappers {
  datatype Option<+T> = None | Some(value: T)

  // The source's `anyhow::Result`: the text of an error is not modelled.
  datatype Result<+T> = Ok(value: T) | Err
}
