/** Option and Result, used for the sentinel defaults and the exceptions of the scraper. */
module Wrappers {

  datatype Option<+T> = None | Some(value: T)

  datatype Result<+T, +E> = Ok(value: T) | Err(error: E)
}
