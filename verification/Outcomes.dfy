/** What a quote returns: a value, or the reason there is none. */
module Outcomes {
  datatype Outcome<+T, +E> = Ok(value: T) | Err(error: E)
}
