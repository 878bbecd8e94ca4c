/** Option and Result, the two failure-carrying shapes the services return. */
module Wrappers {

  /** A value that may be absent: a missing JSON key, a `None` from a lookup. */
  datatype Option<+T> = None | Some(value: T) {

    /** The value if present, otherwise `default` (Python's `dict.get(key, default)`). */
    function GetOr(default: T): T {
      if Some? then value else default
    }
  }

  /** Either the value an operation returns or the exception it raises. */
  datatype Result<+T, +E> = Ok(value: T) | Err(error: E)
}
