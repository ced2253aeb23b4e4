/** Optional values and results, standing for the source's `Option`, `Result` and panics. */
module Wrappers {
  datatype Option<+T> = None | Some(value: T) {
    function GetOr(default: T): T { if Some? then value else default }
  }

  datatype Result<+T, +E> = Ok(value: T) | Err(error: E)
}

/** Bytes as the source's `u8`. */
module Bytes {
  type byte = x: int | 0 <= x < 256
}
