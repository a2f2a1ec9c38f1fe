/** Option and Result values, standing for Rust's `Option<T>` and `anyhow::Result<T>`. */
module Wrappers {

  datatype Option<+T> = None | Some(value: T) {
    /** `Option::unwrap_or`: the carried value, or `default` when there is none. */
    function UnwrapOr(default: T): T {
      match this
      case Some(v) => v
      case None => default
    }
  }

  datatype Result<+T, +E> = Ok(value: T) | Err(error: E)
}
