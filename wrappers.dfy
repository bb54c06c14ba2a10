/** Failure-carrying values shared by every module of the model: `Option` for
    TypeScript `T | null` and Rust `Option<T>`, `Result` for Rust `Result<T, String>`
    and for promises that either resolve or reject. */
module Wrappers {

  datatype Option<+T> = None | Some(value: T) {
    function GetOr(default: T): T {
      match this
      case Some(v) => v
      case None => default
    }
  }

  datatype Result<+T, +E> = Ok(value: T) | Err(error: E)
}
