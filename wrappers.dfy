/** Option and Result values shared by the other modules. */
module Wrappers {

  /** Rust's `Option`: `None` is also the value of the emitted `route` when no rule matches. */
  datatype Option<+T> = None | Some(value: T)

  /** The outcome of a parser step that may fail, in the manner of `syn::parse::Result`. */
  datatype Result<+T> = Ok(value: T) | Err(at: nat)
}
