/** The optional-value and result datatypes the model uses for Rust's
    `Option` and `Result`. */
module Wrappers {

  datatype Option<+T> = None | Some(value: T)

  /** A result whose error is carried as its display text, which is all the
      bot ever does with an error. */
  datatype Result<+T> = Ok(value: T) | Err(error: string)
}
