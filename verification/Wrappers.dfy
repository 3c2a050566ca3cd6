/** Outcome types shared by the models: a value or the error the source raises, and an
    optional value for the missing cells of a table. */
module Wrappers {
  datatype Option<+T> = None | Some(value: T)

  datatype Result<+T, +E> = Ok(value: T) | Err(error: E)
}
