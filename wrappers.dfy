/** Plain option and result types: `Option` for a cell that may be empty,
    `Result` for a move that may be rejected. */
module Wrappers {

  datatype Option<+T> = None | Some(value: T)

  datatype Result<+R, +E> = Ok(value: R) | Err(error: E)
}
