/** Wrapper datatypes used across the model: `Option` stands for
    Rust's `Option<Box<Block>>` link, `Result` for an operation that can
    abort (an arithmetic overflow the Rust code would panic on). */
module Wrappers {

  datatype Option<+T> = None | Some(value: T)

  datatype Result<+R, +E> = Success(value: R) | Failure(error: E)
}
