/** Failure-carrying datatypes shared by the rest of the model: `Option`
    stands for Rust's `Option` and `Result::ok()`, `Result` for Rust's
    `Result` with an explicit error value. */
module Results {

  datatype Option<+T> = None | Some(value: T)

  datatype Result<+T, +E> = Ok(value: T) | Err(error: E)
}
