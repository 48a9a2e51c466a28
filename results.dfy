/** Failure-carrying results shared by the modules of this model. */
module Results {

  /** A value that may be missing: Rust's `Option`, and the `CtOption` that field inversion returns. */
  datatype Option<+T> = None | Some(value: T)

  /** Rust's `Result`: a value, or the error that stopped the computation. */
  datatype Result<+T, +E> = Ok(value: T) | Err(error: E)
}
