/** Result and option types shared by the models of the individual crates. */
module Common {
  datatype Option<+T> = None | Some(value: T)

  datatype Result<+T, +E> = Ok(value: T) | Err(error: E)

  /** A Rust call that may also panic (`expect`, checked arithmetic). */
  datatype Outcome<+T, +E> = Done(value: T) | Failed(error: E) | Panic
}
