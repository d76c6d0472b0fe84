/** Result shapes shared by the whole model: Rust's `Option`, a `Result` whose
    error is the source's `&'static str`/`String` message, and `Run`, which
    records whether a call returned at all or panicked (an `unwrap` on `None`,
    an explicit `panic!`). */
module Results {

  datatype Option<+T> = None | Some(value: T)

  datatype Result<+T> = Ok(value: T) | Err(error: string)

  /** The outcome of a call that may abort the thread instead of returning. */
  datatype Run<+T> = Done(value: T) | Panicked(reason: string)

  /** The message of the panic raised by `Option::unwrap` on `None`. */
  const UnwrapNone := "called `Option::unwrap()` on a `None` value"
}
