/** The absent-or-present value that lookups, clocks and allocations return, and the value-or-error of services. */
module Options {

  datatype Option<+T> = None | Some(value: T)

  datatype Result<+T, +E> = Ok(value: T) | Err(error: E)
}
