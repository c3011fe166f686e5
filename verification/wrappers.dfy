/** Failure-carrying result types shared by the generators and solvers. */
module Wrappers {

  /** An optional value: the source's `None` / "no direction found". */
  datatype Option<+T> = None | Some(value: T)

  /** The outcome of an operation that can raise: `Ok` carries the value
      returned, `Err` the exception the source raises instead. */
  datatype Result<+T, +E> = Ok(value: T) | Err(error: E)
}
