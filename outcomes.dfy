/** Results shared by the solvers: an optional model and a call that may raise. */
module Outcomes {

  /** `None` is the solvers' "no model" answer. */
  datatype Option<T> = None | Some(value: T)

  /** A call that returns normally (`Ok`) or raises a Python exception (`Raised`, named by its class). */
  datatype Result<T> = Ok(value: T) | Raised(error: string)
}
