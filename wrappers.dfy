/** Failure-compatible wrappers shared by the mesh modules. */
module Wrappers {

  /** An optional value: a lookup that may find nothing. */
  datatype Option<T> = None | Some(value: T)

  /** A value, or the contract failure that aborted the computation. */
  datatype Result<T, E> = Ok(value: T) | Err(error: E)
}
