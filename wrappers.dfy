/** Failure-carrying results shared by the modules below: Go's `(value, error)` and
    `(value, ok)` return pairs become `Result` and `Option`. */
module Wrappers {

  datatype Option<+T> = None | Some(value: T)

  /** `Ok(v)` is a Go call that returned `v, nil`; `Err(e)` one that returned `nil, e`. */
  datatype Result<+T, +E> = Ok(value: T) | Err(error: E)
}
