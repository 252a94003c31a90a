// Option and Result values shared by all modules: `None`/`Some` for Rust's
// `Option`, `Ok`/`Err` for `Result` and for panics, which the model reports
// as error values instead of unwinding.
module Wrappers {

  datatype Option<T> = None | Some(value: T) {
    function UnwrapOr(default: T): T
    {
      match this
      case None => default
      case Some(v) => v
    }
  }

  datatype Result<T, E> = Ok(value: T) | Err(error: E)
}
