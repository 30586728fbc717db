/** Option and Result: the shapes the model uses for Python's `None` and for raised exceptions. */
module Wrappers {

  /** `None` is Python's `None`; `Some(v)` a present value. */
  datatype Option<+T> = None | Some(value: T)

  /** A call that either returns `value` or raises `error`. */
  datatype Result<+R, +E> = Success(value: R) | Failure(error: E)
}
