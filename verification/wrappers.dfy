/** Optional values: a present value, or Python's `None`. */
module Wrappers {

  datatype Option<T> = None | Some(value: T)

  /** Python's `x or fallback` when `x` may be `None`. */
  function ValueOr<T>(x: Option<T>, fallback: T): T
  {
    match x
    case Some(v) => v
    case None => fallback
  }
}
