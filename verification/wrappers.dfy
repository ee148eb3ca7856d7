/** Option and Result, in the shape the Rust code uses them
    (`Option<T>` for absent values, `Result<T, E>` for `?`-propagated errors). */
module Wrappers {

  datatype Option<+T> = None | Some(value: T) {

    /** `Option::unwrap_or`: the contained value, or `default` when absent. */
    function UnwrapOr(default: T): T {
      match this
      case Some(v) => v
      case None => default
    }
  }

  datatype Result<+T, +E> = Ok(value: T) | Err(error: E) {

    predicate IsFailure() {
      Err?
    }

    function PropagateFailure<U>(): Result<U, E>
      requires Err?
    {
      Err(error)
    }

    function Extract(): T
      requires Ok?
    {
      value
    }
  }
}
