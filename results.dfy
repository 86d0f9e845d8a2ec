/** Option and Result, the two failure-carrying shapes every other module uses. */
module Results {

  datatype Option<+T> = None | Some(value: T)

  /** The value of a Rust `Result<T, E>`: `Ok(v)` or `Err(e)`. */
  datatype Result<+T, +E> = Ok(value: T) | Err(error: E) {
    predicate IsFailure() {
      Err?
    }

    function PropagateFailure<U>(): Result<U, E>
      requires Err?
    {
      Err(error)
    }

    function Extract(): T
      requires Ok?
    {
      value
    }
  }
}
