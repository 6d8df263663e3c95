/** Option and Result, the two failure-compatible wrappers the model uses,
    and the ways the modelled Rust operations can panic. */
module Wrappers {

  datatype Option<+T> = None | Some(value: T)

  datatype Result<+T, +E> = Ok(value: T) | Err(error: E) {
    predicate IsFailure() {
      Err?
    }

    function PropagateFailure<U>(): Result<U, E>
      requires Err?
    {
      Err(error)
    }

    function Extract(): T
      requires Ok?
    {
      value
    }
  }

  /** A panic of the worker thread: the connection is dropped without a
      response. Each constructor names the Rust operation that panics. */
  datatype Panic =
    | SliceOutOfRange   // `&s[a..b]` or `v[a..b]` with a bound past the end or `a > b`
    | NotCharBoundary   // `&s[k..]` where byte `k` is inside a UTF-8 sequence
    | IndexOutOfRange   // `v[i]` with `i >= v.len()`
    | ExpectFailed      // `Option::expect` on `None`
}
