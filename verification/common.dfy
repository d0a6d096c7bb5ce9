/** Option and Result values standing in for JavaScript's `null`/`undefined`
    and for exceptions thrown by the data store. */
module Common {

  /** A value that may be absent (`null` or `undefined` in the source). */
  datatype Option<T> = None | Some(value: T) {

    /** The value when present, `default` otherwise (the `??` operator). */
    function GetOr(default: T): T {
      match this
      case Some(v) => v
      case None => default
    }
  }

  /** Either a value or the error an operation threw instead. */
  datatype Result<T, E> = Success(value: T) | Failure(error: E)

  function Max(a: int, b: int): int {
    if a < b then b else a
  }
}
