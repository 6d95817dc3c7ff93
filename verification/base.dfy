/** Small shared vocabulary: optional values (Python attributes that may be
    absent, SQL values that may be NULL), results of operations that may raise,
    and timestamps. */
module Base {

  /** A value that may be missing: an attribute never set on a Python object,
      or a NULL column. */
  datatype Option<+T> = None | Some(value: T) {

    /** The carried value, or `default` when there is none. */
    function GetOr(default: T): T {
      match this
      case Some(v) => v
      case None => default
    }
  }

  /** The outcome of an operation that either returns a value or raises. */
  datatype Result<+T, +E> = Ok(value: T) | Err(error: E)

  /** Timestamps are opaque, totally ordered instants; the clock that produces
      them is a parameter of every operation that reads it. */
  type Timestamp = int

  function Max(a: int, b: int): int { if a >= b then a else b }

  function Min(a: int, b: int): int { if a <= b then a else b }
}
