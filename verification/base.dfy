/** Small shared vocabulary: optional values, results, and the integer widths the server uses. */
module Base {

  /** An optional value, as Rust's `Option`. */
  datatype Option<+T> = None | Some(value: T)

  /** The outcome of an operation that may fail, as Rust's `Result`. */
  datatype Result<+T, +E> = Ok(value: T) | Err(error: E)

  /** One more than the largest `u32`. */
  const U32_LIMIT: int := 0x1_0000_0000

  /** Rust's `u32`: request fields, path parameters and stored enum discriminants. */
  type u32 = x: int | 0 <= x < U32_LIMIT

  /** A row identifier as the store assigns it (an SQLite rowid, not truncated here). */
  type Id = nat
}
