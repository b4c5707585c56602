/** Small value types shared by the whole model: optional values, results of
    store operations that can fail, and the 32-bit integers of the JVM. */
module Common {

  /** Kotlin's nullable `T?`: `None` stands for `null`. */
  datatype Option<+T> = None | Some(value: T)

  /** The result of a store operation that either yields a value or raises. */
  datatype Result<+R, +E> = Success(value: R) | Failure(error: E)

  /** The result of a store operation that yields nothing or raises. */
  datatype Outcome<+E> = Pass | Fail(error: E)

  const MinInt32: int := -0x8000_0000
  const MaxInt32: int := 0x7fff_ffff

  /** Kotlin `Int`, and PostgreSQL `integer`/`serial`. */
  type Int32 = x: int | -0x8000_0000 <= x <= 0x7fff_ffff

  function Min(a: int, b: int): int { if a <= b then a else b }
  function Max(a: int, b: int): int { if a >= b then a else b }
}
