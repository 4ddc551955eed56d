/** Shared vocabulary: bytes, optional values, results, and the kinds of
    exception the emulator client can raise. */
module Common {

  /** A Python `bytes` element. */
  type byte = x: int | 0 <= x < 256

  datatype Option<+T> = None | Some(value: T)

  datatype Result<+T, +E> = Ok(value: T) | Err(error: E)

  /** The exceptions that reach the caller of the emulator client's operations.
      The first two are the client's own `GameboyException` subclasses; the
      others are Python built-in exceptions raised by the library calls the
      client makes (`asyncio.wait_for`, `int`, `bytearray.fromhex`, indexing,
      `assert`, `struct`, `bytes.decode`), and the `TypeError` of indexing the
      `None` that a read of an empty cache returns. */
  datatype GameboyError =
    | BadRetroArchResponse
    | InvalidEmulatorState
    | Timeout
    | ValueError
    | IndexError
    | AssertionError
    | StructError
    | DecodeError
    | TypeError

  predicate StartsWith<T(==)>(s: seq<T>, prefix: seq<T>)
  {
    |prefix| <= |s| && s[..|prefix|] == prefix
  }

  predicate EndsWith<T(==)>(s: seq<T>, suffix: seq<T>)
  {
    |suffix| <= |s| && s[|s| - |suffix|..] == suffix
  }

  /** `t` occurs in `s` starting at index `i`. */
  predicate OccursAt<T(==)>(s: seq<T>, t: seq<T>, i: int)
  {
    0 <= i <= |s| - |t| && s[i..i + |t|] == t
  }

  /** `t` occurs somewhere in `s`. */
  ghost predicate Contains<T>(s: seq<T>, t: seq<T>)
  {
    exists i :: OccursAt(s, t, i)
  }
}
