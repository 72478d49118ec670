/** Small shared vocabulary: bytes, optional values and results. */
module Common {

  /** An 8-bit value, as Python yields when iterating over a `bytes` object. */
  type Byte = b: int | 0 <= b < 256

  /** A value that may be absent (a parse that can fail). */
  datatype Option<+T> = None | Some(value: T)

  /** A value or the error the source would raise instead of returning. */
  datatype Result<+T, +E> = Success(value: T) | Failure(error: E)

  function Min(a: int, b: int): int { if a <= b then a else b }

  function Max(a: int, b: int): int { if a >= b then a else b }

  /** `n` copies of the character `c`. */
  function Repeat(c: char, n: nat): (s: string)
    ensures |s| == n
    ensures forall j | 0 <= j < n :: s[j] == c
  {
    seq(n, _ => c)
  }
}
