/**
  Types shared by the codec: bytes, the closed set of error kinds the codec
  raises, the loosely typed numeric input of the append operations, and a
  Success/Failure result.
 */
module Base {

  /** An unsigned 8-bit value, as stored in a `Uint8Array`. */
  type byte = b: int | 0 <= b < 0x100

  /** 2^32 and 2^31, the bounds of the two integer widths. */
  const TWO_32: int := 0x1_0000_0000
  const TWO_31: int := 0x8000_0000

  /** The error kinds the codec raises, instead of exception messages. */
  datatype Error =
    | NotAnInteger      // the input number is NaN, infinite or fractional
    | OutOfRange        // a value or a decoded number outside the 32-bit bound
    | IncompleteNumber  // the buffer ends while a continuation bit is still set
    | Truncated         // a prefixed string claims more bytes than remain
    | MalformedUtf8     // the bytes of a prefixed string are not well-formed UTF-8

  /**
    The numeric argument of an append operation. The host language passes a
    floating-point number; only whether it is a mathematical integer (and
    which) matters to the codec, so NaN, the infinities and fractional values
    are all `NonInteger`.
   */
  datatype Number = Int(i: int) | NonInteger

  datatype Result<+T> = Success(value: T) | Failure(error: Error) {
    predicate IsFailure() { Failure? }
    function PropagateFailure<U>(): Result<U>
      requires Failure?
    {
      Failure(error)
    }
    function Extract(): T
      requires Success?
    {
      value
    }
  }

  datatype Option<+T> = None | Some(value: T)

  /** 128^n: the weight of the n-th 7-bit group. */
  function Pow128(n: nat): (r: nat)
    ensures r >= 1
  {
    if n == 0 then 1 else 128 * Pow128(n - 1)
  }
}
