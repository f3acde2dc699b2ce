/** Shared vocabulary: bytes, the delimiter bytes of the input format, and the
    failures the worker loop can run into (the exceptions the C# program throws). */
module Common {

  /** One byte of the memory-mapped input file. */
  type byte = b: int | 0 <= b < 256

  /** The record terminator '\n'. */
  const NL: byte := 10

  /** The key/value separator ';'. */
  const SEMI: byte := 59

  /** Why a worker stopped: each one is an exception (or a read outside the
      mapped view) in the C# program. */
  datatype Error =
    | ReadPastView      // a byte scan ran past the end of the accessor's view
    | KeyTooLong        // more than 100 key bytes: the station span index is out of range
    | NumberTooLong     // more than 16 number bytes: the number span index is out of range
    | EmptyKey          // hashing a zero-length key reads b[0] out of range
    | DuplicateKey      // Dictionary.Add found a comparer-equal key already present
    | BadNumber         // float.Parse rejected the number bytes (a FormatException)

  datatype Option<T> = None | Some(value: T)

  datatype Result<T> = Ok(value: T) | Err(error: Error)

  function Min(a: int, b: int): int { if a <= b then a else b }

  function Max(a: int, b: int): int { if a >= b then a else b }

  /** n zero bytes: what `Span.Clear` leaves in a buffer. */
  function Zeros(n: nat): (r: seq<byte>)
    ensures |r| == n && forall i :: 0 <= i < n ==> r[i] == 0
  {
    seq(n, _ => 0)
  }

  /** Which program a member models: the C# program as written, or the
      program with the defects it shows corrected (the scan end of a window,
      the reach of the accessor's view, and the station key comparison). */
  datatype Variant = AsWritten | Corrected
}
