/** Small shared vocabulary: optional values, results, and the byte type of Go. */
module Common {

  /** A value that may be absent. */
  datatype Option<+T> = None | Some(value: T)

  /** The outcome of an operation that can fail with an error value. */
  datatype Result<+T, +E> = Success(value: T) | Failure(error: E)

  /** Go's `byte`: an unsigned 8-bit integer. */
  type byte = b: int | 0 <= b < 256

  /** Go's `string(bytes)`: every byte becomes one character of the string. */
  function BytesToString(bs: seq<byte>): (s: string)
    ensures |s| == |bs|
    ensures forall i | 0 <= i < |bs| :: s[i] as int == bs[i]
  {
    seq(|bs|, i requires 0 <= i < |bs| => bs[i] as char)
  }

  /** The bytes of an ASCII string (every character below 128). */
  function AsciiBytes(s: string): (bs: seq<byte>)
    requires forall i | 0 <= i < |s| :: s[i] as int < 128
    ensures BytesToString(bs) == s
  {
    seq(|s|, i requires 0 <= i < |s| => s[i] as int)
  }
}
