// Definitions shared by the models of the C sources: the optional result that
// stands for a nullable pointer, the byte type, and C string helpers.
module Common {

  /** A nullable C pointer: None is NULL. */
  datatype Option<T> = None | Some(value: T)

  /** An `unsigned char`. */
  type byte = b: int | 0 <= b < 256

  const NUL: char := '\0'

  /** Number of characters before the first NUL of `s` (C's strlen). */
  function StrLen(s: seq<char>): (n: nat)
    requires NUL in s
    ensures n < |s| && s[n] == NUL
    ensures forall k :: 0 <= k < n ==> s[k] != NUL
  {
    if s[0] == NUL then 0 else 1 + StrLen(s[1..])
  }

  /** Index of the first 0 byte of `s`. */
  function ByteStrLen(s: seq<byte>): (n: nat)
    requires 0 in s
    ensures n < |s| && s[n] == 0
    ensures forall k :: 0 <= k < n ==> s[k] != 0
  {
    if s[0] == 0 then 0 else 1 + ByteStrLen(s[1..])
  }
}
