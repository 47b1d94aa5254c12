// Model of 6-6/my_memset.c: a memset whose loop counts down, storing into
// p[len - 1] first and p[0] last.
module MyMemset {
  import opened Common

  /** (unsigned char)c: C's conversion keeps the value modulo 256. */
  function ToByte(c: int): byte
  {
    c % 256
  }

  /**
   * my_memset: afterwards b[0..len) all hold (unsigned char)c, every byte
   * outside that range is untouched (the test's underrun and overrun checks),
   * and b itself is returned.
   */
  method MyMemset(b: array<byte>, c: int, len: nat) returns (r: array<byte>)
    requires len <= b.Length
    modifies b
    ensures r == b
    ensures forall i :: 0 <= i < len ==> b[i] == ToByte(c)
    ensures b[len..] == old(b[len..])
  {
    var n := len;
    while n > 0
      invariant 0 <= n <= len
      // after len - n steps exactly b[n..len) has been set
      invariant forall i :: n <= i < len ==> b[i] == ToByte(c)
      invariant b[..n] == old(b[..n]) && b[len..] == old(b[len..])
    {
      n := n - 1;
      b[n] := ToByte(c);
    }
    r := b;
  }
}
