// Model of 6-7/my_string.c: byte-loop versions of memcpy, memmove, memset and
// memchr. A C pointer into a buffer is an array together with an offset.
module MyString {
  import opened Common

  /** Two ranges of the same array do not overlap (or are the same range). */
  predicate Disjoint<T>(dst: array<T>, dOff: nat, src: array<T>, sOff: nat, len: nat)
  {
    dst != src || dOff + len <= sOff || sOff + len <= dOff || dOff == sOff
  }

  /**
   * my_memcpy: dst[dOff..dOff+len) becomes src[sOff..sOff+len), nothing else
   * of dst is written, and dst is returned. Like memcpy, it is only asked to
   * cope with ranges that do not overlap.
   */
  method MyMemcpy(dst: array<byte>, dOff: nat, src: array<byte>, sOff: nat, len: nat)
    returns (r: array<byte>)
    requires dOff + len <= dst.Length && sOff + len <= src.Length
    requires Disjoint(dst, dOff, src, sOff, len)
    modifies dst
    ensures r == dst
    ensures dst[dOff..dOff + len] == old(src[sOff..sOff + len])
    ensures dst[..dOff] == old(dst[..dOff]) && dst[dOff + len..] == old(dst[dOff + len..])
  {
    ghost var s := src[sOff..sOff + len];
    var i := 0;
    while i < len
      invariant 0 <= i <= len
      invariant src[sOff + i..sOff + len] == s[i..]
      invariant dst[dOff..dOff + i] == s[..i]
      invariant dst[..dOff] == old(dst[..dOff]) && dst[dOff + i..] == old(dst[dOff + i..])
    {
      dst[dOff + i] := src[sOff + i];
      i := i + 1;
    }
    r := dst;
  }

  /**
   * my_memmove: copies through a temporary buffer, so dst[dOff..dOff+len)
   * receives the ORIGINAL src[sOff..sOff+len) even when the ranges overlap.
   */
  method MyMemmove(dst: array<byte>, dOff: nat, src: array<byte>, sOff: nat, len: nat)
    returns (r: array<byte>)
    requires dOff + len <= dst.Length && sOff + len <= src.Length
    modifies dst
    ensures r == dst
    ensures dst[dOff..dOff + len] == old(src[sOff..sOff + len])
    ensures dst[..dOff] == old(dst[..dOff]) && dst[dOff + len..] == old(dst[dOff + len..])
  {
    var buf := new byte[len];
    var _ := MyMemcpy(buf, 0, src, sOff, len);
    assert buf[..] == old(src[sOff..sOff + len]);
    var _ := MyMemcpy(dst, dOff, buf, 0, len);
    r := dst;
  }

  /** my_memset: b[0..len) all hold (unsigned char)c; b is returned. */
  method MyMemset(b: array<byte>, c: int, len: nat) returns (r: array<byte>)
    requires len <= b.Length
    modifies b
    ensures r == b
    ensures forall i :: 0 <= i < len ==> b[i] == c % 256
    ensures b[len..] == old(b[len..])
  {
    var i := 0;
    while i < len
      invariant 0 <= i <= len
      invariant forall k :: 0 <= k < i ==> b[k] == c % 256
      invariant b[i..] == old(b[i..])
    {
      b[i] := c % 256;
      i := i + 1;
    }
    r := b;
  }

  /**
   * my_memchr: ignores len and scans from b[off] up to the first 0 byte,
   * returning the first position whose byte equals c. The unsigned byte is
   * compared with the unconverted int c, so a negative c never matches.
   */
  method MyMemchr(b: array<byte>, off: nat, c: int, len: nat) returns (r: Option<nat>)
    requires off <= b.Length && 0 in b[off..]
    ensures var end := off + ByteStrLen(b[off..]);
            match r
            case Some(k) => off <= k < end && b[k] == c &&
                            forall j :: off <= j < k ==> b[j] != c
            case None => forall j :: off <= j < end ==> b[j] != c
  {
    ghost var end := off + ByteStrLen(b[off..]);
    var p := off;
    while b[p] != 0
      invariant off <= p <= end
      invariant forall j :: off <= j < p ==> b[j] != c
      decreases end - p
    {
      if b[p] == c {
        return Some(p);
      }
      p := p + 1;
    }
    r := None;
  }

  /** A string whose first n bytes are not 0 is longer than n - 1. */
  lemma {:induction false} NoNulPrefix(s: seq<byte>, n: nat)
    requires 0 in s && n <= |s|
    requires forall k :: 0 <= k < n ==> s[k] != 0
    ensures ByteStrLen(s) >= n
  {
  }

  /** The test's first case: 's' (115) is found at index 2 of "test string". */
  method TestMemchrFindsS() returns (r: Option<nat>)
    ensures r == Some(2)
  {
    var b := new byte[] [116, 101, 115, 116, 32, 115, 116, 114, 105, 110, 103, 0];
    assert b[11] == 0 && b[0] != 0 && b[1] != 0 && b[2] != 0;
    NoNulPrefix(b[0..], 3);
    r := MyMemchr(b, 0, 115, 12);
    assert r.Some? by {
      if r == None {
        assert b[2] == 115;
      }
    }
  }

  /**
   * The test's third case passes '\xFF', which is -1 where char is signed: the
   * byte 0xFF is never equal to -1, so my_memchr returns NULL where the test
   * expects the first byte.
   */
  method TestMemchrNegativeChar() returns (r: Option<nat>)
    ensures r == None
  {
    var b := new byte[] [255, 255, 255, 1, 1, 1, 240, 15, 0];
    assert b[8] == 0;
    r := MyMemchr(b, 0, -1, 12);
  }
}
