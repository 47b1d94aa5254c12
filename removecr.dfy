// Model of removecrbuf in 8-2/removecr.c: deletes every carriage return from
// the first buflen bytes of a buffer in place and reports the new length.
module RemoveCr {
  import opened Common

  const CR: byte := 13

  /** The bytes of s without any carriage return, in their original order. */
  function StripCr(s: seq<byte>): seq<byte>
  {
    if s == [] then []
    else if s[0] == CR then StripCr(s[1..])
    else [s[0]] + StripCr(s[1..])
  }

  /** Number of bytes of s that are not carriage returns. */
  function NonCrCount(s: seq<byte>): nat
  {
    if s == [] then 0 else (if s[0] == CR then 0 else 1) + NonCrCount(s[1..])
  }

  /** The result holds exactly the non-CR bytes: its length is their count. */
  lemma {:induction false} StripCrLength(s: seq<byte>)
    ensures |StripCr(s)| == NonCrCount(s) <= |s|
  {
    if s != [] {
      StripCrLength(s[1..]);
    }
  }

  /** No carriage return survives. */
  lemma {:induction false} StripCrHasNoCr(s: seq<byte>)
    ensures CR !in StripCr(s)
  {
    if s != [] {
      StripCrHasNoCr(s[1..]);
    }
  }

  /** Input without carriage returns passes through unchanged. */
  lemma {:induction false} StripCrIdentity(s: seq<byte>)
    requires CR !in s
    ensures StripCr(s) == s
  {
    if s != [] {
      assert s == [s[0]] + s[1..];
      StripCrIdentity(s[1..]);
    }
  }

  /** Removing carriage returns twice is the same as removing them once. */
  lemma StripCrIdempotent(s: seq<byte>)
    ensures StripCr(StripCr(s)) == StripCr(s)
  {
    StripCrHasNoCr(s);
    StripCrIdentity(StripCr(s));
  }

  /** The memmove(buf + i, buf + 1 + i, n) call: shifts n bytes left by one. */
  method ShiftLeft(buf: array<byte>, i: nat, n: nat)
    requires i + 1 + n <= buf.Length
    modifies buf
    ensures buf[i..i + n] == old(buf[i + 1..i + 1 + n])
    ensures buf[..i] == old(buf[..i]) && buf[i + n..] == old(buf[i + n..])
  {
    var k := 0;
    while k < n
      invariant 0 <= k <= n
      invariant buf[i..i + k] == old(buf[i + 1..i + 1 + k])
      invariant buf[i + k..] == old(buf[i + k..])
      invariant buf[..i] == old(buf[..i])
    {
      buf[i + k] := buf[i + k + 1];
      k := k + 1;
    }
  }

  /**
   * removecrbuf: afterwards buf[0..r) is the original buf[0..buflen) with its
   * carriage returns removed, r is the number of other bytes, and nothing at or
   * past buflen is written.
   */
  method RemoveCrBuf(buf: array<byte>, buflen: nat) returns (r: nat)
    requires buflen <= buf.Length
    modifies buf
    ensures r <= buflen
    ensures buf[..r] == StripCr(old(buf[..buflen]))
    ensures r == NonCrCount(old(buf[..buflen]))
    ensures buf[buflen..] == old(buf[buflen..])
  {
    ghost var orig := buf[..buflen];
    StripCrLength(orig);
    if buflen == 1 && buf[0] == CR {
      assert orig == [CR];
      return 0;
    }
    var len := buflen;
    var i := 0;
    while i < len
      invariant 0 <= i <= len <= buflen
      invariant buf[..i] + StripCr(buf[i..len]) == StripCr(orig)
      invariant CR !in buf[..i]
      invariant buf[buflen..] == old(buf[buflen..])
      decreases len - i
    {
      if buf[i] == CR {
        len := len - 1;
        DropCr(buf, i, len);
      } else {
        i := i + 1;
        KeepByte(buf[..], i, len);
      }
    }
    assert buf[i..len] == [];
    StripCrIdentity(buf[..i]);
    StripCrLength(buf[..i]);
    r := i;
  }

  /** One deletion step: shifting buf[i+1..len+1) over the CR at i keeps the
      bytes still to be stripped. */
  method DropCr(buf: array<byte>, i: nat, len: nat)
    requires i <= len < buf.Length && buf[i] == CR
    modifies buf
    ensures buf[..i] == old(buf[..i])
    ensures forall k :: len <= k < buf.Length ==> buf[k] == old(buf[k])
    ensures StripCr(buf[i..len]) == StripCr(old(buf[i..len + 1]))
  {
    ghost var before := buf[i..len + 1];
    assert before == [CR] + before[1..];
    ShiftLeft(buf, i, len - i);
  }

  /** One keep step: the byte at i - 1 is not a CR and moves to the done part. */
  lemma KeepByte(b: seq<byte>, i: nat, len: nat)
    requires 1 <= i <= len <= |b| && b[i - 1] != CR && CR !in b[..i - 1]
    ensures b[..i - 1] + StripCr(b[i - 1..len]) == b[..i] + StripCr(b[i..len])
    ensures CR !in b[..i]
  {
    assert b[i - 1..len] == [b[i - 1]] + b[i..len];
    assert b[..i] == b[..i - 1] + [b[i - 1]];
  }
}
