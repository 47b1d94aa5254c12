// Model of 2-4.c: badsort, a deliberately poor sort with qsort's interface,
// and its byte-wise block swap memswap. The buffer is an array of bytes
// holding nmemb elements of size bytes each. The comparator receives two
// pointers into the buffer; here it receives the buffer's current contents
// and the two byte offsets those pointers have.
module BadSort {
  import opened Common

  /** a * size, the byte offset of element a, as repeated addition. */
  function Offset(a: nat, size: nat): nat
  {
    if a == 0 then 0 else Offset(a - 1, size) + size
  }

  lemma {:induction false} OffsetIsProduct(a: nat, size: nat)
    ensures Offset(a, size) == a * size
  {
    if a > 0 {
      OffsetIsProduct(a - 1, size);
      assert (a - 1) * size + size == a * size;
    }
  }

  /** Element a ends at or before the start of every later element. */
  lemma {:induction false} OffsetMono(a: nat, b: nat, size: nat)
    requires a < b
    ensures Offset(a, size) + size <= Offset(b, size)
    decreases b
  {
    if a < b - 1 {
      OffsetMono(a, b - 1, size);
    }
  }

  /** Element k of a buffer of size-byte elements. */
  function Block(s: seq<byte>, k: nat, size: nat): (b: seq<byte>)
    requires Offset(k, size) + size <= |s|
    ensures |b| == size
  {
    s[Offset(k, size)..Offset(k, size) + size]
  }

  /** The first n elements of a buffer, as a sequence of blocks. */
  function Blocks(s: seq<byte>, n: nat, size: nat): (bs: seq<seq<byte>>)
    requires Offset(n, size) <= |s|
    ensures |bs| == n
  {
    if n == 0 then [] else Blocks(s, n - 1, size) + [Block(s, n - 1, size)]
  }

  /** Entry k of Blocks is element k of the buffer. */
  lemma {:induction false} BlocksIndex(s: seq<byte>, n: nat, size: nat, k: nat)
    requires Offset(n, size) <= |s| && k < n
    ensures Offset(k, size) + size <= |s| && Blocks(s, n, size)[k] == Block(s, k, size)
  {
    if k < n - 1 {
      BlocksIndex(s, n - 1, size, k);
    }
  }

  /** Elements a and k != a occupy disjoint byte ranges. */
  lemma BlocksDisjoint(a: nat, k: nat, size: nat)
    requires a != k
    ensures Offset(a, size) + size <= Offset(k, size) || Offset(k, size) + size <= Offset(a, size)
  {
    if a < k {
      OffsetMono(a, k, size);
    } else {
      OffsetMono(k, a, size);
    }
  }

  /** t is s with the size bytes at offsets av and bv exchanged, as
      memswap leaves it. */
  predicate Swapped(s: seq<byte>, t: seq<byte>, av: nat, bv: nat, size: nat)
  {
    |s| == |t| && av + size <= |s| && bv + size <= |s| &&
    (forall p :: av <= p < av + size ==> t[p] == s[p - av + bv]) &&
    (forall p :: bv <= p < bv + size ==> t[p] == s[p - bv + av]) &&
    (forall p :: 0 <= p < |s| && !(av <= p < av + size) && !(bv <= p < bv + size) ==> t[p] == s[p])
  }

  /**
   * memswap: exchanges element a of the buffer with element b byte by byte,
   * skipping bytes that are already equal, and writes nothing else. With
   * a == b nothing changes.
   */
  method MemSwap(buf: array<byte>, a: nat, b: nat, size: nat)
    requires Offset(a, size) + size <= buf.Length && Offset(b, size) + size <= buf.Length
    modifies buf
    ensures Swapped(old(buf[..]), buf[..], Offset(a, size), Offset(b, size), size)
    ensures a == b ==> buf[..] == old(buf[..])
  {
    if a != b {
      BlocksDisjoint(a, b, size);
    }
    OffsetIsProduct(a, size);
    OffsetIsProduct(b, size);
    SwapBytes(buf, a * size, b * size, size);
  }

  /** The loop of memswap, on the byte offsets av and bv of the two elements. */
  method SwapBytes(buf: array<byte>, av: nat, bv: nat, size: nat)
    requires av + size <= buf.Length && bv + size <= buf.Length
    requires av == bv || av + size <= bv || bv + size <= av
    modifies buf
    ensures Swapped(old(buf[..]), buf[..], av, bv, size)
    ensures av == bv ==> buf[..] == old(buf[..])
  {
    var i := 0;
    while i < size
      invariant 0 <= i <= size
      invariant forall p :: av <= p < av + i ==> buf[p] == old(buf[p - av + bv])
      invariant forall p :: bv <= p < bv + i ==> buf[p] == old(buf[p - bv + av])
      invariant forall p :: 0 <= p < buf.Length && !(av <= p < av + i) && !(bv <= p < bv + i) ==>
                  buf[p] == old(buf[p])
    {
      if buf[av + i] != buf[bv + i] {
        var tmp := buf[av + i];
        buf[av + i] := buf[bv + i];
        buf[bv + i] := tmp;
      }
      i := i + 1;
    }
  }

  /** After memswap the list of elements is the old list with entries a and
      b exchanged, hence a permutation of it. */
  lemma SwappedBlocks(s: seq<byte>, t: seq<byte>, n: nat, a: nat, b: nat, size: nat)
    requires Offset(n, size) <= |s| && a < n && b < n
    requires Swapped(s, t, Offset(a, size), Offset(b, size), size)
    ensures Blocks(t, n, size) == Blocks(s, n, size)[a := Block(s, b, size)][b := Block(s, a, size)]
    ensures multiset(Blocks(t, n, size)) == multiset(Blocks(s, n, size))
  {
    var bs := Blocks(s, n, size);
    var swapped := bs[a := Block(s, b, size)][b := Block(s, a, size)];
    forall k | 0 <= k < n
      ensures Blocks(t, n, size)[k] == swapped[k]
    {
      BlocksIndex(s, n, size, k);
      SwappedBlockAt(s, t, n, a, b, size, k);
    }
    BlocksIndex(s, n, size, a);
    BlocksIndex(s, n, size, b);
    assert bs[a := bs[b]][b := bs[a]] == swapped;
    SwapKeepsMultiset(bs, a, b);
  }

  lemma SwappedBlockAt(s: seq<byte>, t: seq<byte>, n: nat, a: nat, b: nat, size: nat, k: nat)
    requires Offset(n, size) <= |s| && a < n && b < n && k < n && Offset(k, size) + size <= |s|
    requires Swapped(s, t, Offset(a, size), Offset(b, size), size)
    ensures Blocks(t, n, size)[k] ==
              if k == b then Block(s, a, size) else if k == a then Block(s, b, size) else Block(s, k, size)
  {
    BlocksIndex(t, n, size, k);
    if k == b {
      BlockMovedToB(s, t, a, b, size);
    } else if k == a {
      BlockMovedToA(s, t, a, b, size);
    } else {
      BlocksDisjoint(a, k, size);
      BlocksDisjoint(b, k, size);
      BlockKept(s, t, Offset(a, size), Offset(b, size), k, size);
    }
  }

  /** memswap of two of the first n elements leaves the bytes after them. */
  lemma SwappedTail(s: seq<byte>, t: seq<byte>, n: nat, a: nat, b: nat, size: nat)
    requires Offset(n, size) <= |s| && a < n && b < n
    requires Swapped(s, t, Offset(a, size), Offset(b, size), size)
    ensures t[Offset(n, size)..] == s[Offset(n, size)..]
  {
    OffsetMono(a, n, size);
    OffsetMono(b, n, size);
  }

  /** After memswap element b holds what element a held. */
  lemma BlockMovedToB(s: seq<byte>, t: seq<byte>, a: nat, b: nat, size: nat)
    requires Swapped(s, t, Offset(a, size), Offset(b, size), size)
    ensures Block(t, b, size) == Block(s, a, size)
  {
    var av, bv := Offset(a, size), Offset(b, size);
    forall u | 0 <= u < size
      ensures Block(t, b, size)[u] == Block(s, a, size)[u]
    {
      assert t[bv + u] == s[av + u];
    }
  }

  /** After memswap element a holds what element b held. */
  lemma BlockMovedToA(s: seq<byte>, t: seq<byte>, a: nat, b: nat, size: nat)
    requires Swapped(s, t, Offset(a, size), Offset(b, size), size)
    ensures Block(t, a, size) == Block(s, b, size)
  {
    var av, bv := Offset(a, size), Offset(b, size);
    forall u | 0 <= u < size
      ensures Block(t, a, size)[u] == Block(s, b, size)[u]
    {
      assert t[av + u] == s[bv + u];
    }
  }

  /** memswap leaves every element other than the two it exchanged as it
      was. */
  lemma BlockKept(s: seq<byte>, t: seq<byte>, av: nat, bv: nat, k: nat, size: nat)
    requires Swapped(s, t, av, bv, size) && Offset(k, size) + size <= |s|
    requires av + size <= Offset(k, size) || Offset(k, size) + size <= av
    requires bv + size <= Offset(k, size) || Offset(k, size) + size <= bv
    ensures Block(t, k, size) == Block(s, k, size)
  {
    forall u | 0 <= u < size
      ensures Block(t, k, size)[u] == Block(s, k, size)[u]
    {
      assert t[Offset(k, size) + u] == s[Offset(k, size) + u];
    }
  }

  lemma SwapKeepsMultiset<T>(xs: seq<T>, a: nat, b: nat)
    requires a < |xs| && b < |xs|
    ensures multiset(xs[a := xs[b]][b := xs[a]]) == multiset(xs)
  {
  }

  /** compar(&vec[j], &vec[k]), given the buffer contents and both offsets. */
  type Compar = (seq<byte>, nat, nat) -> int

  /** "Offset a sorts before offset b" is a strict order on offsets < n. */
  predicate StrictOrderOn(cmp: Compar, s: seq<byte>, n: nat)
  {
    (forall a :: 0 <= a < n ==> cmp(s, a, a) >= 0) &&
    (forall a, b, c :: 0 <= a < n && 0 <= b < n && 0 <= c < n && cmp(s, a, b) < 0 && cmp(s, b, c) < 0
       ==> cmp(s, a, c) < 0)
  }

  /**
   * The inner loop of badsort (lines 19-23). It scans every offset j < nmemb,
   * from 0, and moves smallest to j when compar(&vec[j], &vec[smallest]) < 0.
   * No later offset beats the result; when the comparator is a strict order
   * no offset at all does.
   */
  method FindSmallest(buf: array<byte>, nmemb: nat, cmp: Compar, i: nat) returns (smallest: nat)
    requires i < nmemb
    ensures smallest < nmemb
    ensures forall j :: smallest < j < nmemb ==> cmp(buf[..], j, smallest) >= 0
    ensures StrictOrderOn(cmp, buf[..], nmemb) ==>
              forall j :: 0 <= j < nmemb ==> cmp(buf[..], j, smallest) >= 0
  {
    var s := buf[..];
    smallest := i;
    var j := 0;
    while j < nmemb
      invariant 0 <= j <= nmemb && smallest < nmemb
      invariant forall k :: smallest < k < j ==> cmp(s, k, smallest) >= 0
      invariant StrictOrderOn(cmp, s, nmemb) ==> forall k :: 0 <= k < j ==> cmp(s, k, smallest) >= 0
    {
      if cmp(s, j, smallest) < 0 {
        smallest := j;
      }
      j := j + 1;
    }
  }

  /**
   * badsort: every step only exchanges two elements through memswap, so the
   * elements of the buffer end as a permutation of the elements it started
   * with; bytes past the nmemb elements are never written, and with fewer
   * than two elements nothing changes.
   */
  method BadSort(buf: array<byte>, nmemb: nat, size: nat, cmp: Compar)
    requires Offset(nmemb, size) <= buf.Length
    modifies buf
    ensures multiset(Blocks(buf[..], nmemb, size)) == multiset(Blocks(old(buf[..]), nmemb, size))
    ensures buf[Offset(nmemb, size)..] == old(buf[Offset(nmemb, size)..])
    ensures nmemb <= 1 ==> buf[..] == old(buf[..])
  {
    var i := 0;
    while i < nmemb
      invariant 0 <= i <= nmemb
      invariant multiset(Blocks(buf[..], nmemb, size)) == multiset(Blocks(old(buf[..]), nmemb, size))
      invariant buf[Offset(nmemb, size)..] == old(buf[Offset(nmemb, size)..])
      invariant nmemb <= 1 ==> buf[..] == old(buf[..])
    {
      var smallest := FindSmallest(buf, nmemb, cmp, i);
      OffsetMono(i, nmemb, size);
      OffsetMono(smallest, nmemb, size);
      ghost var before := buf[..];
      MemSwap(buf, i, smallest, size);
      SwappedBlocks(before, buf[..], nmemb, i, smallest, size);
      SwappedTail(before, buf[..], nmemb, i, smallest, size);
      i := i + 1;
    }
  }
}
