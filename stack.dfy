// Model of 2-1.c: a generic LIFO stack of fixed-size byte buffers kept as a
// linked chain of frames, and the element helpers memswap and ncmp that the
// file's quicksort uses. Buffers are byte arrays; a NULL gstack pointer is a
// null GStack. The byte-swapping loop of memswap is the one 2-4.c has, so
// the same-buffer case reuses BadSort.SwapBytes and its block lemmas.
module Stack {
  import opened Common
  import opened BadSort

  /** A frame of the chain: the bytes of the buffer it owns and the frame
      beneath it. */
  class Frame {
    var prev: Frame?
    var buf: seq<byte>

    constructor (prev: Frame?, buf: seq<byte>)
      ensures this.prev == prev && this.buf == buf
    {
      this.prev := prev;
      this.buf := buf;
    }
  }

  /** frames is the chain that starts at top and ends in NULL, and frame i
      holds contents[i]. */
  ghost predicate Linked(top: Frame?, frames: seq<Frame>, contents: seq<seq<byte>>)
    reads frames
  {
    |contents| == |frames| &&
    top == (if frames == [] then null else frames[0]) &&
    forall i :: 0 <= i < |frames| ==>
      frames[i].buf == contents[i] &&
      frames[i].prev == (if i + 1 < |frames| then frames[i + 1] else null)
  }

  lemma LinkedAt(top: Frame?, frames: seq<Frame>, contents: seq<seq<byte>>, k: nat)
    requires Linked(top, frames, contents) && k < |frames|
    ensures frames[k].buf == contents[k]
    ensures frames[k].prev == (if k + 1 < |frames| then frames[k + 1] else null)
  {
  }

  /** Below the top frame lies the chain of the remaining frames. */
  lemma LinkedTail(top: Frame, frames: seq<Frame>, contents: seq<seq<byte>>)
    requires Linked(top, frames, contents)
    ensures frames != [] && top.buf == contents[0] && Linked(top.prev, frames[1..], contents[1..])
  {
    var rest, more := frames[1..], contents[1..];
    LinkedAt(top, frames, contents, 0);
    forall i | 0 <= i < |rest|
      ensures rest[i].buf == more[i]
      ensures rest[i].prev == (if i + 1 < |rest| then rest[i + 1] else null)
    {
      assert rest[i] == frames[i + 1];
      LinkedAt(top, frames, contents, i + 1);
    }
    assert Linked(top.prev, rest, more);
  }

  /** A frame pushed on top of the chain starting at top. */
  lemma LinkedPush(fp: Frame, top: Frame?, frames: seq<Frame>, contents: seq<seq<byte>>)
    requires Linked(top, frames, contents) && fp.prev == top
    ensures Linked(fp, [fp] + frames, [fp.buf] + contents)
  {
    var all, more := [fp] + frames, [fp.buf] + contents;
    assert all[0] == fp && (frames != [] ==> all[1] == frames[0]);
    forall i | 1 <= i < |all|
      ensures all[i].buf == more[i]
      ensures all[i].prev == (if i + 1 < |all| then all[i + 1] else null)
    {
      assert all[i] == frames[i - 1];
      LinkedAt(top, frames, contents, i - 1);
    }
    assert Linked(fp, all, more);
  }

  class GStack {
    var bufsize: nat
    var top: Frame?
    /** The frames from the top down. */
    ghost var frames: seq<Frame>
    /** The buffers' contents from the top down. */
    ghost var Contents: seq<seq<byte>>
    ghost var Repr: set<object>

    ghost predicate Valid()
      reads this, Repr
    {
      this in Repr &&
      (forall i :: 0 <= i < |frames| ==> frames[i] in Repr) &&
      (forall i :: 0 <= i < |Contents| ==> |Contents[i]| == bufsize) &&
      Linked(top, frames, Contents)
    }

    /** The empty stack stacknew fills in. */
    constructor (size: nat)
      ensures Valid() && fresh(Repr) && bufsize == size && top == null && Contents == []
    {
      bufsize := size;
      top := null;
      frames := [];
      Contents := [];
      Repr := {this};
    }

    /**
     * stackpush: puts on top a fresh frame whose buffer holds a copy of the
     * first bufsize bytes of base; the old top lies beneath it. When either
     * allocation fails (allocOk false) it returns -1 and the stack is
     * unchanged.
     */
    method Push(base: array<byte>, allocOk: bool) returns (r: int)
      requires Valid() && bufsize <= base.Length
      modifies this
      ensures Valid() && fresh(Repr - old(Repr)) && bufsize == old(bufsize)
      ensures allocOk ==> r == 0 && Contents == [old(base[..bufsize])] + old(Contents)
      ensures !allocOk ==> r == -1 && Contents == old(Contents) && top == old(top)
    {
      if !allocOk {
        return -1;
      }
      var fp := new Frame(top, base[..bufsize]);
      LinkedPush(fp, top, frames, Contents);
      top := fp;
      frames := [fp] + frames;
      Contents := [fp.buf] + Contents;
      Repr := Repr + {fp};
      r := 0;
    }
  }

  /** stacknew: a new empty stack for buffers of size bytes, or NULL when
      the allocation fails. */
  method StackNew(size: nat, allocOk: bool) returns (sp: GStack?)
    ensures allocOk ==> sp != null && fresh(sp.Repr) && sp.Valid() &&
                        sp.bufsize == size && sp.top == null && sp.Contents == []
    ensures !allocOk ==> sp == null
  {
    if !allocOk {
      return null;
    }
    sp := new GStack(size);
  }

  /**
   * stackpop: NULL for a NULL or empty stack; otherwise unlinks the top
   * frame and hands its buffer to the caller. The frame is not reused, so
   * it stays in the footprint.
   */
  method StackPop(sp: GStack?) returns (r: Option<seq<byte>>)
    requires sp != null ==> sp.Valid()
    modifies sp
    ensures sp == null ==> r == None
    ensures sp != null ==> sp.Valid() && sp.Repr == old(sp.Repr) && sp.bufsize == old(sp.bufsize)
    ensures sp != null && old(sp.Contents) == [] ==> r == None && sp.Contents == []
    ensures sp != null && old(sp.Contents) != [] ==>
              r == Some(old(sp.Contents[0])) && sp.Contents == old(sp.Contents[1..])
  {
    if sp == null || sp.top == null {
      return None;
    }
    var fp := sp.top;
    LinkedTail(fp, sp.frames, sp.Contents);
    sp.top := fp.prev;
    r := Some(fp.buf);
    sp.frames := sp.frames[1..];
    sp.Contents := sp.Contents[1..];
  }

  /** stackdel: releases every frame and buffer; the model leaves the stack
      empty. */
  method StackDel(sp: GStack?)
    requires sp != null ==> sp.Valid()
    modifies sp
    ensures sp != null ==> sp.Valid() && sp.top == null && sp.Contents == []
  {
    if sp == null {
      return;
    }
    while sp.top != null
      invariant sp.Valid()
      decreases |sp.frames|
    {
      var fp := sp.top;
      LinkedTail(fp, sp.frames, sp.Contents);
      sp.top := fp.prev;
      sp.frames := sp.frames[1..];
      sp.Contents := sp.Contents[1..];
      }
  }

  /** A pop right after a successful push gives back the pushed bytes and
      leaves the stack as it was. */
  method PushThenPop(sp: GStack, base: array<byte>) returns (r: Option<seq<byte>>)
    requires sp.Valid() && sp.bufsize <= base.Length
    modifies sp
    ensures sp.Valid() && sp.Contents == old(sp.Contents) && sp.bufsize == old(sp.bufsize)
    ensures r == Some(base[..sp.bufsize])
  {
    var ok := sp.Push(base, true);
    r := StackPop(sp);
  }

  /** t is s with the size bytes at offset av taken from u at offset bv. */
  predicate Spliced(s: seq<byte>, t: seq<byte>, av: nat, u: seq<byte>, bv: nat, size: nat)
  {
    |t| == |s| && av + size <= |s| && bv + size <= |u| &&
    (forall p :: av <= p < av + size ==> t[p] == u[p - av + bv]) &&
    (forall p :: 0 <= p < |s| && !(av <= p < av + size) ==> t[p] == s[p])
  }

  /**
   * memswap: exchanges element a of abase with element b of bbase byte by
   * byte. On one buffer it is the swap of 2-4.c (a no-op when a == b); on
   * two buffers each receives the other's element and nothing else changes.
   */
  method MemSwap(abase: array<byte>, a: nat, bbase: array<byte>, b: nat, size: nat)
    requires Offset(a, size) + size <= abase.Length && Offset(b, size) + size <= bbase.Length
    modifies abase, bbase
    ensures abase == bbase ==> Swapped(old(abase[..]), abase[..], Offset(a, size), Offset(b, size), size)
    ensures abase == bbase && a == b ==> abase[..] == old(abase[..])
    ensures abase != bbase ==>
              Spliced(old(abase[..]), abase[..], Offset(a, size), old(bbase[..]), Offset(b, size), size) &&
              Spliced(old(bbase[..]), bbase[..], Offset(b, size), old(abase[..]), Offset(a, size), size)
  {
    if abase == bbase && a != b {
      BlocksDisjoint(a, b, size);
    }
    OffsetIsProduct(a, size);
    OffsetIsProduct(b, size);
    if abase == bbase {
      SwapBytes(abase, a * size, b * size, size);
    } else {
      SwapAcross(abase, a * size, bbase, b * size, size);
    }
  }

  /** The loop of memswap when the two elements lie in different buffers. */
  method SwapAcross(abuf: array<byte>, av: nat, bbuf: array<byte>, bv: nat, size: nat)
    requires abuf != bbuf && av + size <= abuf.Length && bv + size <= bbuf.Length
    modifies abuf, bbuf
    ensures Spliced(old(abuf[..]), abuf[..], av, old(bbuf[..]), bv, size)
    ensures Spliced(old(bbuf[..]), bbuf[..], bv, old(abuf[..]), av, size)
  {
    var i := 0;
    while i < size
      invariant 0 <= i <= size
      invariant forall p :: av <= p < av + i ==> abuf[p] == old(bbuf[p - av + bv])
      invariant forall p :: bv <= p < bv + i ==> bbuf[p] == old(abuf[p - bv + av])
      invariant forall p :: 0 <= p < abuf.Length && !(av <= p < av + i) ==> abuf[p] == old(abuf[p])
      invariant forall p :: 0 <= p < bbuf.Length && !(bv <= p < bv + i) ==> bbuf[p] == old(bbuf[p])
    {
      if abuf[av + i] != bbuf[bv + i] {
        var tmp := abuf[av + i];
        abuf[av + i] := bbuf[bv + i];
        bbuf[bv + i] := tmp;
      }
      i := i + 1;
    }
  }

  /** After memswap across two buffers, element a of the first holds what
      element b of the second held. */
  lemma SplicedBlock(s: seq<byte>, t: seq<byte>, a: nat, u: seq<byte>, b: nat, size: nat)
    requires Spliced(s, t, Offset(a, size), u, Offset(b, size), size)
    ensures Block(t, a, size) == Block(u, b, size)
  {
    var av, bv := Offset(a, size), Offset(b, size);
    forall p | 0 <= p < size
      ensures Block(t, a, size)[p] == Block(u, b, size)[p]
    {
      assert t[av + p] == u[bv + p];
    }
  }

  /** A qsort-style comparator applied to two elements of size bytes. */
  type Compar = (seq<byte>, seq<byte>) -> int

  /** ncmp: cmp applied to element a of abase and element b of bbase. */
  function Ncmp(abase: seq<byte>, a: nat, bbase: seq<byte>, b: nat, size: nat, cmp: Compar): (r: int)
    requires Offset(a, size) + size <= |abase| && Offset(b, size) + size <= |bbase|
    // the elements start at byte a * size and b * size, as `&avec[a * size]` addresses them
    ensures a * size + size <= |abase| && b * size + size <= |bbase|
    ensures r == cmp(abase[a * size..a * size + size], bbase[b * size..b * size + size])
  {
    OffsetIsProduct(a, size);
    OffsetIsProduct(b, size);
    cmp(Block(abase, a, size), Block(bbase, b, size))
  }

  /** After memswap of elements a and b of one buffer, comparing a with b
      gives what comparing b with a gave before. */
  lemma NcmpAfterSwap(s: seq<byte>, t: seq<byte>, a: nat, b: nat, size: nat, cmp: Compar)
    requires Offset(a, size) + size <= |s| && Offset(b, size) + size <= |s|
    requires Swapped(s, t, Offset(a, size), Offset(b, size), size)
    ensures Ncmp(t, a, t, b, size, cmp) == Ncmp(s, b, s, a, size, cmp)
  {
    BlockMovedToA(s, t, a, b, size);
    BlockMovedToB(s, t, a, b, size);
  }

  /** After memswap across two buffers, comparing the two elements gives
      what comparing them the other way round gave before. */
  lemma NcmpAfterSwapAcross(s: seq<byte>, t: seq<byte>, a: nat, u: seq<byte>, w: seq<byte>, b: nat,
                            size: nat, cmp: Compar)
    requires Offset(a, size) + size <= |s| && Offset(b, size) + size <= |u|
    requires Spliced(s, t, Offset(a, size), u, Offset(b, size), size)
    requires Spliced(u, w, Offset(b, size), s, Offset(a, size), size)
    ensures Ncmp(t, a, w, b, size, cmp) == Ncmp(u, b, s, a, size, cmp)
  {
    SplicedBlock(s, t, a, u, b, size);
    SplicedBlock(u, w, b, s, a, size);
  }
}
