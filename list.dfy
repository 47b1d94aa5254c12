// Model of 2-7.c (with the List struct of 2-7.h): a generic singly-linked
// list whose operations take a pointer to any node and walk or rewire the
// nextp links from there. A NULL List pointer is a null Node. Each operation
// is given, as a ghost argument, the sequence of nodes its chain runs
// through; the data pointers are values of a type parameter D.
module LinkedList {
  import opened Common

  class Node<D> {
    var data: D
    var next: Node?<D>

    constructor (data: D)
      ensures this.data == data && next == null
    {
      this.data := data;
      next := null;
    }
  }

  /** Each node but the last links to the one after it. */
  ghost predicate Linked<D>(nodes: seq<Node<D>>)
    reads nodes
  {
    forall i :: 0 <= i < |nodes| - 1 ==> nodes[i].next == nodes[i + 1]
  }

  predicate Distinct<D>(nodes: seq<Node<D>>)
  {
    forall i, j :: 0 <= i < j < |nodes| ==> nodes[i] != nodes[j]
  }

  function First<D>(nodes: seq<Node<D>>): Node?<D>
  {
    if nodes == [] then null else nodes[0]
  }

  /** nodes is the NULL-terminated chain that starts at head. */
  ghost predicate Chain<D>(head: Node?<D>, nodes: seq<Node<D>>)
    reads nodes
  {
    head == First(nodes) && Linked(nodes) && Distinct(nodes) &&
    (nodes != [] ==> nodes[|nodes| - 1].next == null)
  }

  lemma LinkedAt<D>(nodes: seq<Node<D>>, k: nat)
    requires Linked(nodes) && k + 1 < |nodes|
    ensures nodes[k].next == nodes[k + 1]
  {
  }

  /** Two linked runs joined by a link from the first's last node. */
  lemma LinkedConcat<D>(a: seq<Node<D>>, b: seq<Node<D>>)
    requires Linked(a) && Linked(b)
    requires a != [] && b != [] ==> a[|a| - 1].next == b[0]
    ensures Linked(a + b)
  {
    var ab := a + b;
    forall i | 0 <= i < |ab| - 1
      ensures ab[i].next == ab[i + 1]
    {
      if i + 1 < |a| {
        LinkedAt(a, i);
      } else if i >= |a| {
        LinkedAt(b, i - |a|);
      }
    }
    assert Linked(ab);
  }

  /** Every part of a linked run is linked. */
  lemma LinkedSlice<D>(a: seq<Node<D>>, lo: nat, hi: nat)
    requires Linked(a) && lo <= hi <= |a|
    ensures Linked(a[lo..hi])
  {
    var s := a[lo..hi];
    forall i | 0 <= i < |s| - 1
      ensures s[i].next == s[i + 1]
    {
      LinkedAt(a, lo + i);
    }
    assert Linked(s);
  }

  /** The reversal of a node sequence. */
  function Reversed<D>(nodes: seq<Node<D>>): (r: seq<Node<D>>)
    ensures |r| == |nodes|
    ensures forall k :: 0 <= k < |nodes| ==> r[k] == nodes[|nodes| - 1 - k]
  {
    seq(|nodes|, k requires 0 <= k < |nodes| => nodes[|nodes| - 1 - k])
  }

  /** listnew: a node holding datap with a NULL next; it reuses listp when
      that is not NULL, otherwise allocates one, and is NULL when the
      allocation fails. */
  method ListNew<D>(listp: Node?<D>, datap: D, allocOk: bool) returns (r: Node?<D>)
    modifies listp
    ensures listp != null ==> r == listp
    ensures listp == null ==> (allocOk <==> r != null) && (r != null ==> fresh(r))
    ensures r != null ==> r.data == datap && r.next == null
  {
    r := listp;
    if r == null {
      if !allocOk {
        return null;
      }
      r := new Node(datap);
    }
    r.next := null;
    r.data := datap;
  }

  /** listgetnext: the next node, NULL for a NULL node. */
  function GetNext<D>(listp: Node?<D>): (r: Node?<D>)
    reads listp
    ensures listp == null ==> r == null
    ensures listp != null ==> r == listp.next
  {
    if listp == null then null else listp.next
  }

  /** listgetdata: the node's data, None for a NULL node. */
  function GetData<D>(listp: Node?<D>): (r: Option<D>)
    reads listp
    ensures listp == null <==> r == None
    ensures listp != null ==> r == Some(listp.data)
  {
    if listp == null then None else Some(listp.data)
  }

  /** listsetnext: links src after dst and returns dst's old next; NULL and
      no change for a NULL dst. */
  method SetNext<D>(dst: Node?<D>, src: Node?<D>) returns (r: Node?<D>)
    modifies dst
    ensures dst == null ==> r == null
    ensures dst != null ==> r == old(dst.next) && dst.next == src && dst.data == old(dst.data)
  {
    if dst == null {
      return null;
    }
    r := GetNext(dst);
    dst.next := src;
  }

  /** listsetdata: stores datap and returns the old data; None and no
      change for a NULL node. */
  method SetData<D>(listp: Node?<D>, datap: D) returns (r: Option<D>)
    modifies listp
    ensures listp == null ==> r == None
    ensures listp != null ==> r == Some(old(listp.data)) && listp.data == datap &&
                              listp.next == old(listp.next)
  {
    if listp == null {
      return None;
    }
    r := GetData(listp);
    listp.data := datap;
  }

  /** The loop that walks from node k of a chain to its last node. */
  method WalkToLast<D>(p: Node<D>, ghost nodes: seq<Node<D>>, ghost k: nat) returns (last: Node<D>)
    requires Linked(nodes) && k < |nodes| && nodes[k] == p && nodes[|nodes| - 1].next == null
    requires forall i :: k <= i < |nodes| - 1 ==> nodes[i].next != null
    ensures last == nodes[|nodes| - 1]
  {
    last := p;
    ghost var j := k;
    while GetNext(last) != null
      invariant j < |nodes| && last == nodes[j]
      decreases |nodes| - j
    {
      if j + 1 < |nodes| {
        LinkedAt(nodes, j);
      }
      last := GetNext(last);
      j := j + 1;
    }
  }

  /**
   * listappend: links src after the last node of dst's chain and returns
   * the last node of the combined chain; for a NULL dst it links nothing
   * and returns NULL.
   */
  method Append<D>(dst: Node?<D>, src: Node?<D>, ghost dn: seq<Node<D>>, ghost sn: seq<Node<D>>)
    returns (r: Node?<D>)
    requires Chain(dst, dn) && Chain(src, sn)
    requires forall i, j :: 0 <= i < |dn| && 0 <= j < |sn| ==> dn[i] != sn[j]
    modifies if dn == [] then {} else {dn[|dn| - 1]}
    ensures dn == [] ==> r == null
    ensures dn != [] ==> Chain(dst, dn + sn) && r == (dn + sn)[|dn + sn| - 1]
    ensures forall i :: 0 <= i < |dn| ==> dn[i].data == old(dn[i].data)
  {
    if dst == null {
      return null;
    }
    NoNullBeforeLast(dn);
    var last := WalkToLast(dst, dn, 0);
    var _ := SetNext(last, src);
    LinkedConcat(dn, sn);
    ghost var all := dn + sn;
    NoNullBeforeLast(all);
    r := WalkToLast(last, all, |dn| - 1);
    assert Chain(dst, all);
  }

  /** In a linked run ending in NULL only the last node links to NULL. */
  lemma NoNullBeforeLast<D>(nodes: seq<Node<D>>)
    requires Linked(nodes)
    ensures forall i :: 0 <= i < |nodes| - 1 ==> nodes[i].next != null
  {
    forall i | 0 <= i < |nodes| - 1
      ensures nodes[i].next != null
    {
      LinkedAt(nodes, i);
    }
  }

  /** listlen: the number of nodes of the chain. */
  method Len<D>(listp: Node?<D>, ghost nodes: seq<Node<D>>) returns (n: nat)
    requires Chain(listp, nodes)
    ensures n == |nodes|
  {
    n := 0;
    var p := listp;
    while p != null
      invariant n <= |nodes| && p == First(nodes[n..])
      decreases |nodes| - n
    {
      if n + 1 < |nodes| {
        LinkedAt(nodes, n);
      }
      p := GetNext(p);
      n := n + 1;
    }
  }

  /** A qsort-style comparator on data pointers. */
  type Compar<!D> = (D, D) -> int

  /**
   * listfinddata: the data of the first node that cmp finds equal to
   * datap, or None when no node matches.
   */
  method FindData<D>(listp: Node?<D>, datap: D, cmp: Compar<D>, ghost nodes: seq<Node<D>>)
    returns (r: Option<D>)
    requires Chain(listp, nodes)
    ensures r == None <==> forall k :: 0 <= k < |nodes| ==> cmp(nodes[k].data, datap) != 0
    ensures r.Some? ==> exists k :: 0 <= k < |nodes| && r.value == nodes[k].data &&
                          cmp(nodes[k].data, datap) == 0 &&
                          forall j :: 0 <= j < k ==> cmp(nodes[j].data, datap) != 0
  {
    var p := listp;
    ghost var n := 0;
    while p != null
      invariant n <= |nodes| && p == First(nodes[n..])
      invariant forall j :: 0 <= j < n ==> cmp(nodes[j].data, datap) != 0
      decreases |nodes| - n
    {
      var d := p.data;
      if cmp(d, datap) == 0 {
        return Some(d);
      }
      if n + 1 < |nodes| {
        LinkedAt(nodes, n);
      }
      p := GetNext(p);
      n := n + 1;
    }
    return None;
  }

  /**
   * listreverse: relinks every node to its predecessor and returns the old
   * last node (NULL for an empty chain). The nodes and their data stay put,
   * so the chain from the result runs through the nodes in reverse order.
   */
  method Reverse<D>(listp: Node?<D>, ghost nodes: seq<Node<D>>) returns (r: Node?<D>)
    requires Chain(listp, nodes)
    modifies nodes
    ensures r == First(Reversed(nodes))
    ensures nodes != [] ==> nodes[0].next == null
    ensures forall k :: 0 < k < |nodes| ==> nodes[k].next == nodes[k - 1]
    ensures forall k :: 0 <= k < |nodes| ==> nodes[k].data == old(nodes[k].data)
  {
    var prevp: Node?<D> := null;
    var p := listp;
    ghost var n := 0;
    while p != null
      invariant n <= |nodes| && p == First(nodes[n..])
      invariant prevp == (if n == 0 then null else nodes[n - 1])
      invariant 0 < n ==> nodes[0].next == null
      invariant forall k :: 0 < k < n ==> nodes[k].next == nodes[k - 1]
      invariant forall k :: n <= k < |nodes| - 1 ==> nodes[k].next == nodes[k + 1]
      invariant n < |nodes| ==> nodes[|nodes| - 1].next == null
      invariant forall k :: 0 <= k < |nodes| ==> nodes[k].data == old(nodes[k].data)
      decreases |nodes| - n
    {
      ghost var following := if n + 1 < |nodes| then nodes[n + 1] else null;
      assert forall k :: 0 <= k < |nodes| && k != n ==> nodes[k] != p;
      var nextp := SetNext(p, prevp);
      assert nextp == following;
      prevp := p;
      p := nextp;
      n := n + 1;
    }
    r := prevp;
  }

  /** After listreverse the nodes form the chain of the reversed sequence. */
  lemma ReversedChain<D>(r: Node?<D>, nodes: seq<Node<D>>)
    requires Distinct(nodes) && r == First(Reversed(nodes))
    requires nodes != [] ==> nodes[0].next == null
    requires forall k :: 0 < k < |nodes| ==> nodes[k].next == nodes[k - 1]
    ensures Chain(r, Reversed(nodes))
  {
    var rev := Reversed(nodes);
    var n := |nodes|;
    forall i | 0 <= i < n - 1
      ensures rev[i].next == rev[i + 1]
    {
      assert rev[i] == nodes[n - 1 - i];
    }
    ReversedDistinct(nodes);
    if n > 0 {
      assert rev[n - 1] == nodes[0];
    }
    assert Linked(rev);
  }

  lemma ReversedDistinct<D>(nodes: seq<Node<D>>)
    requires Distinct(nodes)
    ensures Distinct(Reversed(nodes))
  {
    var rev := Reversed(nodes);
    var n := |nodes|;
    forall i, j | 0 <= i < j < n
      ensures rev[i] != rev[j]
    {
      var a, b := n - 1 - j, n - 1 - i;
      assert rev[i] == nodes[b] && rev[j] == nodes[a] && a < b;
    }
  }

  /** Where listmergeat splices: node pos, or the last node when the chain
      of n nodes is shorter. */
  function MergeIndex(n: nat, pos: nat): nat
  {
    if pos < n - 1 then pos else if n == 0 then 0 else n - 1
  }

  /** The walk of listmergeat: at most pos steps, stopping at the last node. */
  method WalkAtMost<D>(dst: Node?<D>, pos: nat, ghost dn: seq<Node<D>>) returns (p: Node?<D>, i: nat)
    requires Chain(dst, dn)
    ensures i == MergeIndex(|dn|, pos)
    ensures p == First(dn[i..])
  {
    p, i := dst, 0;
    while i < pos
      invariant i <= pos && i <= MergeIndex(|dn|, pos) && p == First(dn[i..])
      decreases pos - i
    {
      if i + 1 < |dn| {
        LinkedAt(dn, i);
      }
      var nextp := GetNext(p);
      if nextp == null {
        break;
      }
      p := nextp;
      i := i + 1;
    }
  }

  /**
   * listmergeat: splices the whole chain of src after node
   * MergeIndex(|dn|, pos) of dst's chain and returns that index; the other
   * nodes keep their order. For a NULL dst nothing is linked and it returns
   * 0.
   */
  method MergeAt<D>(dst: Node?<D>, src: Node?<D>, pos: nat, ghost dn: seq<Node<D>>, ghost sn: seq<Node<D>>)
    returns (i: nat)
    requires Chain(dst, dn) && Chain(src, sn)
    requires forall a, b :: 0 <= a < |dn| && 0 <= b < |sn| ==> dn[a] != sn[b]
    modifies (if dn == [] then {} else {dn[MergeIndex(|dn|, pos)]}) +
             (if dn == [] || sn == [] then {} else {sn[|sn| - 1]})
    ensures i == MergeIndex(|dn|, pos)
    ensures dn != [] ==> Chain(dst, dn[..i + 1] + sn + dn[i + 1..])
    ensures forall a :: 0 <= a < |dn| ==> dn[a].data == old(dn[a].data)
    ensures forall b :: 0 <= b < |sn| ==> sn[b].data == old(sn[b].data)
  {
    var p;
    p, i := WalkAtMost(dst, pos, dn);
    if p == null {
      return;
    }
    ghost var dnext, snext := Nexts(dn), Nexts(sn);
    assert dnext[i] == First(dn[i + 1..]) by {
      if i + 1 < |dn| {
        LinkedAt(dn, i);
      }
    }
    var nextp := SetNext(p, src);
    var last := p;
    if src != null {
      NoNullBeforeLast(sn);
      last := WalkToLast(src, sn, 0);
    }
    var _ := SetNext(last, nextp);
    assert forall a :: 0 <= a < |dn| && a != i ==> dn[a].next == dnext[a];
    assert forall b :: 0 <= b < |sn| - 1 ==> sn[b].next == snext[b];
    MergedChain(dn, sn, i, dnext, snext, nextp);
  }

  /** The links listmergeat leaves: node i links to src's chain (or straight
      to its old successor when src is NULL), whose last node links to that
      successor; every other link is as before. */
  lemma MergedChain<D>(dn: seq<Node<D>>, sn: seq<Node<D>>, i: nat,
                       dnext: seq<Node?<D>>, snext: seq<Node?<D>>, nextp: Node?<D>)
    requires i < |dn| && Distinct(dn) && Distinct(sn)
    requires forall a, b :: 0 <= a < |dn| && 0 <= b < |sn| ==> dn[a] != sn[b]
    requires |dnext| == |dn| && |snext| == |sn|
    requires forall k :: 0 <= k < |dn| - 1 ==> dnext[k] == dn[k + 1]
    requires dnext[|dn| - 1] == null
    requires forall k :: 0 <= k < |sn| - 1 ==> snext[k] == sn[k + 1]
    requires nextp == First(dn[i + 1..])
    requires forall a :: 0 <= a < |dn| && a != i ==> dn[a].next == dnext[a]
    requires forall b :: 0 <= b < |sn| - 1 ==> sn[b].next == snext[b]
    requires sn == [] ==> dn[i].next == nextp
    requires sn != [] ==> dn[i].next == sn[0] && sn[|sn| - 1].next == nextp
    ensures Chain(dn[0], dn[..i + 1] + sn + dn[i + 1..])
  {
    var head, rest := dn[..i + 1], dn[i + 1..];
    forall k | 0 <= k < |head| - 1
      ensures head[k].next == head[k + 1]
    {
      assert head[k] == dn[k] && head[k + 1] == dn[k + 1];
    }
    forall k | 0 <= k < |rest| - 1
      ensures rest[k].next == rest[k + 1]
    {
      assert rest[k] == dn[i + 1 + k] && rest[k + 1] == dn[i + 2 + k];
    }
    assert Linked(head) && Linked(sn) && Linked(rest);
    LinkedConcat(head, sn);
    var mid := head + sn;
    assert mid[|mid| - 1] == (if sn == [] then dn[i] else sn[|sn| - 1]);
    LinkedConcat(mid, rest);
    DistinctConcat(head, sn);
    DistinctConcat(mid, rest);
    var all := mid + rest;
    assert all == dn[..i + 1] + sn + dn[i + 1..];
    if rest != [] {
      assert all[|all| - 1] == dn[|dn| - 1];
    }
  }

  /** Joining two runs with no node in common keeps the nodes distinct. */
  lemma DistinctConcat<D>(a: seq<Node<D>>, b: seq<Node<D>>)
    requires Distinct(a) && Distinct(b)
    requires forall x, y :: 0 <= x < |a| && 0 <= y < |b| ==> a[x] != b[y]
    ensures Distinct(a + b)
  {
    var ab := a + b;
    forall k, l | 0 <= k < l < |ab|
      ensures ab[k] != ab[l]
    {
      if l < |a| {
        assert ab[k] == a[k] && ab[l] == a[l];
      } else if k >= |a| {
        assert ab[k] == b[k - |a|] && ab[l] == b[l - |a|];
      } else {
        assert ab[k] == a[k] && ab[l] == b[l - |a|];
      }
    }
  }

  /** The next links of a run of nodes, as values. */
  ghost function Nexts<D>(nodes: seq<Node<D>>): (r: seq<Node?<D>>)
    reads nodes
    ensures |r| == |nodes| && forall k :: 0 <= k < |nodes| ==> r[k] == nodes[k].next
  {
    seq(|nodes|, k requires 0 <= k < |nodes| reads nodes => nodes[k].next)
  }

  /** The data of a run of nodes, in order. */
  ghost function Datas<D>(nodes: seq<Node<D>>): (r: seq<D>)
    reads nodes
    ensures |r| == |nodes| && forall k :: 0 <= k < |nodes| ==> r[k] == nodes[k].data
  {
    seq(|nodes|, k requires 0 <= k < |nodes| reads nodes => nodes[k].data)
  }

  /**
   * listpopmemb: for 1 <= pos < |nodes| it returns the data of the 1-indexed
   * node pos and removes that entry, by copying node pos + 1 (0-indexed pos)
   * over it and unlinking the copy; so the data of the chain loses entry
   * pos - 1. It returns None and changes nothing when pos is 0 or when the
   * node has no successor, so the last node can never be popped.
   */
  method PopMemb<D>(listp: Node?<D>, pos: nat, ghost nodes: seq<Node<D>>) returns (r: Option<D>)
    requires Chain(listp, nodes)
    modifies if 0 < pos < |nodes| then {nodes[pos - 1]} else {}
    ensures pos == 0 || |nodes| <= pos ==> r == None
    ensures 0 < pos < |nodes| ==>
              r == Some(old(nodes[pos - 1].data)) &&
              Chain(listp, nodes[..pos] + nodes[pos + 1..]) &&
              Datas(nodes[..pos] + nodes[pos + 1..]) == old(Datas(nodes)[..pos - 1] + Datas(nodes)[pos..])
  {
    if pos == 0 {
      return None;
    }
    var prevp, p := WalkPair(listp, pos, nodes);
    if p == null {
      return None;
    }
    ghost var before := Datas(nodes);
    ghost var nx := Nexts(nodes);
    assert forall k :: 0 <= k < |nodes| - 1 ==> nx[k] == nodes[k + 1];
    assert nx[pos] == First(nodes[pos + 1..]) by {
      if pos + 1 < |nodes| {
        LinkedAt(nodes, pos);
      }
    }
    r := Some(prevp.data);
    prevp.data, prevp.next := p.data, p.next;
    PoppedChain(nodes, pos, nx);
    PoppedDatas(nodes, pos, before);
  }

  /** The walk of listpopmemb: pos steps from the head, keeping the node
      before; it stops at NULL when the chain is shorter. */
  method WalkPair<D>(listp: Node?<D>, pos: nat, ghost nodes: seq<Node<D>>)
    returns (prevp: Node?<D>, p: Node?<D>)
    requires Chain(listp, nodes) && 0 < pos
    ensures pos < |nodes| ==> prevp == nodes[pos - 1] && p == nodes[pos]
    ensures |nodes| <= pos ==> p == null
  {
    prevp, p := null, listp;
    var i := 0;
    while i < pos
      invariant i <= pos && i <= |nodes| && p == First(nodes[i..])
      invariant i > 0 ==> prevp == nodes[i - 1]
      decreases pos - i
    {
      prevp := p;
      if i + 1 < |nodes| {
        LinkedAt(nodes, i);
      }
      p := GetNext(p);
      if p == null {
        return;
      }
      i := i + 1;
    }
  }

  /** The links after listpopmemb copies node pos over node pos - 1. */
  lemma PoppedChain<D>(nodes: seq<Node<D>>, pos: nat, nx: seq<Node?<D>>)
    requires 0 < pos < |nodes| && Distinct(nodes) && |nx| == |nodes|
    requires forall k :: 0 <= k < |nodes| - 1 ==> nx[k] == nodes[k + 1]
    requires nx[|nodes| - 1] == null
    requires forall k :: 0 <= k < |nodes| && k != pos - 1 ==> nodes[k].next == nx[k]
    requires nodes[pos - 1].next == nx[pos]
    ensures Chain(nodes[0], nodes[..pos] + nodes[pos + 1..])
  {
    var head, rest := nodes[..pos], nodes[pos + 1..];
    forall k | 0 <= k < |head| - 1
      ensures head[k].next == head[k + 1]
    {
      assert head[k] == nodes[k] && head[k + 1] == nodes[k + 1];
    }
    forall k | 0 <= k < |rest| - 1
      ensures rest[k].next == rest[k + 1]
    {
      assert rest[k] == nodes[pos + 1 + k] && rest[k + 1] == nodes[pos + 2 + k];
    }
    assert Linked(head) && Linked(rest);
    LinkedConcat(head, rest);
    forall x, y | 0 <= x < |head| && 0 <= y < |rest|
      ensures head[x] != rest[y]
    {
      assert head[x] == nodes[x] && rest[y] == nodes[pos + 1 + y];
    }
    DistinctSlice(nodes, 0, pos);
    DistinctSlice(nodes, pos + 1, |nodes|);
    DistinctConcat(head, rest);
    var all := head + rest;
    if rest != [] {
      assert all[|all| - 1] == nodes[|nodes| - 1];
    } else {
      assert all[|all| - 1] == nodes[pos - 1];
    }
  }

  lemma DistinctSlice<D>(a: seq<Node<D>>, lo: nat, hi: nat)
    requires Distinct(a) && lo <= hi <= |a|
    ensures Distinct(a[lo..hi])
  {
    var s := a[lo..hi];
    forall k, l | 0 <= k < l < |s|
      ensures s[k] != s[l]
    {
      assert s[k] == a[lo + k] && s[l] == a[lo + l];
    }
  }

  /** The data after listpopmemb: entry pos - 1 of the old data is gone. */
  lemma PoppedDatas<D>(nodes: seq<Node<D>>, pos: nat, before: seq<D>)
    requires 0 < pos < |nodes| && |before| == |nodes|
    requires forall k :: 0 <= k < |nodes| && k != pos - 1 ==> nodes[k].data == before[k]
    requires nodes[pos - 1].data == before[pos]
    ensures Datas(nodes[..pos] + nodes[pos + 1..]) == before[..pos - 1] + before[pos..]
  {
    var after := Datas(nodes[..pos] + nodes[pos + 1..]);
    var want := before[..pos - 1] + before[pos..];
    forall k | 0 <= k < |after|
      ensures after[k] == want[k]
    {
      if k < pos - 1 {
        assert (nodes[..pos] + nodes[pos + 1..])[k] == nodes[k];
      } else if k == pos - 1 {
        assert (nodes[..pos] + nodes[pos + 1..])[k] == nodes[pos - 1];
      } else {
        assert (nodes[..pos] + nodes[pos + 1..])[k] == nodes[k + 1];
      }
    }
  }
}
