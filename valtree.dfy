// Model of the value-frequency tree of 6-4.c: valtree nodes hold a
// VALSIZE-byte value and a count, ordered by memcmp over the first vallen
// bytes (smaller values under prev, larger under next); valmeta holds vallen
// and the root.
//
// Three things the code does that its comments do not say are stated here:
// valtree_lookup stores its recursive result into the link it descended
// through at EVERY level, so each ancestor on the path ends up pointing
// straight at the found (or new, or NULL) node and the nodes between are
// dropped; valmeta_lookup never stores into root, so the tree stays empty
// and every creating lookup yields a fresh detached node with count 1; and
// valtree_apply returns -1 for an empty subtree, so it returns -1 for every
// tree without calling the visitor.
module ValTree {
  import opened Common

  /** MAX(sizeof(size_t), sizeof(void *)) on an LP64 platform. */
  const VALSIZE: nat := 8

  /** memcmp over the first n bytes: the difference of the first differing
      pair of unsigned bytes, 0 when there is none. */
  function MemCmp(a: seq<byte>, b: seq<byte>, n: nat): int
    requires n <= |a| && n <= |b|
  {
    if n == 0 then 0
    else if a[0] != b[0] then a[0] - b[0]
    else MemCmp(a[1..], b[1..], n - 1)
  }

  /** memcmp reports 0 exactly when the first n bytes agree. */
  lemma {:induction false} MemCmpZero(a: seq<byte>, b: seq<byte>, n: nat)
    requires n <= |a| && n <= |b|
    ensures MemCmp(a, b, n) == 0 <==> a[..n] == b[..n]
  {
    if n > 0 {
      MemCmpZero(a[1..], b[1..], n - 1);
      if a[0] == b[0] {
        assert a[..n] == [a[0]] + a[1..][..n - 1];
        assert b[..n] == [b[0]] + b[1..][..n - 1];
      } else {
        assert a[..n][0] != b[..n][0];
      }
    }
  }

  function Zeros(k: nat): (z: seq<byte>)
    ensures |z| == k && forall i :: 0 <= i < k ==> z[i] == 0
  {
    seq(k, i => 0)
  }

  /** The val array of a node made by valtree_new: the first vallen bytes of
      the value, then the zeros calloc left. */
  function NewVal(v: seq<byte>, n: nat): (r: Val)
    requires n <= VALSIZE && n <= |v|
    ensures |r| == VALSIZE && r[..n] == v[..n]
  {
    v[..n] + Zeros(VALSIZE - n)
  }

  /** The val array of a node. */
  type Val = s: seq<byte> | |s| == VALSIZE witness [0, 0, 0, 0, 0, 0, 0, 0]

  /** A subtree as a value: prev subtree, val, cnt, next subtree. */
  datatype VTree = Nil | VNode(prev: VTree, val: Val, cnt: nat, next: VTree)

  /** The values held in a subtree, with multiplicity. */
  function Vals(t: VTree): multiset<Val>
  {
    match t
    case Nil => multiset{}
    case VNode(p, v, _, nx) => Vals(p) + multiset{v} + Vals(nx)
  }

  /** The node of t that a search for v would stop at (memcmp 0), if any:
      the reference search, which changes nothing. */
  function Find(t: VTree, v: seq<byte>, n: nat): (r: VTree)
    requires n <= VALSIZE && n <= |v|
    ensures r.VNode? ==> MemCmp(v, r.val, n) == 0 && r.val in Vals(t)
  {
    match t
    case Nil => Nil
    case VNode(p, tv, _, nx) =>
      var ret := MemCmp(v, tv, n);
      if ret < 0 then Find(p, v, n)
      else if ret == 0 then t
      else Find(nx, v, n)
  }

  /** What valtree_lookup returns, as a subtree after the call: the node
      found with its count incremented, or a new node, or Nil. */
  function Look(t: VTree, v: seq<byte>, n: nat, create: bool, allocOk: bool): VTree
    requires n <= VALSIZE && n <= |v|
  {
    match t
    case Nil => if create && allocOk then VNode(Nil, NewVal(v, n), 1, Nil) else Nil
    case VNode(p, tv, c, nx) =>
      var ret := MemCmp(v, tv, n);
      if ret < 0 then Look(p, v, n, create, allocOk)
      else if ret == 0 then VNode(p, tv, c + 1, nx)
      else Look(nx, v, n, create, allocOk)
  }

  /** The subtree valtree_lookup was called on, after the call: the link it
      went down through now holds what the recursive call returned. */
  function After(t: VTree, v: seq<byte>, n: nat, create: bool, allocOk: bool): VTree
    requires n <= VALSIZE && n <= |v|
  {
    match t
    case Nil => Nil
    case VNode(p, tv, c, nx) =>
      var ret := MemCmp(v, tv, n);
      if ret < 0 then VNode(Look(p, v, n, create, allocOk), tv, c, nx)
      else if ret == 0 then VNode(p, tv, c + 1, nx)
      else VNode(p, tv, c, Look(nx, v, n, create, allocOk))
  }

  /**
   * valtree_lookup's result against the plain search: a value on the search
   * path comes back with its count incremented (the doc comment's promise);
   * otherwise a new node with count 1 when create is set and allocation
   * works, else NULL.
   */
  lemma {:induction false} LookIsFound(t: VTree, v: seq<byte>, n: nat, create: bool, allocOk: bool)
    requires n <= VALSIZE && n <= |v|
    ensures var f := Find(t, v, n);
            Look(t, v, n, create, allocOk) ==
            if f.VNode? then f.(cnt := f.cnt + 1)
            else if create && allocOk then VNode(Nil, NewVal(v, n), 1, Nil)
            else Nil
  {
    match t
    case Nil =>
    case VNode(p, tv, c, nx) =>
      var ret := MemCmp(v, tv, n);
      if ret < 0 {
        LookIsFound(p, v, n, create, allocOk);
      } else if ret > 0 {
        LookIsFound(nx, v, n, create, allocOk);
      }
  }

  /** The node returned holds the value looked up (in its first vallen
      bytes). */
  lemma LookMatches(t: VTree, v: seq<byte>, n: nat, create: bool, allocOk: bool)
    requires n <= VALSIZE && n <= |v|
    ensures Look(t, v, n, create, allocOk).VNode? ==> Look(t, v, n, create, allocOk).val[..n] == v[..n]
  {
    LookIsFound(t, v, n, create, allocOk);
    var f := Find(t, v, n);
    if f.VNode? {
      MemCmpZero(v, f.val, n);
    }
  }

  /** valtree_lookup never adds a node other than the one it creates: the
      values under the node it was called on are a sub-multiset of the old
      ones plus that new value. */
  lemma {:induction false} AfterVals(t: VTree, v: seq<byte>, n: nat, create: bool, allocOk: bool)
    requires n <= VALSIZE && n <= |v|
    ensures Vals(After(t, v, n, create, allocOk)) <=
            Vals(t) + (if create && allocOk then multiset{NewVal(v, n)} else multiset{})
  {
    match t
    case Nil =>
    case VNode(p, tv, c, nx) =>
      var ret := MemCmp(v, tv, n);
      if ret < 0 {
        LookVals(p, v, n, create, allocOk);
      } else if ret > 0 {
        LookVals(nx, v, n, create, allocOk);
      }
  }

  lemma {:induction false} LookVals(t: VTree, v: seq<byte>, n: nat, create: bool, allocOk: bool)
    requires n <= VALSIZE && n <= |v|
    ensures Vals(Look(t, v, n, create, allocOk)) <=
            Vals(t) + (if create && allocOk then multiset{NewVal(v, n)} else multiset{})
  {
    match t
    case Nil =>
    case VNode(p, tv, c, nx) =>
      var ret := MemCmp(v, tv, n);
      if ret < 0 {
        LookVals(p, v, n, create, allocOk);
        assert Vals(p) <= Vals(t);
      } else if ret > 0 {
        LookVals(nx, v, n, create, allocOk);
        assert Vals(nx) <= Vals(t);
      }
  }

  /** The collapse at work: looking up the deepest of three values that
      lie on one path drops the middle one from the tree, although nothing
      was deleted. */
  lemma CollapseDropsMiddle()
    ensures var t := VNode(VNode(VNode(Nil, NewVal([1], 1), 1, Nil), NewVal([2], 1), 1, Nil), NewVal([3], 1), 1, Nil);
            var a := After(t, [1], 1, false, true);
            NewVal([2], 1) in Vals(t) && NewVal([2], 1) !in Vals(a) && |Vals(a)| == 2
  {
    var t1 := VNode(Nil, NewVal([1], 1), 1, Nil);
    var t2 := VNode(t1, NewVal([2], 1), 1, Nil);
    var t := VNode(t2, NewVal([3], 1), 1, Nil);
    assert NewVal([1], 1)[0] == 1 && NewVal([2], 1)[0] == 2 && NewVal([3], 1)[0] == 3;
    assert MemCmp([1], NewVal([3], 1), 1) < 0;
    assert MemCmp([1], NewVal([2], 1), 1) < 0;
    assert MemCmp([1], NewVal([1], 1), 1) == 0;
    assert After(t, [1], 1, false, true) == VNode(VNode(Nil, NewVal([1], 1), 2, Nil), NewVal([3], 1), 1, Nil);
    assert NewVal([2], 1) != NewVal([1], 1) && NewVal([2], 1) != NewVal([3], 1);
  }

  /** A miss without create does not leave the tree alone either: the link
      it went down through is set to NULL, cutting that whole subtree off. */
  lemma MissCutsSubtree()
    ensures var t := VNode(VNode(Nil, NewVal([1], 1), 1, Nil), NewVal([3], 1), 1, Nil);
            After(t, [2], 1, false, true) == VNode(Nil, NewVal([3], 1), 1, Nil)
  {
    assert NewVal([1], 1)[0] == 1 && NewVal([3], 1)[0] == 3;
    assert MemCmp([2], NewVal([3], 1), 1) < 0;
    assert MemCmp([2], NewVal([1], 1), 1) > 0;
  }

  /** valtree_apply on the tree value, with the visitor as a function of the
      node's value, its count and the visitor's argument state. */
  function ApplyV<S>(t: VTree, fn: (Val, nat, S) -> (int, S), st: S): (int, S)
  {
    match t
    case Nil => (-1, st)
    case VNode(p, v, c, nx) =>
      var (r1, s1) := ApplyV(p, fn, st);
      if r1 != 0 then (r1, s1)
      else
        var (r2, s2) := fn(v, c, s1);
        if r2 != 0 then (r2, s2)
        else
          var (r3, s3) := ApplyV(nx, fn, s2);
          if r3 != 0 then (r3, s3) else (0, s3)
  }

  /** valtree_apply fails (-1) on every tree and never runs the visitor:
      the leftmost empty subtree is reached first and its -1 is passed up. */
  lemma {:induction false} ApplyAlwaysFails<S>(t: VTree, fn: (Val, nat, S) -> (int, S), st: S)
    ensures ApplyV(t, fn, st) == (-1, st)
  {
    match t
    case Nil =>
    case VNode(p, v, c, nx) =>
      ApplyAlwaysFails(p, fn, st);
  }

  /** struct valtree. */
  class ValNode {
    var cnt: nat
    var val: Val
    var next: ValNode?
    var prev: ValNode?
    ghost var Model: VTree
    ghost var Repr: set<object>

    ghost predicate Valid()
      reads this, Repr
      decreases Repr
    {
      this in Repr &&
      (prev != null ==>
         prev in Repr && prev.Repr <= Repr && this !in prev.Repr && prev.Valid()) &&
      (next != null ==>
         next in Repr && next.Repr <= Repr && this !in next.Repr && next.Valid()) &&
      (prev != null && next != null ==> prev.Repr !! next.Repr) &&
      Model == VNode(ModelOf(prev), val, cnt, ModelOf(next))
    }

    constructor (v: Val)
      ensures Valid() && fresh(Repr) && Repr == {this}
      ensures cnt == 1 && val == v && prev == null && next == null
      ensures Model == VNode(Nil, v, 1, Nil)
    {
      cnt, val, next, prev := 1, v, null, null;
      Model := VNode(Nil, v, 1, Nil);
      Repr := {this};
    }
  }

  ghost function ModelOf(n: ValNode?): VTree
    reads n
  {
    if n == null then Nil else n.Model
  }

  ghost function ReprOf(n: ValNode?): set<object>
    reads n
  {
    if n == null then {} else n.Repr
  }

  /**
   * valtree_new: a node whose val holds the first vallen bytes of v (the
   * rest zero), with count 1 and both links NULL; NULL when calloc fails.
   */
  method NewNode(vallen: nat, v: seq<byte>, allocOk: bool) returns (r: ValNode?)
    requires vallen <= VALSIZE && vallen <= |v|
    ensures !allocOk <==> r == null
    ensures r != null ==>
              fresh(r) && r.Valid() && r.Repr == {r} && r.cnt == 1 && r.val[..vallen] == v[..vallen] &&
              r.prev == null && r.next == null && r.Model == VNode(Nil, NewVal(v, vallen), 1, Nil)
  {
    if !allocOk {
      return null;
    }
    r := new ValNode(NewVal(v, vallen));
  }

  /**
   * valtree_lookup on vtp: returns the node Look describes, and the node
   * it was called on becomes After of its old subtree. New objects are the
   * created node only.
   */
  method Lookup(vallen: nat, vtp: ValNode?, v: seq<byte>, create: bool, allocOk: bool) returns (r: ValNode?)
    requires vallen <= VALSIZE && vallen <= |v|
    requires vtp != null ==> vtp.Valid()
    modifies ReprOf(vtp)
    decreases ReprOf(vtp), 1
    ensures vtp == null ==> ModelOf(r) == Look(Nil, v, vallen, create, allocOk)
    ensures vtp != null ==> ModelOf(r) == Look(old(vtp.Model), v, vallen, create, allocOk)
    ensures r != null ==> r.Valid() && fresh(r.Repr - old(ReprOf(vtp)))
    ensures vtp != null ==>
              vtp.Valid() && fresh(vtp.Repr - old(vtp.Repr)) &&
              vtp.Model == After(old(vtp.Model), v, vallen, create, allocOk)
  {
    if vtp == null {
      if create {
        r := NewNode(vallen, v, allocOk);
        return;
      }
      return null;
    }
    var ret := MemCmp(v, vtp.val, vallen);
    if ret < 0 {
      r := LookPrev(vallen, vtp, v, create, allocOk);
    } else if ret == 0 {
      vtp.cnt := vtp.cnt + 1;
      vtp.Model := vtp.Model.(cnt := vtp.cnt);
      r := vtp;
    } else {
      r := LookNext(vallen, vtp, v, create, allocOk);
    }
  }

  /** The `ret < 0` branch of valtree_lookup: vtp->prev takes the result. */
  method LookPrev(vallen: nat, vtp: ValNode, v: seq<byte>, create: bool, allocOk: bool) returns (r: ValNode?)
    requires vallen <= VALSIZE && vallen <= |v|
    requires vtp.Valid() && MemCmp(v, vtp.val, vallen) < 0
    modifies vtp.Repr
    decreases vtp.Repr, 0
    ensures r == vtp.prev && ModelOf(r) == Look(old(ModelOf(vtp.prev)), v, vallen, create, allocOk)
    ensures vtp.Valid() && fresh(vtp.Repr - old(vtp.Repr))
    ensures vtp.Model == old(vtp.Model).(prev := ModelOf(r))
  {
    assert vtp.prev != null ==> vtp.prev in vtp.prev.Repr;
    assert vtp.next != null ==> vtp.next in vtp.next.Repr;
    ghost var otherRepr, otherModel := ReprOf(vtp.next), ModelOf(vtp.next);
    r := Lookup(vallen, vtp.prev, v, create, allocOk);
    vtp.prev := r;
    vtp.Repr := {vtp} + ReprOf(r) + otherRepr;
    vtp.Model := VNode(ModelOf(r), vtp.val, vtp.cnt, otherModel);
  }

  /** The `ret > 0` branch of valtree_lookup: vtp->next takes the result. */
  method LookNext(vallen: nat, vtp: ValNode, v: seq<byte>, create: bool, allocOk: bool) returns (r: ValNode?)
    requires vallen <= VALSIZE && vallen <= |v|
    requires vtp.Valid() && MemCmp(v, vtp.val, vallen) > 0
    modifies vtp.Repr
    decreases vtp.Repr, 0
    ensures r == vtp.next && ModelOf(r) == Look(old(ModelOf(vtp.next)), v, vallen, create, allocOk)
    ensures vtp.Valid() && fresh(vtp.Repr - old(vtp.Repr))
    ensures vtp.Model == old(vtp.Model).(next := ModelOf(r))
  {
    assert vtp.prev != null ==> vtp.prev in vtp.prev.Repr;
    assert vtp.next != null ==> vtp.next in vtp.next.Repr;
    ghost var otherRepr, otherModel := ReprOf(vtp.prev), ModelOf(vtp.prev);
    r := Lookup(vallen, vtp.next, v, create, allocOk);
    vtp.next := r;
    vtp.Repr := {vtp} + otherRepr + ReprOf(r);
    vtp.Model := VNode(otherModel, vtp.val, vtp.cnt, ModelOf(r));
  }

  /**
   * valtree_apply: always -1, with the visitor's state untouched (the
   * result is ApplyV's, which ApplyAlwaysFails evaluates).
   */
  method Apply<S>(vtp: ValNode?, fn: (Val, nat, S) -> (int, S), st: S) returns (ret: int, st': S)
    requires vtp != null ==> vtp.Valid()
    decreases ReprOf(vtp)
    ensures (ret, st') == ApplyV(ModelOf(vtp), fn, st)
  {
    ret, st' := -1, st;
    if vtp == null {
      return;
    }
    ret, st' := Apply(vtp.prev, fn, st');
    if ret != 0 {
      return;
    }
    var visited := fn(vtp.val, vtp.cnt, st');
    ret, st' := visited.0, visited.1;
    if ret != 0 {
      return;
    }
    ret, st' := Apply(vtp.next, fn, st');
    if ret != 0 {
      return;
    }
    ret := 0;
  }

  /** struct valmeta: the value length and the root, which nothing but
      valmeta_new's calloc ever sets. */
  class ValMeta {
    var vallen: nat
    var root: ValNode?

    ghost predicate Valid()
      reads this, root, ReprOf(root)
    {
      vallen <= VALSIZE && (root != null ==> root.Valid() && this !in root.Repr)
    }

    constructor (typesize: nat)
      requires typesize <= VALSIZE
      ensures Valid() && vallen == typesize && root == null
    {
      vallen, root := typesize, null;
    }
  }

  /** valmeta_new: vallen set, root NULL; NULL when calloc fails. */
  method MetaNew(typesize: nat, allocOk: bool) returns (vmp: ValMeta?)
    requires typesize <= VALSIZE
    ensures !allocOk <==> vmp == null
    ensures vmp != null ==> fresh(vmp) && vmp.Valid() && vmp.vallen == typesize && vmp.root == null
  {
    if !allocOk {
      return null;
    }
    vmp := new ValMeta(typesize);
  }

  /**
   * valmeta_lookup: valtree_lookup from the root, whose result is never
   * stored in root. Starting from valmeta_new's empty root, a lookup
   * therefore returns a fresh node holding the value with count 1 (or NULL),
   * and the root stays NULL.
   */
  method MetaLookup(vmp: ValMeta, v: seq<byte>, create: bool, allocOk: bool) returns (r: ValNode?)
    requires vmp.Valid() && vmp.vallen <= |v|
    modifies ReprOf(vmp.root)
    ensures vmp.root == old(vmp.root) && vmp.vallen == old(vmp.vallen) && vmp.Valid()
    ensures ModelOf(r) == Look(old(ModelOf(vmp.root)), v, vmp.vallen, create, allocOk)
    ensures old(vmp.root) == null ==>
              (r == null <==> !(create && allocOk)) &&
              (r != null ==> fresh(r) && r.cnt == 1 && r.val[..vmp.vallen] == v[..vmp.vallen])
  {
    r := Lookup(vmp.vallen, vmp.root, v, create, allocOk);
  }

  /** valmeta_apply: valtree_apply from the root, so -1 for every tree. */
  method MetaApply<S>(vmp: ValMeta, fn: (Val, nat, S) -> (int, S), st: S) returns (ret: int, st': S)
    requires vmp.Valid()
    ensures ret == -1 && st' == st
  {
    ret, st' := Apply(vmp.root, fn, st);
    ApplyAlwaysFails(ModelOf(vmp.root), fn, st);
  }
}
