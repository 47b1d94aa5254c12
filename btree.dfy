// Model of the generic binary tree of 2-11_12_13.c (btnew, btadd, btgetdata,
// btsetdata, btlookup, btapply and btfree used as a visitor). Nodes hold an
// opaque datum and are ordered by a qsort-style comparator; the direction rule
// is that cmp(node, x) < 0 sends x to the LEFT and > 0 to the right.
//
// The tree shape is first given as a value (Tree) with the functions that
// say what btadd, btlookup and btapply compute, and the lemmas about them;
// the node class below is proved against those functions.
module BinTree {
  import opened Common

  datatype Tree<D> = Leaf | Node(left: Tree<D>, data: D, right: Tree<D>)

  /** The data of a tree in in-order (left, node, right). */
  function InOrder<D>(t: Tree<D>): (r: seq<D>)
    ensures t.Node? ==> t.data in r
  {
    match t
    case Leaf => []
    case Node(l, d, r) => InOrder(l) + [d] + InOrder(r)
  }

  /**
   * The search-tree invariant btadd keeps, in the source's direction: every
   * datum d in a node's left subtree has cmp(node, d) < 0 and every datum in
   * its right subtree has cmp(node, d) > 0.
   */
  ghost predicate Ordered<D>(t: Tree<D>, cmp: (D, D) -> int)
  {
    t.Node? ==>
      (forall d :: d in InOrder(t.left) ==> cmp(t.data, d) < 0) &&
      (forall d :: d in InOrder(t.right) ==> cmp(t.data, d) > 0) &&
      Ordered(t.left, cmp) && Ordered(t.right, cmp)
  }

  /**
   * btlookup on the tree value: follow cmp(node, q) (< 0 left, > 0 right)
   * and return the first datum comparing 0 to q.
   */
  function Find<D>(t: Tree<D>, q: D, cmp: (D, D) -> int): (r: Option<D>)
  {
    match t
    case Leaf => None
    case Node(l, d, rt) =>
      var ret := cmp(d, q);
      if ret < 0 then Find(l, q, cmp)
      else if ret == 0 then Some(d)
      else Find(rt, q, cmp)
  }

  /**
   * btadd on the tree value: s (never empty) is linked where the search for
   * its root datum ends; a node comparing 0 on the way stops it and s is
   * dropped.
   */
  function Graft<D>(t: Tree<D>, s: Tree<D>, cmp: (D, D) -> int): (r: Tree<D>)
    requires s.Node?
    ensures r.Node?
  {
    match t
    case Leaf => s
    case Node(l, d, rt) =>
      var ret := cmp(d, s.data);
      if ret < 0 then Node(Graft(l, s, cmp), d, rt)
      else if ret > 0 then Node(l, d, Graft(rt, s, cmp))
      else t
  }

  /** What btadd adds: all of s exactly when btlookup would miss its root
      datum, otherwise nothing. */
  lemma {:induction false} GraftContents<D>(t: Tree<D>, s: Tree<D>, cmp: (D, D) -> int)
    requires s.Node?
    ensures multiset(InOrder(Graft(t, s, cmp))) ==
            multiset(InOrder(t)) + (if Find(t, s.data, cmp) == None then multiset(InOrder(s)) else multiset{})
  {
    match t
    case Leaf =>
    case Node(l, d, rt) =>
      var ret := cmp(d, s.data);
      if ret < 0 {
        GraftContents(l, s, cmp);
      } else if ret > 0 {
        GraftContents(rt, s, cmp);
      }
  }

  /** Adding one node keeps the search-tree invariant. */
  lemma {:induction false} GraftOrdered<D>(t: Tree<D>, x: D, cmp: (D, D) -> int)
    requires Ordered(t, cmp)
    ensures Ordered(Graft(t, Node(Leaf, x, Leaf), cmp), cmp)
  {
    var s := Node(Leaf, x, Leaf);
    assert InOrder(s) == [x];
    match t
    case Leaf =>
    case Node(l, d, rt) =>
      var ret := cmp(d, x);
      if ret < 0 {
        GraftOrdered(l, x, cmp);
        GraftMembers(l, s, cmp);
        var nl := Graft(l, s, cmp);
        forall y | y in InOrder(nl)
          ensures cmp(d, y) < 0
        {
        }
        assert Graft(t, s, cmp) == Node(nl, d, rt);
      } else if ret > 0 {
        GraftOrdered(rt, x, cmp);
        GraftMembers(rt, s, cmp);
        var nr := Graft(rt, s, cmp);
        forall y | y in InOrder(nr)
          ensures cmp(d, y) > 0
        {
        }
        assert Graft(t, s, cmp) == Node(l, d, nr);
      }
  }

  /** Every datum after btadd was in the tree or in the added subtree. */
  lemma GraftMembers<D>(t: Tree<D>, s: Tree<D>, cmp: (D, D) -> int)
    requires s.Node?
    ensures forall y :: y in InOrder(Graft(t, s, cmp)) ==> y in InOrder(t) || y in InOrder(s)
  {
    GraftContents(t, s, cmp);
    forall y | y in InOrder(Graft(t, s, cmp))
      ensures y in InOrder(t) || y in InOrder(s)
    {
      assert y in multiset(InOrder(Graft(t, s, cmp)));
    }
  }

  /** btlookup returns only a datum of the tree that compares 0 to q. */
  lemma {:induction false} FindSound<D>(t: Tree<D>, q: D, cmp: (D, D) -> int)
    ensures Find(t, q, cmp).Some? ==>
              Find(t, q, cmp).value in InOrder(t) && cmp(Find(t, q, cmp).value, q) == 0
  {
    match t
    case Leaf =>
    case Node(l, d, rt) =>
      FindSound(l, q, cmp);
      FindSound(rt, q, cmp);
  }

  function Sign(x: int): int
  {
    if x < 0 then -1 else if x == 0 then 0 else 1
  }

  /** A comparator under which data comparing 0 are interchangeable: they
      compare alike against every datum (true of any qsort comparator that
      orders by a key). */
  ghost predicate Substitutive<D(!new)>(cmp: (D, D) -> int)
  {
    forall a, b, c :: cmp(a, b) == 0 ==> Sign(cmp(c, a)) == Sign(cmp(c, b))
  }

  /** On an ordered tree and a substitutive comparator, a NULL from
      btlookup means no datum of the tree compares 0 to q. */
  lemma {:induction false} FindComplete<D(!new)>(t: Tree<D>, q: D, cmp: (D, D) -> int)
    requires Ordered(t, cmp) && Substitutive(cmp)
    ensures Find(t, q, cmp) == None <==> forall x :: x in InOrder(t) ==> cmp(x, q) != 0
  {
    FindSound(t, q, cmp);
    match t
    case Leaf =>
    case Node(l, d, rt) =>
      FindComplete(l, q, cmp);
      FindComplete(rt, q, cmp);
      var ret := cmp(d, q);
      if ret < 0 {
        forall x | x in InOrder(rt)
          ensures cmp(x, q) != 0
        {
          assert cmp(d, x) > 0;
          assert cmp(x, q) == 0 ==> Sign(cmp(d, x)) == Sign(cmp(d, q));
        }
      } else if ret > 0 {
        forall x | x in InOrder(l)
          ensures cmp(x, q) != 0
        {
          assert cmp(d, x) < 0;
          assert cmp(x, q) == 0 ==> Sign(cmp(d, x)) == Sign(cmp(d, q));
        }
      }
  }

  /** A datum just added is found by btlookup: the search retraces the path
      of the insertion and stops at the new node or at the tie that dropped
      it. */
  lemma {:induction false} FindAfterGraft<D>(t: Tree<D>, x: D, cmp: (D, D) -> int)
    requires cmp(x, x) == 0
    ensures Find(Graft(t, Node(Leaf, x, Leaf), cmp), x, cmp) ==
            (if Find(t, x, cmp) == None then Some(x) else Find(t, x, cmp))
  {
    match t
    case Leaf =>
    case Node(l, d, rt) =>
      FindAfterGraft(l, x, cmp);
      FindAfterGraft(rt, x, cmp);
  }

  /**
   * btapply on the in-order sequence, with the visitor as a function from a
   * datum and the visitor's argument state to its result and the new state:
   * the visitor runs on each datum in turn until it returns nonzero, and that
   * value (or 0 when every call returned 0) is the result.
   */
  function Scan<D, S>(xs: seq<D>, fn: (D, S) -> (int, S), st: S): (r: (int, S))
  {
    if xs == [] then (0, st)
    else
      var (ret, st1) := fn(xs[0], st);
      if ret != 0 then (ret, st1) else Scan(xs[1..], fn, st1)
  }

  /** Scanning a concatenation scans the second part only when the first
      ran to the end. */
  lemma {:induction false} ScanConcat<D, S>(a: seq<D>, b: seq<D>, fn: (D, S) -> (int, S), st: S)
    ensures Scan(a + b, fn, st) ==
            (var (ret, st1) := Scan(a, fn, st); if ret != 0 then (ret, st1) else Scan(b, fn, st1))
  {
    if a == [] {
      assert a + b == b;
    } else {
      assert (a + b)[0] == a[0] && (a + b)[1..] == a[1..] + b;
      ScanConcat(a[1..], b, fn, fn(a[0], st).1);
    }
  }

  /** The result of btapply is 0 or the value of some visitor call. */
  lemma {:induction false} ScanResult<D, S>(xs: seq<D>, fn: (D, S) -> (int, S), st: S)
    ensures Scan(xs, fn, st).0 == 0 || exists k, s :: 0 <= k < |xs| && Scan(xs, fn, st).0 == fn(xs[k], s).0
  {
    if xs != [] {
      var (ret, st1) := fn(xs[0], st);
      if ret == 0 {
        ScanResult(xs[1..], fn, st1);
        if Scan(xs, fn, st).0 != 0 {
          var k, s :| 0 <= k < |xs[1..]| && Scan(xs[1..], fn, st1).0 == fn(xs[1..][k], s).0;
          assert xs[1..][k] == xs[k + 1];
        }
      }
    }
  }

  /** btfree as a visitor: it frees the node and its datum (recorded here as
      the datum joining the freed sequence) and always returns 0. */
  function FreeVisit<D>(d: D, freed: seq<D>): (r: (int, seq<D>))
  {
    (0, freed + [d])
  }

  /** btapply(tree, btfree) returns 0 and frees every datum, in in-order. */
  lemma {:induction false} FreeAll<D>(xs: seq<D>, freed: seq<D>)
    ensures Scan(xs, FreeVisit, freed) == (0, freed + xs)
  {
    if xs == [] {
      assert freed + xs == freed;
    } else {
      assert FreeVisit(xs[0], freed) == (0, freed + [xs[0]]);
      FreeAll(xs[1..], freed + [xs[0]]);
      assert freed + [xs[0]] + xs[1..] == freed + xs;
    }
  }

  /** A node of the tree (struct Btree). Model is the tree rooted here and
      Repr the nodes it is made of. */
  class BtNode<D> {
    var data: D
    var left: BtNode?<D>
    var right: BtNode?<D>
    ghost var Model: Tree<D>
    ghost var Repr: set<object>

    ghost predicate Valid()
      reads this, Repr
      decreases Repr
    {
      this in Repr &&
      (left != null ==>
         left in Repr && left.Repr <= Repr && this !in left.Repr && left.Valid()) &&
      (right != null ==>
         right in Repr && right.Repr <= Repr && this !in right.Repr && right.Valid()) &&
      (left != null && right != null ==> left.Repr !! right.Repr) &&
      Model == Node(ModelOf(left), data, ModelOf(right))
    }

    /** btnew(NULL, datap): a fresh leaf node. */
    constructor (datap: D)
      ensures Valid() && fresh(Repr) && Repr == {this}
      ensures data == datap && left == null && right == null
      ensures Model == Node(Leaf, datap, Leaf)
    {
      data, left, right := datap, null, null;
      Model := Node(Leaf, datap, Leaf);
      Repr := {this};
    }
  }

  /** The tree a possibly NULL node stands for. */
  ghost function ModelOf<D>(n: BtNode?<D>): (t: Tree<D>)
    reads n
  {
    if n == null then Leaf else n.Model
  }

  ghost function ReprOf<D>(n: BtNode?<D>): set<object>
    reads n
  {
    if n == null then {} else n.Repr
  }

  ghost predicate ValidOrNull<D>(n: BtNode?<D>)
    reads n, ReprOf(n)
  {
    n != null ==> n.Valid()
  }

  /**
   * btnew: a node holding datap with both children NULL; a NULL treep asks
   * for a new node, which fails (NULL) when allocation fails, and a
   * non-NULL treep is reused.
   */
  method New<D>(treep: BtNode?<D>, datap: D, allocOk: bool) returns (r: BtNode?<D>)
    modifies treep
    ensures treep == null && !allocOk ==> r == null
    ensures treep != null ==> r == treep
    ensures r != null ==>
              r.Valid() && r.Repr == {r} && r.data == datap && r.left == null && r.right == null &&
              r.Model == Node(Leaf, datap, Leaf)
    ensures treep == null && allocOk ==> r != null && fresh(r)
  {
    if treep == null {
      if !allocOk {
        return null;
      }
      r := new BtNode(datap);
      return;
    }
    treep.data, treep.left, treep.right := datap, null, null;
    treep.Model := Node(Leaf, datap, Leaf);
    treep.Repr := {treep};
    r := treep;
  }

  /** btgetdata: the node's datum, None for NULL. */
  function GetData<D>(treep: BtNode?<D>): (r: Option<D>)
    reads treep
    ensures treep == null <==> r == None
    ensures treep != null ==> r == Some(treep.data)
  {
    if treep == null then None else Some(treep.data)
  }

  /**
   * btsetdata: stores datap and returns the old datum; a NULL node gives
   * None and nothing changes.
   */
  method SetData<D>(treep: BtNode?<D>, datap: D) returns (r: Option<D>)
    requires ValidOrNull(treep)
    modifies treep
    ensures r == old(GetData(treep))
    ensures treep != null ==>
              treep.Valid() && treep.data == datap &&
              treep.Model == old(treep.Model).(data := datap) && treep.Repr == old(treep.Repr)
  {
    if treep == null {
      return None;
    }
    r := GetData(treep);
    treep.data := datap;
    treep.Model := treep.Model.(data := datap);
  }

  /**
   * btadd: links src into dst where the search for src's datum ends and
   * returns the root, which is dst unless dst is NULL (then src). The tree
   * becomes Graft of the old tree and src's tree.
   */
  method Add<D>(dst: BtNode?<D>, src: BtNode<D>, cmp: (D, D) -> int) returns (r: BtNode<D>)
    requires src.Valid() && (dst != null ==> dst.Valid())
    requires dst != null ==> dst.Repr !! src.Repr
    modifies ReprOf(dst)
    decreases ReprOf(dst), 1
    ensures dst == null ==> r == src
    ensures dst != null ==> r == dst
    ensures r.Valid() && r.Model == Graft(old(ModelOf(dst)), old(src.Model), cmp)
    ensures r.Repr <= old(ReprOf(dst)) + old(src.Repr)
  {
    if dst == null {
      return src;
    }
    var ret := cmp(dst.data, src.data);
    if ret < 0 {
      LinkLeft(dst, src, cmp);
    } else if ret > 0 {
      LinkRight(dst, src, cmp);
    }
    r := dst;
  }

  /** The branch of btadd that adds src to the left subtree. */
  method LinkLeft<D>(dst: BtNode<D>, src: BtNode<D>, cmp: (D, D) -> int)
    requires src.Valid() && dst.Valid() && dst.Repr !! src.Repr
    requires cmp(dst.data, src.data) < 0
    modifies dst.Repr
    decreases dst.Repr, 0
    ensures dst.Valid() && dst.Model == Graft(old(dst.Model), old(src.Model), cmp)
    ensures dst.Repr <= old(dst.Repr) + old(src.Repr)
  {
    assert dst.left != null ==> dst.left in dst.left.Repr;
    assert dst.right != null ==> dst.right in dst.right.Repr;
    var l := Add(dst.left, src, cmp);
    dst.left := l;
    dst.Repr := dst.Repr + l.Repr;
    dst.Model := Node(l.Model, dst.data, ModelOf(dst.right));
  }

  /** The branch of btadd that adds src to the right subtree. */
  method LinkRight<D>(dst: BtNode<D>, src: BtNode<D>, cmp: (D, D) -> int)
    requires src.Valid() && dst.Valid() && dst.Repr !! src.Repr
    requires cmp(dst.data, src.data) > 0
    modifies dst.Repr
    decreases dst.Repr, 0
    ensures dst.Valid() && dst.Model == Graft(old(dst.Model), old(src.Model), cmp)
    ensures dst.Repr <= old(dst.Repr) + old(src.Repr)
  {
    assert dst.left != null ==> dst.left in dst.left.Repr;
    assert dst.right != null ==> dst.right in dst.right.Repr;
    var rt := Add(dst.right, src, cmp);
    dst.right := rt;
    dst.Repr := dst.Repr + rt.Repr;
    dst.Model := Node(ModelOf(dst.left), dst.data, rt.Model);
  }

  /**
   * btlookup: the node whose datum compares 0 to datap along the search
   * path, or NULL; it is the node holding Find's answer.
   */
  method Lookup<D>(treep: BtNode?<D>, datap: D, cmp: (D, D) -> int) returns (r: BtNode?<D>)
    requires ValidOrNull(treep)
    decreases ReprOf(treep)
    ensures r == null <==> Find(ModelOf(treep), datap, cmp) == None
    ensures r != null ==> r in ReprOf(treep) && Find(ModelOf(treep), datap, cmp) == Some(r.data)
  {
    if treep == null {
      return null;
    }
    var ret := cmp(treep.data, datap);
    var next;
    if ret < 0 {
      next := treep.left;
    } else if ret == 0 {
      return treep;
    } else {
      next := treep.right;
    }
    r := Lookup(next, datap, cmp);
  }

  /**
   * btapply: visits the left subtree, the node, then the right subtree, and
   * returns at once the first nonzero visitor result; st is the visitor's
   * argument. Both child links are read before the visitor runs.
   */
  method Apply<D, S>(treep: BtNode?<D>, fn: (D, S) -> (int, S), st: S) returns (ret: int, st': S)
    requires ValidOrNull(treep)
    decreases ReprOf(treep)
    ensures (ret, st') == Scan(InOrder(ModelOf(treep)), fn, st)
  {
    if treep == null {
      return 0, st;
    }
    var leftp, rightp := treep.left, treep.right;
    ghost var l, d, rt := InOrder(ModelOf(leftp)), treep.data, InOrder(ModelOf(rightp));
    assert InOrder(ModelOf(treep)) == l + ([d] + rt);
    ScanConcat(l, [d] + rt, fn, st);
    ret, st' := Apply(leftp, fn, st);
    if ret != 0 {
      return;
    }
    ScanConcat([d], rt, fn, st');
    var visited := fn(treep.data, st');
    ret, st' := visited.0, visited.1;
    if ret != 0 {
      return;
    }
    ret, st' := Apply(rightp, fn, st');
  }
}
