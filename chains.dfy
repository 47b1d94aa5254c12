// Bucket arrays of collision chains, shared by the hash tables of
// 2-15_16_17.c and 3-2_3.c: a table is the sequence of its chains, each chain
// the sequence of the entries linked from that bucket, first node first.
module Chains {

  /** All entries of the table, bucket after bucket, each chain in link order. */
  function Flatten<T>(tab: seq<seq<T>>): seq<T>
  {
    if tab == [] then [] else Flatten(tab[..|tab| - 1]) + tab[|tab| - 1]
  }

  /** A bucket array of `n` NULL chain heads (what calloc or memset leaves). */
  function EmptyTab<T>(n: nat): (tab: seq<seq<T>>)
    ensures |tab| == n && forall b :: 0 <= b < n ==> tab[b] == []
  {
    seq(n, i => [])
  }

  lemma {:induction false} FlattenEmpty<T>(n: nat)
    ensures Flatten(EmptyTab<T>(n)) == []
  {
    if n > 0 {
      assert EmptyTab<T>(n)[..n - 1] == EmptyTab<T>(n - 1);
      FlattenEmpty<T>(n - 1);
    }
  }

  /** Every entry sits in the chain `bucket` assigns it. */
  ghost predicate Placed<T>(tab: seq<seq<T>>, bucket: T -> nat)
  {
    forall b, k :: 0 <= b < |tab| && 0 <= k < |tab[b]| ==> bucket(tab[b][k]) == b
  }

  /** In a placed table an entry is present iff it is in the chain of its own bucket. */
  lemma {:induction false} FlattenMember<T>(tab: seq<seq<T>>, bucket: T -> nat, x: T)
    requires Placed(tab, bucket)
    ensures x in Flatten(tab) <==> bucket(x) < |tab| && x in tab[bucket(x)]
  {
    if tab != [] {
      var pre := tab[..|tab| - 1];
      assert Placed(pre, bucket) by {
        forall b, k | 0 <= b < |pre| && 0 <= k < |pre[b]|
          ensures bucket(pre[b][k]) == b
        {
          assert pre[b] == tab[b];
        }
      }
      FlattenMember(pre, bucket, x);
      var last := tab[|tab| - 1];
      assert Flatten(tab) == Flatten(pre) + last;
      if x in last {
        var k :| 0 <= k < |last| && last[k] == x;
        assert bucket(tab[|tab| - 1][k]) == |tab| - 1;
      }
      if bucket(x) < |pre| {
        assert pre[bucket(x)] == tab[bucket(x)];
      }
    }
  }

  /** Linking an entry at the tail of one chain adds exactly that entry to the table. */
  lemma {:induction false} FlattenAppend<T>(tab: seq<seq<T>>, b: nat, e: T)
    requires b < |tab|
    ensures multiset(Flatten(tab[b := tab[b] + [e]])) == multiset(Flatten(tab)) + multiset{e}
    ensures |Flatten(tab[b := tab[b] + [e]])| == |Flatten(tab)| + 1
  {
    var t := tab[b := tab[b] + [e]];
    var n := |tab|;
    var pre := tab[..n - 1];
    if b == n - 1 {
      assert t[..n - 1] == pre;
      assert Flatten(t) == Flatten(pre) + (tab[b] + [e]);
      assert Flatten(tab) == Flatten(pre) + tab[b];
    } else {
      assert t[..n - 1] == pre[b := pre[b] + [e]];
      FlattenAppend(pre, b, e);
      assert Flatten(t) == Flatten(pre[b := pre[b] + [e]]) + tab[n - 1];
      assert Flatten(tab) == Flatten(pre) + tab[n - 1];
    }
  }

  /** Linking an entry at the head of one chain adds exactly that entry to the table. */
  lemma {:induction false} FlattenPrepend<T>(tab: seq<seq<T>>, b: nat, e: T)
    requires b < |tab|
    ensures multiset(Flatten(tab[b := [e] + tab[b]])) == multiset(Flatten(tab)) + multiset{e}
    ensures |Flatten(tab[b := [e] + tab[b]])| == |Flatten(tab)| + 1
  {
    var t := tab[b := [e] + tab[b]];
    var n := |tab|;
    var pre := tab[..n - 1];
    if b == n - 1 {
      assert t[..n - 1] == pre;
      assert Flatten(t) == Flatten(pre) + ([e] + tab[b]);
      assert Flatten(tab) == Flatten(pre) + tab[b];
    } else {
      assert t[..n - 1] == pre[b := [e] + pre[b]];
      FlattenPrepend(pre, b, e);
      assert Flatten(t) == Flatten(pre[b := [e] + pre[b]]) + tab[n - 1];
      assert Flatten(tab) == Flatten(pre) + tab[n - 1];
    }
  }

  /** A head insertion into the entry's own chain keeps every entry placed. */
  lemma PlacedPrepend<T>(tab: seq<seq<T>>, bucket: T -> nat, b: nat, e: T)
    requires Placed(tab, bucket) && b < |tab| && bucket(e) == b
    ensures Placed(tab[b := [e] + tab[b]], bucket)
  {
    var t := tab[b := [e] + tab[b]];
    forall c, k | 0 <= c < |t| && 0 <= k < |t[c]|
      ensures bucket(t[c][k]) == c
    {
      if c == b && k > 0 {
        assert t[c][k] == tab[b][k - 1];
      }
    }
  }
}
