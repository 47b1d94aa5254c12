// Model of quicksort.c: Hoare's quicksort with a random pivot and Lomuto's
// partition, sorting v[0..n) in place. A pointer v + k is an array together
// with an offset lo; arc4random_uniform is a parameter (see Quicksort).
module Quicksort {

  predicate Sorted(s: seq<int>)
  {
    forall i, j :: 0 <= i < j < |s| ==> s[i] <= s[j]
  }

  predicate AllBelow(s: seq<int>, p: int)
  {
    forall k :: 0 <= k < |s| ==> s[k] < p
  }

  predicate AllAtLeast(s: seq<int>, p: int)
  {
    forall k :: 0 <= k < |s| ==> s[k] >= p
  }

  /** A bound on every element survives any reordering. */
  lemma PermutationKeepsBounds(s: seq<int>, t: seq<int>, p: int)
    requires multiset(s) == multiset(t)
    ensures AllBelow(s, p) ==> AllBelow(t, p)
    ensures AllAtLeast(s, p) ==> AllAtLeast(t, p)
  {
    forall k | 0 <= k < |t|
      ensures t[k] in multiset(s)
    {
      assert t[k] in multiset(t);
    }
  }

  /** A sorted smaller part, the pivot and a sorted part that is not smaller
      form a sorted sequence. */
  lemma SortedAroundPivot(l: seq<int>, p: int, r: seq<int>)
    requires Sorted(l) && AllBelow(l, p) && Sorted(r) && AllAtLeast(r, p)
    ensures Sorted(l + [p] + r)
  {
  }

  /** b is a reordering of a that leaves every position outside [lo, hi)
      alone. */
  predicate PermutedIn(a: seq<int>, b: seq<int>, lo: nat, hi: nat)
  {
    lo <= hi <= |a| == |b| && multiset(a) == multiset(b) &&
    forall k :: 0 <= k < |a| && !(lo <= k < hi) ==> a[k] == b[k]
  }

  lemma PermutedInTrans(a: seq<int>, b: seq<int>, c: seq<int>, lo: nat, hi: nat)
    requires PermutedIn(a, b, lo, hi) && PermutedIn(b, c, lo, hi)
    ensures PermutedIn(a, c, lo, hi)
  {
  }

  /** A reordering inside a sub-range is a reordering inside any larger range. */
  lemma PermutedInWiden(a: seq<int>, b: seq<int>, lo: nat, hi: nat, lo': nat, hi': nat)
    requires PermutedIn(a, b, lo, hi) && lo' <= lo && hi <= hi' <= |a|
    ensures PermutedIn(a, b, lo', hi')
  {
  }

  /** A reordering confined to [lo, hi) permutes the slice [lo, hi) and keeps
      the parts before and after it. */
  lemma PermutedInSlices(a: seq<int>, b: seq<int>, lo: nat, hi: nat)
    requires PermutedIn(a, b, lo, hi)
    ensures a[..lo] == b[..lo] && a[hi..] == b[hi..]
    ensures multiset(a[lo..hi]) == multiset(b[lo..hi])
  {
    assert a[..lo] == b[..lo];
    assert a[hi..] == b[hi..];
    assert a == a[..lo] + a[lo..hi] + a[hi..];
    assert b == b[..lo] + b[lo..hi] + b[hi..];
    assert multiset(a) == multiset(a[..lo]) + multiset(a[lo..hi]) + multiset(a[hi..]);
    assert multiset(b) == multiset(b[..lo]) + multiset(b[lo..hi]) + multiset(b[hi..]);
    assert multiset(a[lo..hi]) == multiset(a) - multiset(a[..lo]) - multiset(a[hi..]);
    assert multiset(b[lo..hi]) == multiset(b) - multiset(b[..lo]) - multiset(b[hi..]);
  }

  /** swap: interchanges v[i] and v[j] and nothing else. */
  method Swap(v: array<int>, i: nat, j: nat)
    requires i < v.Length && j < v.Length
    modifies v
    ensures v[i] == old(v[j]) && v[j] == old(v[i])
    ensures forall k :: 0 <= k < v.Length && k != i && k != j ==> v[k] == old(v[k])
    ensures multiset(v[..]) == multiset(old(v[..]))
  {
    var temp := v[i];
    v[i] := v[j];
    v[j] := temp;
    assert v[..] == old(v[..])[i := old(v[j])][j := old(v[i])];
  }

  /**
   * Lines 12-17 of quicksort: the element at lo + p is swapped to the front
   * and used as pivot; on return v[lo + last] holds that pivot, everything
   * before it in the range is smaller, everything after it is not, and the
   * range is a permutation of what it was.
   */
  method Partition(v: array<int>, lo: nat, n: nat, p: nat) returns (last: nat)
    requires p < n && lo + n <= v.Length
    modifies v
    ensures last < n
    ensures v[lo + last] == old(v[lo + p])
    ensures AllBelow(v[lo..lo + last], v[lo + last])
    ensures AllAtLeast(v[lo + last + 1..lo + n], v[lo + last])
    ensures PermutedIn(old(v[..]), v[..], lo, lo + n)
  {
    Swap(v, lo, lo + p);
    ghost var swapped := v[..];
    last := PartitionLoop(v, lo, n);
    PermutedInTrans(old(v[..]), swapped, v[..], lo, lo + n);
    ghost var looped := v[..];
    RestorePivot(v, lo, n, last);
    PermutedInTrans(old(v[..]), looped, v[..], lo, lo + n);
  }

  /** Line 17: swapping the pivot from v[lo] to v[lo + last] puts it between
      the smaller and the not smaller elements. */
  method RestorePivot(v: array<int>, lo: nat, n: nat, last: nat)
    requires last < n && lo + n <= v.Length
    requires forall k :: lo + 1 <= k <= lo + last ==> v[k] < v[lo]
    requires forall k :: lo + last + 1 <= k < lo + n ==> v[k] >= v[lo]
    modifies v
    ensures v[lo + last] == old(v[lo])
    ensures AllBelow(v[lo..lo + last], v[lo + last])
    ensures AllAtLeast(v[lo + last + 1..lo + n], v[lo + last])
    ensures PermutedIn(old(v[..]), v[..], lo, lo + n)
  {
    Swap(v, lo, lo + last);
  }

  /** The loop of lines 14-16: v[lo+1..lo+last] ends below the pivot v[lo]
      and v[lo+last+1..lo+n) not below it. */
  method PartitionLoop(v: array<int>, lo: nat, n: nat) returns (last: nat)
    requires 1 <= n && lo + n <= v.Length
    modifies v
    ensures last < n && v[lo] == old(v[lo])
    ensures forall k :: lo + 1 <= k <= lo + last ==> v[k] < v[lo]
    ensures forall k :: lo + last + 1 <= k < lo + n ==> v[k] >= v[lo]
    ensures PermutedIn(old(v[..]), v[..], lo, lo + n)
  {
    var pivot := v[lo];
    last := 0;
    var i := 1;
    while i < n
      invariant 1 <= i <= n && last < i
      invariant v[lo] == pivot
      invariant forall k :: lo + 1 <= k <= lo + last ==> v[k] < pivot
      invariant forall k :: lo + last + 1 <= k < lo + i ==> v[k] >= pivot
      invariant PermutedIn(old(v[..]), v[..], lo, lo + n)
    {
      if v[lo + i] < pivot {
        last := last + 1;
        Swap(v, lo + last, lo + i);
      }
      i := i + 1;
    }
  }

  /**
   * quicksort: v[lo..lo+n) ends sorted and a permutation of its old contents;
   * the rest of v is untouched. Each call's pivot is position
   * uniform(lo, n) % n, so the proof covers every value arc4random_uniform(n)
   * could return; when n <= 1 nothing is touched.
   */
  method Quicksort(v: array<int>, lo: nat, n: nat, uniform: (nat, nat) -> nat)
    requires lo + n <= v.Length
    modifies v
    ensures Sorted(v[lo..lo + n])
    ensures PermutedIn(old(v[..]), v[..], lo, lo + n)
    ensures n <= 1 ==> v[..] == old(v[..])
    decreases n
  {
    if n <= 1 {
      return;
    }
    ghost var v0 := v[..];
    var last := Partition(v, lo, n, uniform(lo, n) % n);
    ghost var v1 := v[..];
    Quicksort(v, lo, last, uniform);
    ghost var v2 := v[..];
    Quicksort(v, lo + last + 1, n - last - 1, uniform);
    SortedAfterRecursion(v1, v2, v[..], lo, last, n);
    PermutedInTrans(v0, v1, v[..], lo, lo + n);
  }

  /** The recursive calls of lines 18-19 sort both sides of a partitioned
      range, which sorts the whole range. */
  lemma SortedAfterRecursion(v1: seq<int>, v2: seq<int>, v3: seq<int>, lo: nat, last: nat, n: nat)
    requires lo + last < lo + n <= |v1|
    requires AllBelow(v1[lo..lo + last], v1[lo + last])
    requires AllAtLeast(v1[lo + last + 1..lo + n], v1[lo + last])
    requires PermutedIn(v1, v2, lo, lo + last) && Sorted(v2[lo..lo + last])
    requires PermutedIn(v2, v3, lo + last + 1, lo + n) && Sorted(v3[lo + last + 1..lo + n])
    ensures Sorted(v3[lo..lo + n]) && PermutedIn(v1, v3, lo, lo + n)
  {
    PermutedInWiden(v1, v2, lo, lo + last, lo, lo + n);
    PermutedInWiden(v2, v3, lo + last + 1, lo + n, lo, lo + n);
    PermutedInTrans(v1, v2, v3, lo, lo + n);
    var pivot := v1[lo + last];
    var left, right := v3[lo..lo + last], v3[lo + last + 1..lo + n];
    assert AllBelow(left, pivot) && Sorted(left) && v3[lo + last] == pivot by {
      LeftPartBelow(v1, v2, v3, lo, last, n);
    }
    assert AllAtLeast(right, pivot) by {
      RightPartAtLeast(v1, v2, v3, lo, last, n);
    }
    assert v3[lo..lo + n] == left + [pivot] + right;
    SortedAroundPivot(left, pivot, right);
  }

  /** After sorting the smaller part, it is still smaller than the pivot and
      the second recursion leaves it and the pivot alone. */
  lemma LeftPartBelow(v1: seq<int>, v2: seq<int>, v3: seq<int>, lo: nat, last: nat, n: nat)
    requires lo + last < lo + n <= |v1|
    requires AllBelow(v1[lo..lo + last], v1[lo + last])
    requires PermutedIn(v1, v2, lo, lo + last) && Sorted(v2[lo..lo + last])
    requires PermutedIn(v2, v3, lo + last + 1, lo + n)
    ensures AllBelow(v3[lo..lo + last], v1[lo + last]) && v3[lo + last] == v1[lo + last]
    ensures Sorted(v3[lo..lo + last])
  {
    PermutedInSlices(v1, v2, lo, lo + last);
    PermutationKeepsBounds(v1[lo..lo + last], v2[lo..lo + last], v1[lo + last]);
    assert v3[lo..lo + last] == v2[lo..lo + last] by {
      PermutedInSlices(v2, v3, lo + last + 1, lo + n);
      assert v3[lo..lo + last] == v3[..lo + last + 1][lo..lo + last];
      assert v2[lo..lo + last] == v2[..lo + last + 1][lo..lo + last];
    }
  }

  /** After sorting the part that is not smaller, it is still not smaller
      than the pivot. */
  lemma RightPartAtLeast(v1: seq<int>, v2: seq<int>, v3: seq<int>, lo: nat, last: nat, n: nat)
    requires lo + last < lo + n <= |v1|
    requires AllAtLeast(v1[lo + last + 1..lo + n], v1[lo + last])
    requires PermutedIn(v1, v2, lo, lo + last)
    requires PermutedIn(v2, v3, lo + last + 1, lo + n)
    ensures AllAtLeast(v3[lo + last + 1..lo + n], v1[lo + last])
  {
    assert v2[lo + last + 1..lo + n] == v1[lo + last + 1..lo + n] by {
      PermutedInSlices(v1, v2, lo, lo + last);
      assert v2[lo + last + 1..lo + n] == v2[lo + last..][1..n - last];
      assert v1[lo + last + 1..lo + n] == v1[lo + last..][1..n - last];
    }
    PermutedInSlices(v2, v3, lo + last + 1, lo + n);
    PermutationKeepsBounds(v2[lo + last + 1..lo + n], v3[lo + last + 1..lo + n], v1[lo + last]);
  }
}
