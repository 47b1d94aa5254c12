// Model of 2-6.c: a growable array of name/value pairs in which deleted
// entries keep their slot with a NULL name and are reused by later
// insertions. The global nvtab becomes an object of class NvTab.
module NvArray {
  import opened Common

  const NVINIT: nat := 1
  const NVGROW: nat := 2

  /**
   * A slot of the array: Unset is storage that malloc or realloc has handed
   * out but nothing has written; an Entry's name is None once delname has
   * cleared it.
   */
  datatype Slot = Unset | Entry(name: Option<string>, value: int)

  predicate Live(s: Slot)
  {
    s.Entry? && s.name.Some?
  }

  /** Number of slots holding a live (named) entry. */
  function LiveCount(s: seq<Slot>): (c: nat)
    ensures c <= |s|
  {
    if s == [] then 0 else (if Live(s[0]) then 1 else 0) + LiveCount(s[1..])
  }

  /** Lowest index below n whose name is NULL, or n when there is none. */
  function FirstFree(s: seq<Slot>, n: nat): (k: nat)
    requires n <= |s| && forall i :: 0 <= i < |s| ==> s[i].Entry?
    ensures k <= n
    ensures k < n ==> s[k].name.None?
    ensures forall i :: 0 <= i < k ==> s[i].name.Some?
  {
    if n == 0 then 0
    else
      var k := FirstFree(s, n - 1);
      if k < n - 1 then k
      else if s[n - 1].name.None? then n - 1
      else n
  }

  /** Lowest index below n whose live name is name, or n when there is none. */
  function FindBelow(s: seq<Slot>, n: nat, name: string): (k: nat)
    requires n <= |s|
    ensures k <= n
    ensures k < n ==> s[k].Entry? && s[k].name == Some(name)
    ensures forall i :: 0 <= i < k ==> !(s[i].Entry? && s[i].name == Some(name))
  {
    if n == 0 then 0
    else
      var k := FindBelow(s, n - 1, name);
      if k < n - 1 then k
      else if s[n - 1].Entry? && s[n - 1].name == Some(name) then n - 1
      else n
  }

  /** The slots after addname stores (name, value) with nval entries counted. */
  function Added(s: seq<Slot>, nval: nat, name: string, value: int): seq<Slot>
    requires nval <= |s| && forall i :: 0 <= i < |s| ==> s[i].Entry?
  {
    var k := FirstFree(s, nval);
    if k < |s| then s[k := Entry(Some(name), value)] else s + [Entry(Some(name), value)]
  }

  /** The slots after delname clears entry k. */
  function Cleared(s: seq<Slot>, k: nat): seq<Slot>
    requires k < |s| && s[k].Entry?
  {
    s[k := Entry(None, s[k].value)]
  }

  lemma {:induction false} LiveCountUpdate(s: seq<Slot>, k: nat, x: Slot)
    requires k < |s|
    ensures LiveCount(s[k := x]) ==
              LiveCount(s) - (if Live(s[k]) then 1 else 0) + (if Live(x) then 1 else 0)
  {
    if k > 0 {
      assert s[k := x][1..] == s[1..][k - 1 := x];
      LiveCountUpdate(s[1..], k - 1, x);
    }
  }

  lemma {:induction false} LiveCountAppend(s: seq<Slot>, x: Slot)
    ensures LiveCount(s + [x]) == LiveCount(s) + (if Live(x) then 1 else 0)
  {
    if s != [] {
      assert (s + [x])[1..] == s[1..] + [x];
      LiveCountAppend(s[1..], x);
    }
  }

  /** When no name below nval is NULL and nval entries are live, no slot at or
      past nval is live. */
  lemma {:induction false} LiveOnlyBelow(s: seq<Slot>, nval: nat)
    requires nval <= |s| && LiveCount(s) == nval
    requires forall i :: 0 <= i < nval ==> Live(s[i])
    ensures forall i :: nval <= i < |s| ==> !Live(s[i])
  {
    if nval > 0 {
      LiveOnlyBelow(s[1..], nval - 1);
    } else if s != [] {
      assert !Live(s[0]);
      LiveOnlyBelow(s[1..], 0);
    }
  }

  /**
   * addname keeps the count invariant: the new entry goes into a slot whose
   * name is NULL (a reused slot, or the slot at nval) or is appended, so
   * exactly one more entry is live.
   */
  lemma AddedCount(s: seq<Slot>, nval: nat, name: string, value: int)
    requires nval <= |s| && LiveCount(s) == nval && forall i :: 0 <= i < |s| ==> s[i].Entry?
    ensures LiveCount(Added(s, nval, name, value)) == nval + 1
  {
    var k := FirstFree(s, nval);
    var e := Entry(Some(name), value);
    if k < nval {
      LiveCountUpdate(s, k, e);
    } else if k < |s| {
      LiveOnlyBelow(s, nval);
      LiveCountUpdate(s, k, e);
    } else {
      LiveCountAppend(s, e);
    }
  }

  /** The written prefix after lines 44-52 of addname store the entry in
      slot i of array contents a, giving a1. */
  lemma StoredSlots(a: seq<Slot>, used: nat, nval: nat, i: nat, name: string, value: int,
                    a1: seq<Slot>)
    requires nval <= used <= |a| && i < |a| && forall j :: 0 <= j < used ==> a[j].Entry?
    requires LiveCount(a[..used]) == nval && i == FirstFree(a[..used], nval)
    requires a1 == a[i := Entry(Some(name), value)]
    ensures var u := if i == used then used + 1 else used;
            u <= |a1| && a1[..u] == Added(a[..used], nval, name, value) &&
            (forall j :: 0 <= j < u ==> a1[j].Entry?) && LiveCount(a1[..u]) == nval + 1
  {
    var s := a[..used];
    AddedCount(s, nval, name, value);
    if i == used {
      assert a1[..used + 1] == s + [Entry(Some(name), value)];
    } else {
      assert a1[..used] == s[i := Entry(Some(name), value)];
    }
  }

  /** delname keeps the count invariant: clearing a live entry leaves one
      live entry fewer. */
  lemma ClearedCount(s: seq<Slot>, k: nat)
    requires k < |s| && Live(s[k])
    ensures LiveCount(Cleared(s, k)) == LiveCount(s) - 1
  {
    LiveCountUpdate(s, k, Entry(None, s[k].value));
  }

  /** Right after addname the new name is found by delname's search, which
      covers the first nval + 1 slots. */
  lemma AddedIsFound(s: seq<Slot>, nval: nat, name: string, value: int)
    requires nval <= |s| && LiveCount(s) == nval && forall i :: 0 <= i < |s| ==> s[i].Entry?
    ensures nval + 1 <= |Added(s, nval, name, value)|
    ensures FindBelow(Added(s, nval, name, value), nval + 1, name) < nval + 1
  {
    var t := Added(s, nval, name, value);
    var k := FirstFree(s, nval);
    if k < nval {
      LiveCountUpdate(s, k, Entry(Some(name), value));
    }
    assert t[k] == Entry(Some(name), value);
  }

  /**
   * delname searches only the first nval slots. After the first of three
   * entries is deleted nval is 2, so the live entry "C" in slot 2 can no
   * longer be found or deleted.
   */
  lemma DeleteMissesLiveEntry()
    ensures var s := [Entry(None, 1), Entry(Some("B"), 2), Entry(Some("C"), 3)];
            LiveCount(s) == 2 && Live(s[2]) && s[2].name == Some("C") &&
            FindBelow(s, 2, "C") == 2
  {
    var s := [Entry(None, 1), Entry(Some("B"), 2), Entry(Some("C"), 3)];
    assert s[1..][1..][1..] == [];
    assert FindBelow(s, 1, "C") == 1;
  }

  class NvTab {
    var nameval: array?<Slot>
    var nval: nat
    var max: nat
    /** Number of slots of nameval that have been written. */
    ghost var used: nat

    ghost predicate Valid()
      reads this, nameval
    {
      (nameval == null ==> nval == 0 && used == 0) &&
      (nameval != null ==>
        max == nameval.Length && nval <= used <= max && 1 <= max &&
        (forall i :: 0 <= i < used ==> nameval[i].Entry?) &&
        LiveCount(nameval[..used]) == nval)
    }

    /** The slots written so far. */
    ghost function Slots(): seq<Slot>
      reads this, nameval
      requires Valid()
    {
      if nameval == null then [] else nameval[..used]
    }

    /** The zero-initialised global: no array yet. */
    constructor ()
      ensures Valid() && nameval == null && nval == 0 && max == 0
    {
      nameval := null;
      nval := 0;
      max := 0;
      used := 0;
    }

    /**
     * addname: stores the pair in the lowest slot below nval whose name is
     * NULL, otherwise at index nval, allocating NVINIT slots the first time
     * and multiplying the capacity by NVGROW when nval >= max; returns the old
     * nval. When the allocation fails (allocOk false) it returns -1 and
     * changes nothing.
     */
    method AddName(name: string, value: int, allocOk: bool) returns (r: int)
      requires Valid()
      modifies this, nameval
      ensures Valid()
      ensures var grows := old(nameval) == null || old(nval) >= old(max);
              if grows && !allocOk then
                r == -1 && nameval == old(nameval) && nval == old(nval) && max == old(max) &&
                Slots() == old(Slots())
              else
                r == old(nval) && nval == old(nval) + 1 &&
                max == (if old(nameval) == null then NVINIT
                        else if grows then NVGROW * old(max) else old(max)) &&
                nval <= max &&
                Slots() == Added(old(Slots()), old(nval), name, value)
    {
      var ok := Reserve(allocOk);
      if !ok {
        return -1;
      }
      r := Store(name, value);
    }

    /** Lines 28-42 of addname: makes room for one more entry, or reports the
        failed allocation and changes nothing. */
    method Reserve(allocOk: bool) returns (ok: bool)
      requires Valid()
      modifies this
      ensures Valid() && nval == old(nval) && Slots() == old(Slots())
      ensures var grows := old(nameval) == null || old(nval) >= old(max);
              ok == (!grows || allocOk) &&
              (ok ==> nameval != null && nval < max &&
                      max == (if old(nameval) == null then NVINIT
                              else if grows then NVGROW * old(max) else old(max))) &&
              (!ok ==> nameval == old(nameval) && max == old(max)) &&
              (ok && grows ==> fresh(nameval))
              && (ok && !grows ==> nameval == old(nameval))
    {
      if nameval == null {
        if !allocOk {
          return false;
        }
        nameval := new Slot[NVINIT](_ => Unset);
        max := NVINIT;
        nval := 0;
      } else if nval >= max {
        if !allocOk {
          return false;
        }
        ghost var s := nameval[..used];
        nameval := Realloc(nameval, NVGROW * max);
        assert nameval[..used] == nameval[..max][..used] == s;
        max := NVGROW * max;
      }
      ok := true;
    }

    /** Lines 44-47 of addname: the scan for the lowest slot below nval whose
        name is NULL; i is nval when there is none. */
    method FindFree() returns (i: nat)
      requires Valid() && nameval != null
      ensures i == FirstFree(Slots(), nval)
    {
      i := 0;
      while i < nval
        invariant i <= nval
        invariant forall j :: 0 <= j < i ==> nameval[j].name.Some?
      {
        if nameval[i].name.None? {
          return;
        }
        i := i + 1;
      }
    }

    /** Lines 44-52 of addname, once there is room for the entry. */
    method Store(name: string, value: int) returns (r: int)
      requires Valid() && nameval != null && nval < max
      modifies this`nval, this`used, nameval
      ensures Valid() && r == old(nval) && nval == old(nval) + 1
      ensures Slots() == Added(old(Slots()), old(nval), name, value)
    {
      var i := FindFree();
      ghost var a := nameval[..];
      nameval[i] := Entry(Some(name), value);
      ghost var a1 := nameval[..];
      StoredSlots(a, used, nval, i, name, value, a1);
      if i == used {
        used := used + 1;
      }
      assert nameval[..used] == a1[..used];
      r := nval;
      nval := nval + 1;
    }

    /**
     * delname: clears the name of the first live entry below nval whose name
     * equals name, decrements nval and returns 1; returns 0 and changes
     * nothing when there is none.
     */
    method DelName(name: string) returns (r: int)
      requires Valid()
      modifies this`nval, nameval
      ensures Valid() && nameval == old(nameval) && max == old(max)
      ensures var k := FindBelow(old(Slots()), old(nval), name);
              if k < old(nval) then
                r == 1 && nval == old(nval) - 1 && Slots() == Cleared(old(Slots()), k)
              else
                r == 0 && nval == old(nval) && Slots() == old(Slots())
    {
      if nameval == null {
        return 0;
      }
      ghost var s := nameval[..used];
      var i := 0;
      while i < nval
        invariant 0 <= i <= nval
        invariant forall j :: 0 <= j < i ==> !(s[j].Entry? && s[j].name == Some(name))
      {
        if nameval[i].name == Some(name) {
          assert i == FindBelow(s, nval, name);
          ClearedCount(s, i);
          nameval[i] := Entry(None, nameval[i].value);
          assert nameval[..used] == Cleared(s, i);
          nval := nval - 1;
          return 1;
        }
        i := i + 1;
      }
      r := 0;
    }
  }

  /** realloc: a fresh array of n slots starting with the old contents. */
  method Realloc(a: array<Slot>, n: nat) returns (b: array<Slot>)
    requires a.Length <= n
    ensures fresh(b) && b.Length == n && b[..a.Length] == a[..]
  {
    b := new Slot[n](_ => Unset);
    var i := 0;
    while i < a.Length
      invariant 0 <= i <= a.Length && b[..i] == a[..i]
    {
      b[i] := a[i];
      i := i + 1;
    }
  }
}
