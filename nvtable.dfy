// The growable name/value hash table of 2-15_16_17.c: chained buckets with
// entries appended at the chain tail, a `lists` counter of occupied buckets,
// and a table that doubles and re-inserts every entry when `lists` exceeds
// half the bucket count.
//
// Each bucket chain is modelled as the sequence of its entries, so the table
// is a sequence of chains; the bucket function is a parameter of the table,
// and the literal string hash of the source is modelled separately and
// proved to send every name to bucket 0.
module NameValueTable {
  import opened Common
  import opened Chains

  const OPTMULT: nat := 37
  /** BUFSIZ of the BSD C library the program targets. */
  const DEFSIZE: nat := 1024
  const GROWBY: nat := 1
  /** `nvhash` is an unsigned int: 32-bit arithmetic. */
  const UINT_MOD: nat := 0x1_0000_0000

  datatype Nameval = Nameval(name: string, value: int)

  function Pow2(g: nat): (p: nat)
    ensures p >= 1
  {
    if g == 0 then 1 else 2 * Pow2(g - 1)
  }

  // ---------------------------------------------------------------------
  // namehash

  /** One step `h *= h * OPTMULT + c` of namehash, in unsigned int arithmetic. */
  function HashStep(h: nat, c: char): (h': nat)
    ensures h' < UINT_MOD
  {
    (h * ((h * OPTMULT + c as int) % UINT_MOD)) % UINT_MOD
  }

  /** The unreduced hash of `name`, folded from the first character on. */
  function StrHash(name: string): (h: nat)
    ensures h < UINT_MOD
  {
    if name == [] then 0 else HashStep(StrHash(name[..|name| - 1]), name[|name| - 1])
  }

  /** The accumulator starts at 0 and is only ever multiplied: every name hashes to 0. */
  lemma {:induction false} StrHashZero(name: string)
    ensures StrHash(name) == 0
  {
    if name != [] {
      StrHashZero(name[..|name| - 1]);
    }
  }

  /** namehash with the literal hash: a bucket below `nmemb`, and always bucket 0. */
  method NameHash(nmemb: nat, name: string) returns (b: nat)
    requires nmemb > 0
    ensures b == StrHash(name) % nmemb && b < nmemb
    ensures b == 0
  {
    var h := 0;
    var i := 0;
    while i < |name|
      invariant 0 <= i <= |name|
      invariant h == StrHash(name[..i])
    {
      assert name[..i + 1][..i] == name[..i];
      h := HashStep(h, name[i]);
      i := i + 1;
    }
    assert name[..i] == name;
    StrHashZero(name);
    b := h % nmemb;
  }

  // ---------------------------------------------------------------------
  // Chains

  /** nvnew: the entry, or None when no buffer is given and allocation fails. */
  function NvNew(bufGiven: bool, name: string, value: int, allocOk: bool): (p: Option<Nameval>)
    ensures p.Some? <==> bufGiven || allocOk
    ensures p.Some? ==> p.value.name == name && p.value.value == value
  {
    if bufGiven || allocOk then Some(Nameval(name, value)) else None
  }

  /** nvappend: walks the `next` links of `dst` to the NULL at its end and links
    * `src` there; `walked` is the part of the list the target pointer has passed. */
  method NvAppend(dst: seq<Nameval>, src: seq<Nameval>) returns (r: seq<Nameval>)
    ensures |r| == |dst| + |src|
    ensures r[..|dst|] == dst && r[|dst|..] == src
    ensures dst == [] ==> r == src
  {
    var walked: seq<Nameval> := [];
    var target := 0;
    while target < |dst|
      invariant 0 <= target <= |dst|
      invariant walked == dst[..target]
    {
      walked := walked + [dst[target]];
      target := target + 1;
    }
    r := walked + src;
  }

  /** The first loop of growtable: nvappend every chain, in bucket order, to one list. */
  method Collect(tab: seq<seq<Nameval>>) returns (listbkp: seq<Nameval>)
    ensures listbkp == Flatten(tab)
  {
    listbkp := [];
    for i := 0 to |tab|
      invariant listbkp == Flatten(tab[..i])
    {
      assert tab[..i + 1][..i] == tab[..i];
      listbkp := NvAppend(listbkp, tab[i]);
    }
    assert tab[..|tab|] == tab;
  }

  /** The first entry of `chain` whose name equals `name` (the strcmp search of nvlookup). */
  function FindIn(chain: seq<Nameval>, name: string): (r: Option<Nameval>)
    ensures r.Some? ==> r.value in chain && r.value.name == name
    ensures r.None? <==> Absent(name, chain)
  {
    if chain == [] then None
    else if chain[0].name == name then Some(chain[0])
    else FindIn(chain[1..], name)
  }

  /** In a chain without repeated names, the search for an entry's name finds that entry. */
  lemma {:induction false} FindUnique(chain: seq<Nameval>, e: Nameval)
    requires UniqueNames(chain) && e in chain
    ensures FindIn(chain, e.name) == Some(e)
  {
    if chain[0] != e {
      assert chain[0].name != e.name by {
        var k :| 0 <= k < |chain| && chain[k] == e;
        assert k > 0;
      }
      assert UniqueNames(chain[1..]) by {
        forall i, j | 0 <= i < j < |chain[1..]|
          ensures chain[1..][i].name != chain[1..][j].name
        {
          assert chain[1..][i] == chain[i + 1] && chain[1..][j] == chain[j + 1];
        }
      }
      FindUnique(chain[1..], e);
    }
  }

  ghost predicate Absent(name: string, s: seq<Nameval>)
  {
    forall x :: x in s ==> x.name != name
  }

  /** The chain of an entry: its name's hash reduced modulo the bucket count. */
  function NameBucket(hash: string -> nat, n: nat): (bucket: Nameval -> nat)
    requires n > 0
  {
    (e: Nameval) => hash(e.name) % n
  }

  /** No chain holds two entries with the same name. */
  ghost predicate ChainsUnique(tab: seq<seq<Nameval>>)
  {
    forall b, i, j :: 0 <= b < |tab| && 0 <= i < j < |tab[b]| ==> tab[b][i].name != tab[b][j].name
  }

  ghost predicate UniqueNames(s: seq<Nameval>)
  {
    forall i, j :: 0 <= i < j < |s| ==> s[i].name != s[j].name
  }

  lemma {:induction false} FlattenUnique(tab: seq<seq<Nameval>>, hash: string -> nat, n: nat)
    requires n > 0 && Placed(tab, NameBucket(hash, n)) && ChainsUnique(tab)
    ensures UniqueNames(Flatten(tab))
  {
    if tab != [] {
      var pre: seq<seq<Nameval>> := tab[..|tab| - 1];
      var last := tab[|tab| - 1];
      assert Placed(pre, NameBucket(hash, n)) by {
        forall b, k | 0 <= b < |pre| && 0 <= k < |pre[b]|
          ensures hash(pre[b][k].name) % n == b
        {
          assert pre[b] == tab[b];
        }
      }
      assert ChainsUnique(pre) by {
        forall b, i, j | 0 <= b < |pre| && 0 <= i < j < |pre[b]|
          ensures pre[b][i].name != pre[b][j].name
        {
          assert pre[b] == tab[b];
        }
      }
      FlattenUnique(pre, hash, n);
      var p := Flatten(pre);
      var s := Flatten(tab);
      assert s == p + last;
      forall i, j | 0 <= i < j < |s|
        ensures s[i].name != s[j].name
      {
        if j < |p| {
          assert s[i] == p[i] && s[j] == p[j];
        } else if |p| <= i {
          assert s[i] == last[i - |p|] && s[j] == last[j - |p|];
        } else {
          assert s[i] == p[i] && s[j] == last[j - |p|];
          FlattenMember(pre, NameBucket(hash, n), p[i]);
          assert p[i] in p;
          assert hash(last[j - |p|].name) % n == |tab| - 1;
        }
      }
    }
  }

  /** After adding rest[0] to a table that held none of the names of `rest`, the
    * table holds none of the names of rest[1..], which stay pairwise distinct. */
  lemma StillAbsent(rest: seq<Nameval>, before: seq<Nameval>, after: seq<Nameval>)
    requires rest != [] && UniqueNames(rest)
    requires forall j :: 0 <= j < |rest| ==> Absent(rest[j].name, before)
    requires multiset(after) == multiset(before) + multiset{rest[0]}
    ensures UniqueNames(rest[1..])
    ensures forall j :: 0 <= j < |rest| - 1 ==> Absent(rest[1..][j].name, after)
    ensures multiset(rest) == multiset{rest[0]} + multiset(rest[1..])
  {
    assert rest == [rest[0]] + rest[1..];
    forall j, x | 0 <= j < |rest| - 1 && x in after
      ensures x.name != rest[1..][j].name
    {
      assert rest[1..][j] == rest[j + 1];
      assert x in multiset(after);
    }
  }

  lemma MulSucc(e: nat, m: nat)
    ensures (e + 1) * m == e * m + m
  {
  }

  /** Pow2 outgrows the square from 4 on. */
  lemma {:induction false} Pow2Square(g: nat)
    requires g >= 4
    ensures Pow2(g) >= g * g
  {
    if g == 4 {
      assert Pow2(4) == 16;
    } else {
      Pow2Square(g - 1);
      assert Pow2(g) == 2 * Pow2(g - 1);
      assert 2 * ((g - 1) * (g - 1)) == g * g + g * (g - 4) + 2;
      assert g * (g - 4) >= 0;
    }
  }

  /** Once g reaches 2 * e + 2, Pow2(g) is at least e * (g + 1): a table whose lists
    * stay below e * (g + 1) stops growing before that. */
  lemma GrowthBound(e: nat, g: nat)
    ensures g < 2 * e + 2 || Pow2(g) >= e * (g + 1)
  {
    if g >= 2 * e + 2 && e > 0 {
      Pow2Square(g);
      assert g * g >= (2 * e + 2) * g;
      assert (2 * e + 2) * g == e * (g + 1) + e * g - e + 2 * g;
      assert e * g >= e;
    }
  }

  /** With the source's literal hash every entry lies in bucket 0. */
  lemma LiteralHashSingleChain(tab: seq<seq<Nameval>>, n: nat)
    requires n > 0 && Placed(tab, NameBucket(StrHash, n))
    ensures forall b :: 0 < b < |tab| ==> tab[b] == []
  {
    forall b | 0 < b < |tab|
      ensures tab[b] == []
    {
      if tab[b] != [] {
        StrHashZero(tab[b][0].name);
      }
    }
  }

  /** Appending an entry to the chain of its own bucket keeps the table placed and
    * its chains free of duplicates, when no entry of that chain carries the name. */
  lemma AppendKeeps(tab: seq<seq<Nameval>>, hash: string -> nat, n: nat, b: nat, e: Nameval)
    requires n > 0 && Placed(tab, NameBucket(hash, n)) && ChainsUnique(tab)
    requires b < |tab| && hash(e.name) % n == b && Absent(e.name, tab[b])
    ensures Placed(tab[b := tab[b] + [e]], NameBucket(hash, n)) && ChainsUnique(tab[b := tab[b] + [e]])
  {
    var t: seq<seq<Nameval>> := tab[b := tab[b] + [e]];
    forall c, i, j | 0 <= c < |t| && 0 <= i < j < |t[c]|
      ensures t[c][i].name != t[c][j].name
    {
      if c == b && j == |tab[b]| {
        assert t[c][i] == tab[b][i];
        assert tab[b][i] in tab[b];
      }
    }
  }

  // ---------------------------------------------------------------------
  // The table

  class NvTable {
    var nmemb: nat
    var lists: nat
    var tab: seq<seq<Nameval>>
    /** The unreduced string hash; namehash reduces it modulo nmemb. */
    const hash: string -> nat
    /** Successful doublings so far. */
    ghost var growths: nat
    /** Creations attempted outside re-insertion (successful or not). */
    ghost var events: nat
    /** Entries collected by growtable and not yet re-inserted, over all nested growths. */
    ghost var pending: nat

    ghost predicate Valid()
      reads this
    {
      |tab| == nmemb && nmemb == DEFSIZE * Pow2(growths)
      && Placed(tab, NameBucket(hash, nmemb)) && ChainsUnique(tab)
      && lists + pending <= events * (growths + 1)
      && |Flatten(tab)| + pending <= events
      && growths <= 2 * events + 2
    }

    /** namehash with the table's bucket function. */
    function Bucket(name: string): (b: nat)
      reads this
      requires nmemb > 0
      ensures b < nmemb
    {
      hash(name) % nmemb
    }

    ghost function Entries(): multiset<Nameval>
      reads this
    {
      multiset(Flatten(tab))
    }

    /** nvtnew on a freshly allocated table: DEFSIZE empty buckets, no lists. */
    constructor(hash: string -> nat)
      ensures Valid() && this.hash == hash
      ensures nmemb == DEFSIZE && lists == 0 && growths == 0
      ensures forall b :: 0 <= b < |tab| ==> tab[b] == []
      ensures Entries() == multiset{} && pending == 0 && events == 0
    {
      nmemb := DEFSIZE;
      lists := 0;
      tab := EmptyTab(DEFSIZE);
      this.hash := hash;
      growths, events, pending := 0, 0, 0;
      new;
      FlattenEmpty<Nameval>(DEFSIZE);
    }

    /** A name is found in its bucket iff some entry of the table carries it. */
    lemma FindIffPresent(name: string)
      requires Valid()
      ensures FindIn(tab[Bucket(name)], name).None? <==> Absent(name, Flatten(tab))
    {
      var c := tab[Bucket(name)];
      if FindIn(c, name).Some? {
        FlattenMember(tab, NameBucket(hash, nmemb), FindIn(c, name).value);
      } else {
        forall x | x in Flatten(tab)
          ensures x.name != name
        {
          FlattenMember(tab, NameBucket(hash, nmemb), x);
        }
      }
    }

    /** Every entry of the table is what a later lookup of its name returns: what
      * was inserted is found with its value, across any number of growths. */
    lemma LookupFinds(e: Nameval)
      requires Valid() && e in Entries()
      ensures FindIn(tab[Bucket(e.name)], e.name) == Some(e)
    {
      FlattenMember(tab, NameBucket(hash, nmemb), e);
      var c := tab[Bucket(e.name)];
      assert UniqueNames(c);
      FindUnique(c, e);
    }

    /** nvlookup on an existing table. `reinsert` marks the calls growtable makes. */
    method Lookup(name: string, create: bool, bufGiven: bool, value: int, nodeOk: bool,
                  growOk: nat -> bool, ghost reinsert: bool) returns (r: Option<Nameval>)
      requires Valid()
      requires reinsert ==> pending > 0 && create && bufGiven && FindIn(tab[Bucket(name)], name).None?
      modifies this
      decreases 2 * events + 4 - growths + (if reinsert then 0 else 2), 1
      ensures Valid()
      ensures growths >= old(growths) && lists >= old(lists) && nmemb >= old(nmemb)
      ensures reinsert ==> events == old(events)
      ensures reinsert ==> pending + 1 == old(pending)
      ensures !reinsert ==> pending == old(pending)
      // an existing entry is returned and nothing changes, whatever create is
      ensures old(FindIn(tab[Bucket(name)], name)).Some? ==>
        r == old(FindIn(tab[Bucket(name)], name)) && tab == old(tab) && lists == old(lists) && nmemb == old(nmemb)
      // a miss without create returns None and changes nothing
      ensures old(FindIn(tab[Bucket(name)], name)).None? && !create ==>
        r == None && tab == old(tab) && lists == old(lists) && nmemb == old(nmemb)
      // a miss with create adds the entry (unless nvnew fails)
      ensures old(FindIn(tab[Bucket(name)], name)).None? && create ==>
        r == NvNew(bufGiven, name, value, nodeOk)
        && Entries() == old(Entries()) + (if r.Some? then multiset{r.value} else multiset{})
      // without growth, the entry is appended at the tail of its chain and lists
      // counts the chain only if it was empty
      ensures old(FindIn(tab[Bucket(name)], name)).None? && create && nmemb == old(nmemb) ==>
        (if r.Some? then tab == old(tab[Bucket(name) := tab[Bucket(name)] + [r.value]]) else tab == old(tab))
        && lists == old(lists) + (if old(tab[Bucket(name)]) == [] then 1 else 0)
      // growth fires exactly when a new chain pushes lists over nmemb >> GROWBY
      // and the reallocation succeeds
      ensures nmemb != old(nmemb) <==>
        old(FindIn(tab[Bucket(name)], name)).None? && create && old(tab[Bucket(name)]) == []
        && old(lists) + 1 > old(nmemb) / 2 && growOk(2 * old(nmemb))
    {
      var b := Bucket(name);
      var chain := tab[b];
      var i := 0;
      while i < |chain|
        invariant 0 <= i <= |chain|
        invariant FindIn(chain, name) == FindIn(chain[i..], name)
      {
        if chain[i].name == name {
          assert chain[i..][0] == chain[i];
          return Some(chain[i]);
        }
        assert chain[i..][1..] == chain[i + 1..];
        i := i + 1;
      }
      if !create {
        return None;
      }
      r := NvNew(bufGiven, name, value, nodeOk);
      Insert(b, r, reinsert);
      if chain == [] && lists > nmemb / 2 {
        var _ := Grow(growOk);
      }
    }

    /** Links `p` at the tail of chain `b`, or stores it as the chain when the chain is
      * empty and then counts the chain in `lists`. */
    method Insert(b: nat, p: Option<Nameval>, ghost reinsert: bool)
      requires Valid() && b < nmemb
      requires p.Some? ==> Bucket(p.value.name) == b && Absent(p.value.name, tab[b])
      requires reinsert ==> pending > 0 && p.Some?
      modifies this
      ensures p.Some? ==> tab == old(tab[b := tab[b] + [p.value]])
      ensures p.None? ==> tab == old(tab)
      ensures Entries() == old(Entries()) + (if p.Some? then multiset{p.value} else multiset{})
      ensures nmemb == old(nmemb) && growths == old(growths)
      ensures lists == old(lists) + (if old(tab[b]) == [] then 1 else 0)
      ensures reinsert ==> events == old(events) && pending == old(pending) - 1
      ensures !reinsert ==> events == old(events) + 1 && pending == old(pending)
      ensures Valid()
    {
      if tab[b] == [] {
        lists := lists + 1;
      }
      if p.Some? {
        FlattenAppend(tab, b, p.value);
        AppendKeeps(tab, hash, nmemb, b, p.value);
        tab := tab[b := tab[b] + [p.value]];
      }
      if reinsert {
        pending := pending - 1;
      } else {
        events := events + 1;
        MulSucc(old(events), growths + 1);
      }
    }

    /** The doubling and memset of growtable: every entry leaves the table and is
      * counted as pending re-insertion; `lists` is left as it is. */
    method Clear()
      requires Valid() && lists > nmemb / 2
      modifies this
      ensures Valid() && nmemb == 2 * old(nmemb) && tab == EmptyTab(nmemb) && Flatten(tab) == []
      ensures growths == old(growths) + 1 && pending == old(pending) + |old(Flatten(tab))|
      ensures lists == old(lists) && events == old(events)
    {
      assert Pow2(growths) <= nmemb / 2;
      GrowthBound(events, growths);
      MulSucc(growths + 1, events);
      pending := pending + |Flatten(tab)|;
      nmemb := nmemb * 2;
      tab := EmptyTab(nmemb);
      growths := growths + 1;
      FlattenEmpty<Nameval>(nmemb);
    }

    /** growtable: doubles the bucket count and re-inserts every entry through
      * Lookup, which may grow the table again; on reallocation failure nothing changes. */
    method Grow(growOk: nat -> bool) returns (ok: bool)
      requires Valid() && lists > nmemb / 2
      modifies this
      decreases 2 * events + 4 - growths, 0
      ensures Valid()
      ensures ok == growOk(2 * old(nmemb))
      ensures !ok ==> tab == old(tab) && nmemb == old(nmemb) && lists == old(lists) && growths == old(growths)
      ensures ok ==> nmemb >= 2 * old(nmemb) && lists >= old(lists) && Entries() == old(Entries())
      ensures events == old(events) && pending == old(pending) && growths >= old(growths) && nmemb >= old(nmemb)
    {
      ok := growOk(2 * nmemb);
      if !ok {
        return;
      }
      FlattenUnique(tab, hash, nmemb);
      var listbkp := Collect(tab);
      Clear();
      Reinsert(listbkp, growOk);
    }

    /** The second loop of growtable: every collected entry goes back through Lookup
      * (with the collected node as buffer), which may grow the table again. */
    method Reinsert(listbkp: seq<Nameval>, growOk: nat -> bool)
      requires Valid() && pending >= |listbkp| && UniqueNames(listbkp)
      requires forall j :: 0 <= j < |listbkp| ==> Absent(listbkp[j].name, Flatten(tab))
      modifies this
      decreases 2 * events + 4 - growths, 3
      ensures Valid() && Entries() == old(Entries()) + multiset(listbkp)
      ensures pending == old(pending) - |listbkp| && events == old(events)
      ensures growths >= old(growths) && nmemb >= old(nmemb) && lists >= old(lists)
    {
      var rest := listbkp;
      while rest != []
        invariant Valid() && UniqueNames(rest)
        invariant pending == old(pending) - |listbkp| + |rest|
        invariant Entries() + multiset(rest) == old(Entries()) + multiset(listbkp)
        invariant forall j :: 0 <= j < |rest| ==> Absent(rest[j].name, Flatten(tab))
        invariant events == old(events) && growths >= old(growths) && nmemb >= old(nmemb) && lists >= old(lists)
        decreases |rest|
      {
        ghost var before := Flatten(tab);
        ReinsertOne(rest[0], growOk);
        StillAbsent(rest, before, Flatten(tab));
        rest := rest[1..];
      }
    }

    /** One iteration of the re-insertion loop: a Lookup that always creates. */
    method ReinsertOne(entry: Nameval, growOk: nat -> bool)
      requires Valid() && pending > 0 && Absent(entry.name, Flatten(tab))
      modifies this
      decreases 2 * events + 4 - growths, 2
      ensures Valid() && Entries() == old(Entries()) + multiset{entry}
      ensures pending == old(pending) - 1 && events == old(events)
      ensures growths >= old(growths) && nmemb >= old(nmemb) && lists >= old(lists)
    {
      FindIffPresent(entry.name);
      var _ := Lookup(entry.name, true, true, entry.value, true, growOk, true);
    }
  }

  /** nvtnew(NULL): a fresh table, or null when allocation fails. */
  method NvtNew(hash: string -> nat, allocOk: bool) returns (t: NvTable?)
    ensures !allocOk <==> t == null
    ensures t != null ==>
              fresh(t) && t.Valid() && t.hash == hash && t.nmemb == DEFSIZE && t.lists == 0
              && (forall b :: 0 <= b < |t.tab| ==> t.tab[b] == []) && t.Entries() == multiset{} && t.pending == 0
  {
    if !allocOk {
      return null;
    }
    t := new NvTable(hash);
  }

  /** nvlookup(&table, ...): a null table is first replaced by a fresh one. */
  method NvLookup(table: NvTable?, name: string, create: bool, bufGiven: bool, value: int,
                  tableOk: bool, nodeOk: bool, growOk: nat -> bool, hash: string -> nat)
    returns (t: NvTable?, r: Option<Nameval>)
    requires table != null ==> table.Valid() && table.pending == 0
    modifies table
    ensures table != null ==> t == table
    // on an existing table, the hit, miss and create cases of NvTable.Lookup
    ensures table != null && old(FindIn(table.tab[table.Bucket(name)], name)).Some? ==>
              r == old(FindIn(table.tab[table.Bucket(name)], name)) && table.tab == old(table.tab)
    ensures table != null && old(FindIn(table.tab[table.Bucket(name)], name)).None? && !create ==>
              r == None && table.tab == old(table.tab)
    ensures table != null && old(FindIn(table.tab[table.Bucket(name)], name)).None? && create ==>
              r == NvNew(bufGiven, name, value, nodeOk)
              && table.Entries() == old(table.Entries()) + (if r.Some? then multiset{r.value} else multiset{})
    ensures table == null && !tableOk ==> t == null && r == None
    ensures t != null ==> t.Valid() && t.pending == 0
    ensures table == null && tableOk ==>
              t != null && fresh(t) && t.hash == hash
              && r == (if create then NvNew(bufGiven, name, value, nodeOk) else None)
              && t.Entries() == (if r.Some? then multiset{r.value} else multiset{})
  {
    t := table;
    if t == null {
      t := NvtNew(hash, tableOk);
      if t == null {
        return null, None;
      }
      assert FindIn(t.tab[t.Bucket(name)], name) == None;
    }
    r := t.Lookup(name, create, bufGiven, value, nodeOk, growOk, false);
  }
}
