// The two hash tables of the Markov chain text generator 3-2_3.c: the string
// table that interns every word read (equal strings end up behind one
// pointer), and the table from NPREF-word prefixes to states holding the list
// of words seen after that prefix. Both push new nodes at the chain head and
// never grow. The random pickers take their draws from an oracle.
//
// A `const char *` is modelled as a Str: the address of the string and its
// text, so that the pointer comparison of strt_addstr can be stated. Chains
// are sequences of entries; the bucket function is a parameter of each
// table, and the literal hashes of the source are proved to be always 0.
module Markov {
  import opened Common
  import opened Chains

  const STRTABLEBUFNMEMB: nat := 10240
  const MAXWORDLEN: nat := 100
  const OPTMULT: nat := 37
  const NPREF: nat := 2
  const MRKVTABLEBUFNMEMB: nat := 10240
  /** strt_hash and mrkv_hash are size_t: 64-bit unsigned arithmetic. */
  const SIZE_MOD: nat := 0x1_0000_0000_0000_0000

  /** A `const char *`: the address of a NUL-terminated string and its text. */
  datatype Str = Str(id: nat, text: string)

  // ---------------------------------------------------------------------
  // Hashes

  /** One step `hash *= hash * OPTMULT + c` in size_t arithmetic. */
  function HashStep(h: nat, c: char): (h': nat)
    ensures h' < SIZE_MOD
  {
    (h * ((h * OPTMULT + c as int) % SIZE_MOD)) % SIZE_MOD
  }

  /** The accumulator `h` after consuming the characters of `s`. */
  function HashFrom(h: nat, s: string): nat
  {
    if s == [] then h else HashStep(HashFrom(h, s[..|s| - 1]), s[|s| - 1])
  }

  /** The accumulator of mrkv_hashstate after the strings of `pref`, in order. */
  function PrefHash(pref: seq<string>): nat
  {
    if pref == [] then 0 else HashFrom(PrefHash(pref[..|pref| - 1]), pref[|pref| - 1])
  }

  /** From 0 the accumulator is only ever multiplied by itself, so it stays 0. */
  lemma {:induction false} HashFromZero(s: string)
    ensures HashFrom(0, s) == 0
  {
    if s != [] {
      HashFromZero(s[..|s| - 1]);
    }
  }

  lemma {:induction false} PrefHashZero(pref: seq<string>)
    ensures PrefHash(pref) == 0
  {
    if pref != [] {
      PrefHashZero(pref[..|pref| - 1]);
      HashFromZero(pref[|pref| - 1]);
    }
  }

  /** strt_hashstr: a bucket below bufnmemb, and bucket 0 for every string. */
  method StrtHashStr(bufnmemb: nat, str: string) returns (b: nat)
    requires bufnmemb > 0
    ensures b == HashFrom(0, str) % bufnmemb && b < bufnmemb
    ensures b == 0
  {
    var hash := 0;
    var i := 0;
    while i < |str|
      invariant 0 <= i <= |str|
      invariant hash == HashFrom(0, str[..i])
    {
      assert str[..i + 1][..i] == str[..i];
      hash := HashStep(hash, str[i]);
      i := i + 1;
    }
    assert str[..i] == str;
    HashFromZero(str);
    b := hash % bufnmemb;
  }

  /** mrkv_hashstate: the hash of the first npref strings of `pref`, always bucket 0. */
  method MrkvHashState(npref: nat, bufnmemb: nat, pref: seq<string>) returns (b: nat)
    requires bufnmemb > 0 && npref <= |pref|
    ensures b == PrefHash(pref[..npref]) % bufnmemb && b < bufnmemb
    ensures b == 0
  {
    var hash := 0;
    for i := 0 to npref
      invariant hash == PrefHash(pref[..i])
    {
      var sp := pref[i];
      ghost var h0 := hash;
      var j := 0;
      while j < |sp|
        invariant 0 <= j <= |sp|
        invariant hash == HashFrom(h0, sp[..j])
      {
        assert sp[..j + 1][..j] == sp[..j];
        hash := HashStep(hash, sp[j]);
        j := j + 1;
      }
      assert sp[..j] == sp;
      assert pref[..i + 1][..i] == pref[..i];
    }
    PrefHashZero(pref[..npref]);
    b := hash % bufnmemb;
  }

  // ---------------------------------------------------------------------
  // The string table

  /** The chain of a stored string: its text's hash reduced modulo the bucket count. */
  function TextBucket(hash: string -> nat, n: nat): (bucket: Str -> nat)
    requires n > 0
  {
    (s: Str) => hash(s.text) % n
  }

  /** The first entry of `chain` whose text equals `text` (the strcmp search of strt_lookup). */
  function FindText(chain: seq<Str>, text: string): (r: Option<Str>)
    ensures r.Some? ==> r.value in chain && r.value.text == text
    ensures r.None? <==> forall x :: x in chain ==> x.text != text
  {
    if chain == [] then None
    else if chain[0].text == text then Some(chain[0])
    else FindText(chain[1..], text)
  }

  ghost predicate TextsUnique(tab: seq<seq<Str>>)
  {
    forall b, i, j :: 0 <= b < |tab| && 0 <= i < j < |tab[b]| ==> tab[b][i].text != tab[b][j].text
  }

  /** Pushing a string whose text its chain lacks keeps the texts of each chain distinct. */
  lemma TextsUniquePrepend(tab: seq<seq<Str>>, b: nat, str: Str)
    requires TextsUnique(tab) && b < |tab|
    requires forall x :: x in tab[b] ==> x.text != str.text
    ensures TextsUnique(tab[b := [str] + tab[b]])
  {
    var t: seq<seq<Str>> := tab[b := [str] + tab[b]];
    forall c, i, j | 0 <= c < |t| && 0 <= i < j < |t[c]|
      ensures t[c][i].text != t[c][j].text
    {
      if c == b && i == 0 {
        assert t[c][j] == tab[b][j - 1];
        assert tab[b][j - 1] in tab[b];
      } else if c == b {
        assert t[c][i] == tab[b][i - 1] && t[c][j] == tab[b][j - 1];
      }
    }
  }

  /** strl_new: a node holding `str`, or None when no buffer is given and malloc fails. */
  function StrlNew(bufGiven: bool, str: Str, allocOk: bool): (r: Option<Str>)
    ensures r.Some? <==> bufGiven || allocOk
    ensures r.Some? ==> r.value == str
  {
    if bufGiven || allocOk then Some(str) else None
  }

  class StrTable {
    /** Number of strings stored. */
    var nmemb: nat
    const bufnmemb: nat
    var tab: seq<seq<Str>>
    /** The unreduced string hash; strt_hashstr reduces it modulo bufnmemb. */
    const hash: string -> nat

    ghost predicate Valid()
      reads this
    {
      bufnmemb == STRTABLEBUFNMEMB && |tab| == bufnmemb
      && Placed(tab, TextBucket(hash, bufnmemb)) && TextsUnique(tab)
      && nmemb == |Flatten(tab)|
    }

    function Bucket(text: string): (b: nat)
      reads this
      requires bufnmemb > 0
      ensures b < bufnmemb
    {
      hash(text) % bufnmemb
    }

    ghost function Entries(): multiset<Str>
      reads this
    {
      multiset(Flatten(tab))
    }

    /** strt_new: no strings, STRTABLEBUFNMEMB empty chains. */
    constructor(hash: string -> nat)
      ensures Valid() && this.hash == hash && nmemb == 0 && Entries() == multiset{}
    {
      nmemb := 0;
      bufnmemb := STRTABLEBUFNMEMB;
      tab := EmptyTab(STRTABLEBUFNMEMB);
      this.hash := hash;
      new;
      FlattenEmpty<Str>(STRTABLEBUFNMEMB);
    }

    /** A text is found in its bucket iff some stored string has it. */
    lemma FindIffPresent(text: string)
      requires Valid()
      ensures FindText(tab[Bucket(text)], text).None? <==> forall x :: x in Flatten(tab) ==> x.text != text
    {
      var c := tab[Bucket(text)];
      if FindText(c, text).Some? {
        FlattenMember(tab, TextBucket(hash, bufnmemb), FindText(c, text).value);
      } else {
        forall x | x in Flatten(tab)
          ensures x.text != text
        {
          FlattenMember(tab, TextBucket(hash, bufnmemb), x);
        }
      }
    }

    /** Interning: two stored strings with equal text are the same pointer. */
    lemma Interned(a: Str, b: Str)
      requires Valid() && a in Entries() && b in Entries() && a.text == b.text
      ensures a == b
    {
      FlattenMember(tab, TextBucket(hash, bufnmemb), a);
      FlattenMember(tab, TextBucket(hash, bufnmemb), b);
      var c := tab[Bucket(a.text)];
      var i :| 0 <= i < |c| && c[i] == a;
      var j :| 0 <= j < |c| && c[j] == b;
      assert !(i < j) && !(j < i);
    }

    /** strt_lookup: the stored string with an equal text, or with `create` a new
      * node holding the caller's pointer pushed at the head of its chain. */
    method Lookup(str: Str, create: bool, allocOk: bool) returns (r: Option<Str>)
      requires Valid()
      modifies this
      ensures Valid()
      ensures old(FindText(tab[Bucket(str.text)], str.text)).Some? ==>
        r == old(FindText(tab[Bucket(str.text)], str.text)) && tab == old(tab) && nmemb == old(nmemb)
      ensures old(FindText(tab[Bucket(str.text)], str.text)).None? && !(create && allocOk) ==>
        r == None && tab == old(tab) && nmemb == old(nmemb)
      ensures old(FindText(tab[Bucket(str.text)], str.text)).None? && create && allocOk ==>
        r == Some(str) && tab == old(tab[Bucket(str.text) := [str] + tab[Bucket(str.text)]])
        && nmemb == old(nmemb) + 1 && Entries() == old(Entries()) + multiset{str}
    {
      var b := Bucket(str.text);
      var chain := tab[b];
      var i := 0;
      while i < |chain|
        invariant 0 <= i <= |chain|
        invariant FindText(chain, str.text) == FindText(chain[i..], str.text)
      {
        if chain[i].text == str.text {
          assert chain[i..][0] == chain[i];
          return Some(chain[i]);
        }
        assert chain[i..][1..] == chain[i + 1..];
        i := i + 1;
      }
      if !create {
        return None;
      }
      r := StrlNew(false, str, allocOk);
      if r.None? {
        return;
      }
      Push(b, str);
    }

    /** The head insertion of strt_lookup: the node becomes the chain's first, nmemb counts it. */
    method Push(b: nat, str: Str)
      requires Valid() && b < bufnmemb && Bucket(str.text) == b
      requires forall x :: x in tab[b] ==> x.text != str.text
      modifies this
      ensures Valid()
      ensures tab == old(tab[b := [str] + tab[b]]) && nmemb == old(nmemb) + 1
      ensures Entries() == old(Entries()) + multiset{str}
    {
      FlattenPrepend(tab, b, str);
      PlacedPrepend(tab, TextBucket(hash, bufnmemb), b, str);
      TextsUniquePrepend(tab, b, str);
      tab := tab[b := [str] + tab[b]];
      nmemb := nmemb + 1;
    }

    /** strt_addstr: intern the caller's string. On success `str'` is the table's
      * pointer for that text; the caller's buffer is freed when they differ. */
    method AddStr(str: Str, allocOk: bool) returns (ret: int, str': Str, freed: bool)
      requires Valid()
      modifies this
      ensures Valid()
      ensures ret == -1 <==> old(FindText(tab[Bucket(str.text)], str.text)).None? && !allocOk
      ensures ret == -1 ==> str' == str && !freed && tab == old(tab) && nmemb == old(nmemb)
      ensures ret != -1 ==> ret == 0 && str'.text == str.text && str' in Entries()
      ensures ret == 0 ==> (freed <==> str'.id != str.id)
      ensures ret == 0 && old(FindText(tab[Bucket(str.text)], str.text)).Some? ==>
        str' == old(FindText(tab[Bucket(str.text)], str.text)).value && tab == old(tab)
      ensures ret == 0 && old(FindText(tab[Bucket(str.text)], str.text)).None? ==>
        str' == str && Entries() == old(Entries()) + multiset{str}
    {
      var sp := Lookup(str, true, allocOk);
      if sp.None? {
        return -1, str, false;
      }
      ghost var c := tab[Bucket(str.text)];
      FlattenMember(tab, TextBucket(hash, bufnmemb), sp.value);
      freed := false;
      str' := str;
      if sp.value.id != str.id {
        freed := true;
        str' := sp.value;
      }
      ret := 0;
    }
  }

  /** strt_new(NULL): a fresh string table, or null when malloc or calloc fails. */
  method StrtNew(hash: string -> nat, allocOk: bool) returns (t: StrTable?)
    ensures !allocOk <==> t == null
    ensures t != null ==> fresh(t) && t.Valid() && t.hash == hash && t.nmemb == 0 && t.Entries() == multiset{}
  {
    if !allocOk {
      return null;
    }
    t := new StrTable(hash);
  }

  // ---------------------------------------------------------------------
  // The Markov state table

  /** A state: its prefix words and the words seen after them, most recent first. */
  class MrkvState {
    const pref: seq<string>
    var suf: seq<string>

    /** mrkv_statenew on a successful malloc: copies the prefix, no suffixes. */
    constructor(pref: seq<string>)
      ensures this.pref == pref && suf == []
    {
      this.pref := pref;
      suf := [];
    }
  }

  /** mrkv_statenew: a state holding a copy of the first NPREF words, or null. */
  method MrkvStateNew(pref: seq<string>, allocOk: bool) returns (state: MrkvState?)
    requires NPREF <= |pref|
    ensures !allocOk <==> state == null
    ensures state != null ==> fresh(state) && state.pref == pref[..NPREF] && state.suf == []
  {
    if !allocOk {
      return null;
    }
    state := new MrkvState(pref[..NPREF]);
  }

  /** mrkv_sufadd: prepends `word` to the suffix list (no deduplication); -1 when malloc fails. */
  method MrkvSufAdd(state: MrkvState, word: string, allocOk: bool) returns (ret: int)
    modifies state
    ensures allocOk ==> ret == 0 && state.suf == [word] + old(state.suf)
    ensures !allocOk ==> ret == -1 && state.suf == old(state.suf)
  {
    if !allocOk {
      return -1;
    }
    state.suf := [word] + state.suf;
    ret := 0;
  }

  /** The node a reservoir loop keeps after k steps, when step k (1-based) keeps node
    * k - 1 iff draw k is divisible by k. The pickers run it over every node but the
    * last, so a chain of two or more nodes never yields its last one. */
  function Reservoir(k: nat, rand: nat -> nat): (i: nat)
    ensures i == 0 || i < k
  {
    if k == 0 then 0
    else if rand(k) % k == 0 then k - 1
    else Reservoir(k - 1, rand)
  }

  /** mrkv_sufrand: a word of the (non-empty) suffix list, chosen by the reservoir
    * loop over every node that has a successor. */
  method MrkvSufRand(state: MrkvState, rand: nat -> nat) returns (w: string)
    requires state.suf != []
    ensures w == state.suf[Reservoir(|state.suf| - 1, rand)]
    ensures w in state.suf
  {
    var suf := 0;
    var tsp := 0;
    var nfound := 0;
    while tsp + 1 < |state.suf|
      invariant 0 <= tsp < |state.suf| && nfound == tsp
      invariant suf == Reservoir(tsp, rand)
    {
      nfound := nfound + 1;
      if rand(nfound) % nfound == 0 {
        suf := tsp;
      }
      tsp := tsp + 1;
    }
    w := state.suf[suf];
  }

  /** The chain of a state: the hash of its prefix reduced modulo the bucket count. */
  function PrefBucket(hash: seq<string> -> nat, n: nat): (bucket: MrkvState -> nat)
    requires n > 0
  {
    (s: MrkvState) => hash(s.pref) % n
  }

  /** The first state of `chain` whose prefix equals `prefix`, or null. */
  function FindPref(chain: seq<MrkvState>, prefix: seq<string>): (r: MrkvState?)
    ensures r != null ==> r in chain && r.pref == prefix
    ensures r == null <==> forall s :: s in chain ==> s.pref != prefix
  {
    if chain == [] then null
    else if chain[0].pref == prefix then chain[0]
    else FindPref(chain[1..], prefix)
  }

  ghost predicate PrefsUnique(tab: seq<seq<MrkvState>>)
  {
    forall b, i, j :: 0 <= b < |tab| && 0 <= i < j < |tab[b]| ==> tab[b][i].pref != tab[b][j].pref
  }

  /** Pushing a state whose prefix its chain lacks keeps the prefixes of each chain distinct. */
  lemma PrefsUniquePrepend(tab: seq<seq<MrkvState>>, b: nat, state: MrkvState)
    requires PrefsUnique(tab) && b < |tab|
    requires forall s :: s in tab[b] ==> s.pref != state.pref
    ensures PrefsUnique(tab[b := [state] + tab[b]])
  {
    var t: seq<seq<MrkvState>> := tab[b := [state] + tab[b]];
    forall c, i, j | 0 <= c < |t| && 0 <= i < j < |t[c]|
      ensures t[c][i].pref != t[c][j].pref
    {
      if c == b && i == 0 {
        assert t[c][j] == tab[b][j - 1];
        assert tab[b][j - 1] in tab[b];
      } else if c == b {
        assert t[c][i] == tab[b][i - 1] && t[c][j] == tab[b][j - 1];
      }
    }
  }

  /** Steps from bucket a forward (cyclically) to bucket b in a table of n buckets. */
  function Dist(a: nat, b: nat, n: nat): nat
    requires a < n
  {
    if a <= b then b - a else b + n - a
  }

  /** The first loop of mrkv_prefixrand: from bucket `start` reduced modulo the
    * bucket count, step forward (wrapping) to the first non-empty chain. */
  method FirstChain<T>(tab: seq<seq<T>>, start: nat) returns (i: nat)
    requires exists b0 :: 0 <= b0 < |tab| && tab[b0] != []
    ensures i < |tab| && tab[i] != []
    ensures forall j :: 0 <= j < |tab| && Dist(start % |tab|, j, |tab|) < Dist(start % |tab|, i, |tab|) ==> tab[j] == []
  {
    var n := |tab|;
    var s0 := start % n;
    ghost var b0 :| 0 <= b0 < n && tab[b0] != [];
    i := s0;
    while tab[i] == []
      invariant 0 <= i < n
      invariant Dist(s0, i, n) <= Dist(s0, b0, n)
      invariant forall j :: 0 <= j < n && Dist(s0, j, n) < Dist(s0, i, n) ==> tab[j] == []
      decreases Dist(s0, b0, n) - Dist(s0, i, n)
    {
      DistInjective(s0, i, b0, n);
      forall j | 0 <= j < n && Dist(s0, j, n) == Dist(s0, i, n)
        ensures tab[j] == []
      {
        DistInjective(s0, j, i, n);
      }
      DistStep(s0, i, n);
      i := (i + 1) % n;
    }
  }

  /** Distinct buckets lie at distinct distances from the start. */
  lemma DistInjective(s0: nat, i: nat, j: nat, n: nat)
    requires s0 < n && i < n && j < n
    ensures Dist(s0, i, n) == Dist(s0, j, n) ==> i == j
  {
  }

  /** Stepping to the next bucket (wrapping at n) is one step further from the start. */
  lemma DistStep(s0: nat, i: nat, n: nat)
    requires s0 < n && i < n && Dist(s0, i, n) + 1 < n
    ensures Dist(s0, (i + 1) % n, n) == Dist(s0, i, n) + 1
  {
    if i + 1 == n {
      assert (i + 1) % n == 0;
    } else {
      assert (i + 1) % n == i + 1;
    }
  }

  class MrkvTable {
    /** Never updated: stays 0. */
    var nmemb: nat
    const bufnmemb: nat
    const npref: nat
    var tab: seq<seq<MrkvState>>
    /** The unreduced prefix hash; mrkv_hashstate reduces it modulo bufnmemb. */
    const hash: seq<string> -> nat

    ghost predicate Valid()
      reads this
    {
      bufnmemb == MRKVTABLEBUFNMEMB && npref == NPREF && nmemb == 0 && |tab| == bufnmemb
      && Placed(tab, PrefBucket(hash, bufnmemb)) && PrefsUnique(tab)
      && forall b, k :: 0 <= b < |tab| && 0 <= k < |tab[b]| ==> |tab[b][k].pref| == npref
    }

    function Bucket(prefix: seq<string>): (b: nat)
      reads this
      requires bufnmemb > 0
      ensures b < bufnmemb
    {
      hash(prefix) % bufnmemb
    }

    /** mrkv_tablenew on successful allocations: MRKVTABLEBUFNMEMB empty chains. */
    constructor(hash: seq<string> -> nat)
      ensures Valid() && this.hash == hash && Flatten(tab) == []
    {
      nmemb := 0;
      bufnmemb := MRKVTABLEBUFNMEMB;
      npref := NPREF;
      tab := EmptyTab(MRKVTABLEBUFNMEMB);
      this.hash := hash;
      new;
      FlattenEmpty<MrkvState>(MRKVTABLEBUFNMEMB);
    }

    /** mrkv_prefcmp: 0 iff the first npref strings of both prefixes are equal, else 1
      * (the result of `strcmp(...) != 0`, not the sign of strcmp). */
    method PrefCmp(apref: seq<string>, bpref: seq<string>) returns (ret: int)
      requires npref <= |apref| && npref <= |bpref|
      ensures ret == 0 || ret == 1
      ensures ret == 0 <==> apref[..npref] == bpref[..npref]
    {
      var i := 0;
      while i < npref
        invariant 0 <= i <= npref
        invariant apref[..i] == bpref[..i]
      {
        if apref[i] != bpref[i] {
          assert apref[..npref][i] != bpref[..npref][i];
          return 1;
        }
        assert apref[..i + 1] == apref[..i] + [apref[i]];
        assert bpref[..i + 1] == bpref[..i] + [bpref[i]];
        i := i + 1;
      }
      return 0;
    }

    /** A prefix is found in its bucket iff some stored state has it. */
    lemma FindIffPresent(prefix: seq<string>)
      requires Valid()
      ensures FindPref(tab[Bucket(prefix)], prefix) == null <==> forall s :: s in Flatten(tab) ==> s.pref != prefix
    {
      var c := tab[Bucket(prefix)];
      var found := FindPref(c, prefix);
      if found != null {
        FlattenMember<MrkvState>(tab, PrefBucket(hash, bufnmemb), found);
      } else {
        forall s | s in Flatten(tab)
          ensures s.pref != prefix
        {
          FlattenMember(tab, PrefBucket(hash, bufnmemb), s);
        }
      }
    }

    /** mrkv_lookup: the state with an equal prefix, or with `create` a new state
      * (copied prefix, empty suffix list) pushed at the head of its chain. */
    method Lookup(prefix: seq<string>, create: bool, allocOk: bool) returns (r: MrkvState?)
      requires Valid() && |prefix| == npref
      modifies this
      ensures Valid() && nmemb == old(nmemb)
      ensures old(FindPref(tab[Bucket(prefix)], prefix)) != null ==>
        r == old(FindPref(tab[Bucket(prefix)], prefix)) && tab == old(tab)
      ensures old(FindPref(tab[Bucket(prefix)], prefix)) == null && !(create && allocOk) ==>
        r == null && tab == old(tab)
      ensures old(FindPref(tab[Bucket(prefix)], prefix)) == null && create && allocOk ==>
        r != null && fresh(r) && r.pref == prefix && r.suf == []
        && tab == old(tab[Bucket(prefix) := [r] + tab[Bucket(prefix)]])
    {
      var b := Bucket(prefix);
      var chain := tab[b];
      var i := 0;
      while i < |chain|
        invariant 0 <= i <= |chain|
        invariant FindPref(chain, prefix) == FindPref(chain[i..], prefix)
        invariant unchanged(this)
      {
        var c := PrefCmp(prefix, chain[i].pref);
        assert chain[i] in tab[b];
        assert prefix[..npref] == prefix && chain[i].pref[..npref] == chain[i].pref;
        if c == 0 {
          assert chain[i..][0] == chain[i];
          return chain[i];
        }
        assert chain[i..][1..] == chain[i + 1..];
        i := i + 1;
      }
      if !create {
        return null;
      }
      r := MrkvStateNew(prefix, allocOk);
      if r == null {
        return;
      }
      assert prefix[..NPREF] == prefix;
      Push(b, r);
    }

    /** The head insertion of mrkv_lookup (nmemb is left alone). */
    method Push(b: nat, state: MrkvState)
      requires Valid() && b < bufnmemb && Bucket(state.pref) == b && |state.pref| == npref
      requires forall s :: s in tab[b] ==> s.pref != state.pref
      modifies this
      ensures Valid() && nmemb == old(nmemb)
      ensures tab == old(tab[b := [state] + tab[b]])
    {
      PlacedPrepend(tab, PrefBucket(hash, bufnmemb), b, state);
      PrefsUniquePrepend(tab, b, state);
      tab := tab[b := [state] + tab[b]];
    }

    /** Every stored state is what a later lookup of its prefix returns. */
    lemma LookupFinds(s: MrkvState)
      requires Valid() && s in Flatten(tab)
      ensures FindPref(tab[Bucket(s.pref)], s.pref) == s
    {
      FlattenMember(tab, PrefBucket(hash, bufnmemb), s);
      var c := tab[Bucket(s.pref)];
      var k :| 0 <= k < |c| && c[k] == s;
      FindFirst(c, k);
    }

    /** mrkv_prefixrand: the prefix of a state of the first non-empty chain at or
      * after bucket `start` (cyclically), chosen by the reservoir loop over that chain;
      * b is that chain's bucket and state the chosen state (the source's i and retsp).
      * An empty table makes the source loop forever, hence the precondition. */
    method PrefixRand(start: nat, rand: nat -> nat) returns (pref: seq<string>, b: nat, state: MrkvState)
      requires Valid()
      requires exists b0 :: 0 <= b0 < |tab| && tab[b0] != []
      ensures b < |tab| && tab[b] != [] && state == tab[b][Reservoir(|tab[b]| - 1, rand)]
      ensures pref == state.pref && state in Flatten(tab)
      ensures forall j :: 0 <= j < |tab| && Dist(start % bufnmemb, j, bufnmemb) < Dist(start % bufnmemb, b, bufnmemb) ==> tab[j] == []
    {
      var i := FirstChain(tab, start);
      b := i;
      var chain := tab[i];
      var retsp := 0;
      var sp := 0;
      var k := 0;
      while sp + 1 < |chain|
        invariant 0 <= sp < |chain| && k == sp
        invariant retsp == Reservoir(sp, rand)
      {
        k := k + 1;
        if rand(k) % k == 0 {
          retsp := sp;
        }
        sp := sp + 1;
      }
      pref := chain[retsp].pref;
      state := chain[retsp];
      FlattenMember(tab, PrefBucket(hash, bufnmemb), state);
    }
  }

  /** In a chain of distinct prefixes, the search for a member's prefix finds that member. */
  lemma {:induction false} FindFirst(chain: seq<MrkvState>, k: nat)
    requires k < |chain|
    requires forall i, j :: 0 <= i < j < |chain| ==> chain[i].pref != chain[j].pref
    ensures FindPref(chain, chain[k].pref) == chain[k]
  {
    if k > 0 {
      assert chain[0].pref != chain[k].pref;
      assert chain[1..][k - 1] == chain[k];
      FindFirst(chain[1..], k - 1);
    }
  }

  /** mrkv_tablenew: a fresh Markov table, or null when malloc or calloc fails. */
  method MrkvTableNew(hash: seq<string> -> nat, allocOk: bool) returns (t: MrkvTable?)
    ensures !allocOk <==> t == null
    ensures t != null ==> fresh(t) && t.Valid() && t.hash == hash && Flatten(t.tab) == []
  {
    if !allocOk {
      return null;
    }
    t := new MrkvTable(hash);
  }

  // ---------------------------------------------------------------------
  // The prefix window of body_work

  /** The window after reading `w`: the oldest word drops out, `w` comes in last. */
  function Shifted<T>(pref: seq<T>, w: T): seq<T>
    requires pref != []
  {
    pref[1..] + [w]
  }

  /** The window after reading every word of `ws` in turn. */
  function ShiftAll<T>(pref: seq<T>, ws: seq<T>): seq<T>
    requires pref != []
    decreases |ws|
  {
    if ws == [] then pref else ShiftAll(Shifted(pref, ws[0]), ws[1..])
  }

  /** The window always holds the last |pref| words of the initial window followed
    * by every word read. */
  lemma {:induction false} WindowHoldsLastWords<T>(pref: seq<T>, ws: seq<T>)
    requires pref != []
    decreases |ws|
    ensures |ShiftAll(pref, ws)| == |pref|
    ensures ShiftAll(pref, ws) == (pref + ws)[|ws|..]
  {
    if ws != [] {
      WindowHoldsLastWords(Shifted(pref, ws[0]), ws[1..]);
      assert Shifted(pref, ws[0]) + ws[1..] == (pref + ws)[1..];
      assert (pref + ws)[1..][|ws| - 1..] == (pref + ws)[|ws|..];
    }
  }

  /** The memmove of pref + 1 onto pref and the store of `w` in the last slot. */
  method ShiftWindow<T>(pref: array<T>, w: T)
    requires pref.Length > 0
    modifies pref
    ensures pref[..] == Shifted(old(pref[..]), w)
  {
    var n := pref.Length;
    for i := 0 to n - 1
      invariant forall k :: 0 <= k < i ==> pref[k] == old(pref[k + 1])
      invariant forall k :: i <= k < n ==> pref[k] == old(pref[k])
    {
      pref[i] := pref[i + 1];
    }
    pref[n - 1] := w;
    assert forall k :: 0 <= k < n ==> pref[..][k] == Shifted(old(pref[..]), w)[k];
  }
}
