// Model of the CSV field splitter of 4-1_2_3_4/csvlib.c. The split works in
// place on sline, a copy of the line whose NUL sits at index linelen: fields
// are cut by storing NULs into it, quoted fields are unescaped by moving
// characters down, and field[] records the offset at which each field starts.
module Csv {
  import opened Common

  const QUOTE: char := '"'
  /** csv_setopt's only command. */
  const CSV_SEP: int := 1

  /**
   * strcspn(s + x, sep): the number of characters from x before the first
   * NUL or separator. The NUL at index n bounds the scan.
   */
  function Strcspn(s: seq<char>, x: nat, n: nat, sep: seq<char>): (len: nat)
    requires x <= n < |s| && s[n] == NUL
    ensures x + len <= n
    decreases n - x
  {
    if s[x] == NUL || s[x] in sep then 0 else 1 + Strcspn(s, x + 1, n, sep)
  }

  /** strcspn stops at the first NUL or separator. */
  lemma {:induction false} StrcspnStops(s: seq<char>, x: nat, n: nat, sep: seq<char>)
    requires x <= n < |s| && s[n] == NUL
    ensures var len := Strcspn(s, x, n, sep);
      (forall k :: x <= k < x + len ==> s[k] != NUL && s[k] !in sep)
      && (s[x + len] == NUL || s[x + len] in sep)
    decreases n - x
  {
    if !(s[x] == NUL || s[x] in sep) {
      StrcspnStops(s, x + 1, n, sep);
    }
  }

  /** s after memmove(s + dst, s + src, k). */
  function Moved(s: seq<char>, dst: nat, src: nat, k: nat): (r: seq<char>)
    requires dst <= src && src + k <= |s|
    ensures |r| == |s|
  {
    s[..dst] + s[src..src + k] + s[dst + k..]
  }

  lemma MovedAt(s: seq<char>, dst: nat, src: nat, k: nat, x: nat)
    requires dst <= src && src + k <= |s| && x < |s|
    ensures Moved(s, dst, src, k)[x] == if dst <= x < dst + k then s[x - dst + src] else s[x]
  {
  }

  lemma MovedGrows(s: seq<char>, dst: nat, src: nat, m: nat, s1: seq<char>)
    requires dst <= src && src + m < |s|
    requires s1 == Moved(s, dst, src, m)[dst + m := s[src + m]]
    ensures s1 == Moved(s, dst, src, m + 1)
  {
    forall x | 0 <= x < |s|
      ensures s1[x] == Moved(s, dst, src, m + 1)[x]
    {
      MovedAt(s, dst, src, m, x);
      MovedAt(s, dst, src, m + 1, x);
    }
  }

  lemma MovedNothing(s: seq<char>, dst: nat, src: nat)
    requires dst <= src <= |s|
    ensures Moved(s, dst, src, 0) == s
  {
    assert s[..dst] + s[dst..] == s;
  }

  /**
   * One pass of advquoted's loop at p[j], having written i unescaped
   * characters at p: the buffer, the new i and j, and whether the closing
   * quote ended the loop. At the closing quote the text up to the next
   * separator moves down to p[i]; otherwise p[j] is copied to p[i], and a
   * doubled quote stands for one quote.
   */
  function QuoteStep(s: seq<char>, p: nat, i: nat, j: nat, n: nat, sep: seq<char>): (r: (seq<char>, nat, nat, bool))
    requires i <= j && p + j <= n < |s| && s[n] == NUL && s[p + j] != NUL
    ensures |r.0| == |s| && r.0[n] == NUL && p + r.1 <= n
    ensures j < r.2 && p + r.2 <= n && (!r.3 ==> r.1 <= r.2)
  {
    if s[p + j] == QUOTE && s[p + j + 1] != QUOTE then
      var src := p + j + 1;
      var k := Strcspn(s, src, n, sep);
      MovedAt(s, p + i, src, k, n);
      (Moved(s, p + i, src, k), i + k, j + 1, true)
    else
      var j' := if s[p + j] == QUOTE then j + 1 else j;
      (s[p + i := s[p + j']], i + 1, j' + 1, false)
  }

  lemma QuoteStepCloses(s: seq<char>, p: nat, i: nat, j: nat, n: nat, sep: seq<char>, k: nat, s1: seq<char>)
    requires i <= j && p + j <= n < |s| && s[n] == NUL
    requires s[p + j] == QUOTE && s[p + j + 1] != QUOTE && k == Strcspn(s, p + j + 1, n, sep)
    requires s1 == Moved(s, p + i, p + j + 1, k)
    ensures QuoteStep(s, p, i, j, n, sep) == (s1, i + k, j + 1, true)
  {
  }

  lemma QuoteStepCopies(s: seq<char>, p: nat, i: nat, j: nat, n: nat, sep: seq<char>, j': nat, s1: seq<char>)
    requires i <= j && p + j <= n < |s| && s[n] == NUL && s[p + j] != NUL
    requires !(s[p + j] == QUOTE && s[p + j + 1] != QUOTE)
    requires j' == (if s[p + j] == QUOTE then j + 1 else j) && s1 == s[p + i := s[p + j']]
    ensures QuoteStep(s, p, i, j, n, sep) == (s1, i + 1, j' + 1, false)
  {
  }

  /** The buffer and the length advquoted leaves once its loop reaches
      p[j], having written i unescaped characters at p. */
  function Unquoted(s: seq<char>, p: nat, i: nat, j: nat, n: nat, sep: seq<char>): (r: (seq<char>, nat))
    requires i <= j && p + j <= n < |s| && s[n] == NUL
    ensures |r.0| == |s| && p + r.1 <= n && r.0[n] == NUL
    decreases n - (p + j)
  {
    if s[p + j] == NUL then (s[p + i := NUL], i)
    else
      var st := QuoteStep(s, p, i, j, n, sep);
      if st.3 then (st.0[p + st.1 := NUL], st.1)
      else Unquoted(st.0, p, st.1, st.2, n, sep)
  }

  /** One pass of advquoted's loop keeps the result it is heading for. */
  lemma UnquotedAdvances(s: seq<char>, p: nat, i: nat, j: nat, n: nat, sep: seq<char>,
                         target: (seq<char>, nat), s1: seq<char>, i1: nat, j1: nat, done: bool)
    requires i <= j && p + j <= n < |s| && s[n] == NUL && s[p + j] != NUL
    requires Unquoted(s, p, i, j, n, sep) == target
    requires (s1, i1, j1, done) == QuoteStep(s, p, i, j, n, sep)
    ensures p + j1 <= n && p + i1 <= n && |s1| == |s| && s1[n] == NUL
    ensures done ==> (s1[p + i1 := NUL], i1) == target
    ensures !done ==> i1 <= j1 && Unquoted(s1, p, i1, j1, n, sep) == target
  {
  }

  lemma UnquotedClosing(s: seq<char>, p: nat, i: nat, j: nat, n: nat, sep: seq<char>)
    requires i <= j && p + j <= n < |s| && s[n] == NUL
    requires s[p + j] == QUOTE && s[p + j + 1] != QUOTE
    ensures var k := Strcspn(s, p + j + 1, n, sep);
      Unquoted(s, p, i, j, n, sep) == (Moved(s, p + i, p + j + 1, k)[p + i + k := NUL], i + k)
  {
  }

  lemma UnquotedCopy(s: seq<char>, s1: seq<char>, p: nat, i: nat, j: nat, j': nat, n: nat, sep: seq<char>,
                     m: nat, jn: nat)
    requires i <= j && p + j <= n < |s| && s[n] == NUL && s[p + j] != NUL
    requires !(s[p + j] == QUOTE && s[p + j + 1] != QUOTE)
    requires j' == (if s[p + j] == QUOTE then j + 1 else j)
    requires s1 == s[p + i := s[p + j']] && m == i + 1 && jn == j' + 1
    ensures m <= jn && p + jn <= n && s1[n] == NUL
    ensures Unquoted(s, p, i, j, n, sep) == Unquoted(s1, p, m, jn, n, sep)
  {
    assert QuoteStep(s, p, i, j, n, sep) == (s1, m, jn, false);
  }

  /**
   * One pass of csv_splitstr's loop at p: the buffer, where the field
   * starts (past an opening quote), and its length once advquoted or
   * advunquoted has cut it.
   */
  function FieldStep(s: seq<char>, p: nat, n: nat, sep: seq<char>): (r: (seq<char>, nat, nat))
    requires p < n < |s| && s[n] == NUL
    ensures |r.0| == |s| && r.0[n] == NUL && p <= r.1 && r.1 + r.2 <= n
  {
    if s[p] == QUOTE then
      var q := Unquoted(s, p + 1, 0, 0, n, sep);
      (q.0, p + 1, q.1)
    else
      var len := Strcspn(s, p, n, sep);
      (s[p + len := NUL], p, len)
  }

  /** The buffer and the field offsets csv_splitstr produces from p on. */
  function SplitFrom(s: seq<char>, p: nat, n: nat, sep: seq<char>, fields: seq<nat>): (r: (seq<char>, seq<nat>))
    requires p <= n + 1 && n < |s| && s[n] == NUL
    requires forall k :: 0 <= k < |fields| ==> fields[k] < p
    ensures |r.0| == |s| && r.0[n] == NUL
    decreases n + 1 - p
  {
    if p >= n then (s, fields)
    else
      var st := FieldStep(s, p, n, sep);
      SplitFrom(st.0, st.1 + st.2 + 1, n, sep, fields + [st.1])
  }

  function Split(s: seq<char>, n: nat, sep: seq<char>): (r: (seq<char>, seq<nat>))
    requires n < |s| && s[n] == NUL
  {
    SplitFrom(s, 0, n, sep, [])
  }

  // ---------------------------------------------------------------------
  // Properties of the split

  /**
   * advquoted leaves the field NUL-terminated where its unescaped text
   * ends, and that text is at least as long as what was already written.
   */
  lemma {:induction false} UnquotedEnds(s: seq<char>, p: nat, i: nat, j: nat, n: nat, sep: seq<char>)
    requires i <= j && p + j <= n < |s| && s[n] == NUL
    ensures i <= Unquoted(s, p, i, j, n, sep).1
    ensures Unquoted(s, p, i, j, n, sep).0[p + Unquoted(s, p, i, j, n, sep).1] == NUL
    decreases n - (p + j)
  {
    if s[p + j] == NUL {
      UnquotedAtNul(s, p, i, j, n, sep);
    } else if s[p + j] == QUOTE && s[p + j + 1] != QUOTE {
      UnquotedClosing(s, p, i, j, n, sep);
    } else {
      var j' := if s[p + j] == QUOTE then j + 1 else j;
      var s1, m, jn := s[p + i := s[p + j']], i + 1, j' + 1;
      UnquotedCopy(s, s1, p, i, j, j', n, sep, m, jn);
      UnquotedEnds(s1, p, m, jn, n, sep);
    }
  }

  /**
   * csv_splitstr keeps the offsets it had, records at least one field when
   * text remains, and records offsets inside the line in increasing order.
   */
  lemma {:induction false} SplitFromShape(s: seq<char>, p: nat, n: nat, sep: seq<char>, fields: seq<nat>)
    requires p <= n + 1 && n < |s| && s[n] == NUL
    requires forall k :: 0 <= k < |fields| ==> fields[k] < p
    ensures var r := SplitFrom(s, p, n, sep, fields);
      |r.1| >= |fields| && r.1[..|fields|] == fields
      && (p < n ==> |r.1| > |fields|)
      && (forall k :: |fields| <= k < |r.1| ==> p <= r.1[k] <= n)
      && (forall k :: |fields| <= k < |r.1| - 1 ==> r.1[k] < r.1[k + 1])
    decreases n + 1 - p
  {
    if p < n {
      var st := FieldStep(s, p, n, sep);
      var p', fields' := st.1 + st.2 + 1, fields + [st.1];
      SplitFromShape(st.0, p', n, sep, fields');
      var r := SplitFrom(st.0, p', n, sep, fields');
      assert SplitFrom(s, p, n, sep, fields) == r;
      assert r.1[..|fields|] == r.1[..|fields'|][..|fields|];
    }
  }

  /** One pass of csv_splitstr's loop keeps the result it is heading for,
      and that result has room for the field it records. */
  lemma SplitAdvances(s: seq<char>, p: nat, n: nat, sep: seq<char>, fields: seq<nat>,
                      target: (seq<char>, seq<nat>), s1: seq<char>, start: nat, flen: nat)
    requires p < n < |s| && s[n] == NUL
    requires forall k :: 0 <= k < |fields| ==> fields[k] < p
    requires SplitFrom(s, p, n, sep, fields) == target
    requires (s1, start, flen) == FieldStep(s, p, n, sep)
    ensures |target.1| > |fields| && start + flen + 1 <= n + 1 && |s1| == |s| && s1[n] == NUL
    ensures forall k :: 0 <= k < |fields + [start]| ==> (fields + [start])[k] < start + flen + 1
    ensures SplitFrom(s1, start + flen + 1, n, sep, fields + [start]) == target
  {
    SplitFromShape(s, p, n, sep, fields);
  }

  /** What strcspn counts is a run of characters that are neither NUL nor
      separators, ended by one of those. */
  lemma {:induction false} StrcspnOfRun(s: seq<char>, x: nat, len: nat, n: nat, sep: seq<char>)
    requires x + len <= n < |s| && s[n] == NUL
    requires forall y :: x <= y < x + len ==> s[y] != NUL && s[y] !in sep
    requires s[x + len] == NUL || s[x + len] in sep
    ensures Strcspn(s, x, n, sep) == len
    decreases len
  {
    if len > 0 {
      StrcspnOfRun(s, x + 1, len - 1, n, sep);
    }
  }

  /** The C string at offset off of the buffer: what a field pointer shows. */
  function FieldText(buf: seq<char>, off: nat, n: nat): seq<char>
    requires off <= n < |buf| && buf[n] == NUL
  {
    buf[off..off + Strcspn(buf, off, n, [])]
  }

  /** A field written as is: no NUL, no separator, no opening quote. */
  predicate PlainField(f: seq<char>, sep: seq<char>)
  {
    (forall y :: 0 <= y < |f| ==> f[y] != NUL && f[y] !in sep)
    && (|f| > 0 ==> f[0] != QUOTE)
  }

  /** The fields joined by the separator character c. */
  function Join(fs: seq<seq<char>>, c: char): seq<char>
    requires |fs| >= 1
  {
    if |fs| == 1 then fs[0] else fs[0] + [c] + Join(fs[1..], c)
  }

  /** csv_splitstr's step over an unquoted field of length len. */
  lemma SplitPlainStep(s: seq<char>, p: nat, len: nat, n: nat, sep: seq<char>, acc: seq<nat>)
    requires p < n < |s| && s[n] == NUL && p + len <= n && s[p] != QUOTE
    requires forall k :: 0 <= k < |acc| ==> acc[k] < p
    requires forall y :: p <= y < p + len ==> s[y] != NUL && s[y] !in sep
    requires s[p + len] == NUL || s[p + len] in sep
    ensures SplitFrom(s, p, n, sep, acc) == SplitFrom(s[p + len := NUL], p + len + 1, n, sep, acc + [p])
  {
    StrcspnOfRun(s, p, len, n, sep);
  }

  /** The text of a field cut at p + len is the run before the cut. */
  lemma FieldTextOfRun(buf: seq<char>, p: nat, len: nat, n: nat)
    requires p + len <= n < |buf| && buf[n] == NUL && buf[p + len] == NUL
    requires forall y :: p <= y < p + len ==> buf[y] != NUL
    ensures FieldText(buf, p, n) == buf[p..p + len]
  {
    StrcspnOfRun(buf, p, len, n, []);
  }

  /** The field pointers ptrs point at the texts fs in buf. */
  predicate FieldsAre(buf: seq<char>, ptrs: seq<nat>, n: nat, fs: seq<seq<char>>)
    requires n < |buf| && buf[n] == NUL
  {
    |ptrs| == |fs| && forall k :: 0 <= k < |fs| ==> ptrs[k] <= n && FieldText(buf, ptrs[k], n) == fs[k]
  }

  /** The first of the joined plain fields, as csv_splitstr meets it at p. */
  lemma FirstPlainField(s: seq<char>, p: nat, n: nat, sep: seq<char>, fs: seq<seq<char>>, c: char)
    requires c in sep && QUOTE !in sep && p <= n < |s| && s[n] == NUL
    requires |fs| >= 1 && fs[|fs| - 1] != []
    requires forall k :: 0 <= k < |fs| ==> PlainField(fs[k], sep)
    requires s[p..n] == Join(fs, c)
    ensures p + |fs[0]| <= n && p < n && s[p] != QUOTE
    ensures forall y :: p <= y < p + |fs[0]| ==> s[y] != NUL && s[y] !in sep
    ensures s[p + |fs[0]|] == NUL || s[p + |fs[0]|] in sep
    ensures s[p..p + |fs[0]|] == fs[0]
    ensures |fs| == 1 ==> p + |fs[0]| == n
    ensures |fs| > 1 ==> p + |fs[0]| < n && s[p + |fs[0]| + 1..n] == Join(fs[1..], c)
  {
    var f := fs[0];
    var len := |f|;
    assert PlainField(f, sep);
    if |fs| == 1 {
      assert s[p..n] == f;
    } else {
      assert s[p..n] == f + [c] + Join(fs[1..], c);
      assert s[p..n][len] == c;
      assert s[p + len + 1..n] == s[p..n][len + 1..];
    }
    assert s[p..n][..len] == f;
    assert p < n && s[p] != QUOTE by {
      if |fs| == 1 || len > 0 {
        assert |fs| == 1 ==> f == fs[|fs| - 1];
        assert s[p] == s[p..n][0] == f[0];
      } else {
        assert s[p] == s[p..n][0] == c;
      }
    }
    forall y | p <= y < p + len
      ensures s[y] != NUL && s[y] !in sep
    {
      assert s[y] == f[y - p];
    }
  }

  /** The last field ends at the line's NUL and is the last field recorded. */
  lemma LastPlainField(s: seq<char>, s': seq<char>, p: nat, len: nat, n: nat, sep: seq<char>, acc: seq<nat>,
                       fs: seq<seq<char>>)
    requires |fs| == 1 && len == |fs[0]| && NUL !in fs[0]
    requires p + len == n < |s| && s' == s[p + len := NUL] && s[p..p + len] == fs[0]
    requires forall k :: 0 <= k < |acc| ==> acc[k] < p
    ensures SplitFrom(s', p + len + 1, n, sep, acc + [p]) == (s', acc + [p])
    ensures FieldsAre(s', (acc + [p])[|acc|..], n, fs)
    ensures forall x :: 0 <= x < p ==> s'[x] == s[x]
  {
    forall y | p <= y < p + len
      ensures s'[y] != NUL
    {
      assert s'[y] == s[y] == s[p..p + len][y - p];
    }
    FieldTextOfRun(s', p, len, n);
    assert s'[p..p + len] == s[p..p + len];
    assert (acc + [p])[|acc|..] == [p];
  }

  /** csv_splitstr's step over the first of the joined plain fields. */
  lemma PlainFirstStep(s: seq<char>, p: nat, n: nat, sep: seq<char>, acc: seq<nat>, fs: seq<seq<char>>, c: char,
                       s': seq<char>, q: nat, acc': seq<nat>)
    requires c in sep && QUOTE !in sep
    requires p <= n < |s| && s[n] == NUL
    requires forall k :: 0 <= k < |acc| ==> acc[k] < p
    requires |fs| >= 1 && fs[|fs| - 1] != []
    requires forall k :: 0 <= k < |fs| ==> PlainField(fs[k], sep)
    requires s[p..n] == Join(fs, c)
    requires s' == s[p + |fs[0]| := NUL] && q == p + |fs[0]| + 1 && acc' == acc + [p]
    ensures q <= n + 1 && |s'| == |s| && s'[n] == NUL
    ensures forall k :: 0 <= k < |acc'| ==> acc'[k] < q
    ensures SplitFrom(s, p, n, sep, acc) == SplitFrom(s', q, n, sep, acc')
    ensures NUL !in fs[0] && s[p..p + |fs[0]|] == fs[0]
    ensures |fs| == 1 ==> p + |fs[0]| == n
    ensures |fs| > 1 ==> q <= n && s'[q..n] == Join(fs[1..], c) && fs[1..][|fs[1..]| - 1] != []
    ensures |fs| > 1 ==> forall k :: 0 <= k < |fs[1..]| ==> PlainField(fs[1..][k], sep)
  {
    FirstPlainField(s, p, n, sep, fs, c);
    assert NUL !in fs[0] by {
      assert PlainField(fs[0], sep);
    }
    SplitPlainStep(s, p, |fs[0]|, n, sep, acc);
    if |fs| > 1 {
      assert s'[q..n] == s[q..n];
    }
  }

  /** A field of text f cut by a NUL right after it reads back as f. */
  lemma CutFieldText(buf: seq<char>, p: nat, len: nat, n: nat, f: seq<char>)
    requires p + len <= n < |buf| && buf[n] == NUL && buf[p + len] == NUL
    requires buf[p..p + len] == f && NUL !in f
    ensures FieldText(buf, p, n) == f
  {
    forall y | p <= y < p + len
      ensures buf[y] != NUL
    {
      assert buf[y] == f[y - p];
    }
    FieldTextOfRun(buf, p, len, n);
  }

  /** The fields recorded from the second field on, put after the first. */
  lemma PlainFieldsCombine(s: seq<char>, s': seq<char>, r: (seq<char>, seq<nat>), p: nat, len: nat, n: nat,
                           acc: seq<nat>, fs: seq<seq<char>>)
    requires |fs| >= 2 && len == |fs[0]| && NUL !in fs[0]
    requires p + len < n < |s| && s' == s[p + len := NUL] && s[p..p + len] == fs[0]
    requires |r.0| == |s'| && r.0[n] == NUL
    requires |r.1| >= |acc| + 1 && r.1[..|acc| + 1] == acc + [p]
    requires FieldsAre(r.0, r.1[|acc| + 1..], n, fs[1..])
    requires forall x :: 0 <= x < p + len + 1 ==> r.0[x] == s'[x]
    ensures FieldsAre(r.0, r.1[|acc|..], n, fs)
    ensures forall x :: 0 <= x < p ==> r.0[x] == s[x]
  {
    var ptrs := r.1[|acc|..];
    assert ptrs[0] == (acc + [p])[|acc|] == p;
    assert ptrs[1..] == r.1[|acc| + 1..];
    assert r.0[p..p + len] == fs[0] by {
      assert r.0[p..p + len] == s'[p..p + len] == s[p..p + len];
    }
    CutFieldText(r.0, p, len, n, fs[0]);
    forall k | 1 <= k < |fs|
      ensures ptrs[k] <= n && FieldText(r.0, ptrs[k], n) == fs[k]
    {
      assert ptrs[k] == ptrs[1..][k - 1];
      assert fs[k] == fs[1..][k - 1];
    }
  }

  lemma {:induction false} SplitJoinFrom(s: seq<char>, p: nat, n: nat, sep: seq<char>, acc: seq<nat>,
                                         fs: seq<seq<char>>, c: char)
    requires c in sep && QUOTE !in sep
    requires p <= n < |s| && s[n] == NUL
    requires forall k :: 0 <= k < |acc| ==> acc[k] < p
    requires |fs| >= 1 && fs[|fs| - 1] != []
    requires forall k :: 0 <= k < |fs| ==> PlainField(fs[k], sep)
    requires s[p..n] == Join(fs, c)
    ensures |SplitFrom(s, p, n, sep, acc).1| >= |acc|
    ensures FieldsAre(SplitFrom(s, p, n, sep, acc).0, SplitFrom(s, p, n, sep, acc).1[|acc|..], n, fs)
    ensures forall x :: 0 <= x < p ==> SplitFrom(s, p, n, sep, acc).0[x] == s[x]
    decreases |fs|
  {
    var len := |fs[0]|;
    var s', q, acc' := s[p + len := NUL], p + len + 1, acc + [p];
    PlainFirstStep(s, p, n, sep, acc, fs, c, s', q, acc');
    var r := SplitFrom(s', q, n, sep, acc');
    if |fs| == 1 {
      LastPlainField(s, s', p, len, n, sep, acc, fs);
    } else {
      SplitJoinFrom(s', q, n, sep, acc', fs[1..], c);
      SplitFromShape(s', q, n, sep, acc');
      PlainFieldsCombine(s, s', r, p, len, n, acc, fs);
    }
  }

  /**
   * Splitting a line made of plain fields joined by a separator gives back
   * those fields: one field pointer per field, each pointing at the field's
   * text, NUL-terminated in place. A trailing empty field is not recorded,
   * hence the last field must be non-empty.
   */
  lemma SplitJoin(fs: seq<seq<char>>, c: char, sep: seq<char>)
    requires c in sep && QUOTE !in sep
    requires |fs| >= 1 && fs[|fs| - 1] != []
    requires forall k :: 0 <= k < |fs| ==> PlainField(fs[k], sep)
    ensures var line := Join(fs, c) + [NUL];
      var r := Split(line, |line| - 1, sep);
      |r.1| == |fs| && forall k :: 0 <= k < |fs| ==> r.1[k] < |line| && FieldText(r.0, r.1[k], |line| - 1) == fs[k]
  {
    var line := Join(fs, c) + [NUL];
    assert line[0..|line| - 1] == Join(fs, c);
    SplitJoinFrom(line, 0, |line| - 1, sep, [], fs, c);
    var r := Split(line, |line| - 1, sep);
    assert r.1[0..] == r.1;
  }

  lemma {:induction false} AdjacentGrowth(xs: seq<nat>)
    requires |xs| >= 1
    requires forall k :: 0 <= k < |xs| - 1 ==> xs[k] < xs[k + 1]
    ensures xs[|xs| - 1] >= xs[0] + |xs| - 1
  {
    if |xs| > 1 {
      AdjacentGrowth(xs[..|xs| - 1]);
    }
  }

  /** The field offsets strictly increase within the line, so a line of
      length linelen never has more than linelen + 1 fields: a field[] of
      that size always suffices. */
  lemma SplitFieldsBound(s: seq<char>, n: nat, sep: seq<char>)
    requires n < |s| && s[n] == NUL
    ensures |Split(s, n, sep).1| <= n + 1
  {
    SplitFromShape(s, 0, n, sep, []);
    var fs := Split(s, n, sep).1;
    if |fs| >= 1 {
      AdjacentGrowth(fs);
    }
  }

  /** A quoted field with its quotes doubled. */
  function Escape(t: seq<char>): (e: seq<char>)
    ensures |e| >= |t|
  {
    if t == [] then []
    else (if t[0] == QUOTE then [QUOTE, QUOTE] else [t[0]]) + Escape(t[1..])
  }

  /** Where an escaped text followed by a closing quote and a separator or
      NUL sits at p + j. */
  predicate EscapedAt(s: seq<char>, p: nat, j: nat, n: nat, sep: seq<char>, t: seq<char>)
  {
    var e := Escape(t);
    p + j + |e| + 1 <= n < |s|
    && s[p + j..p + j + |e|] == e
    && s[p + j + |e|] == QUOTE
    && (s[p + j + |e| + 1] == NUL || s[p + j + |e| + 1] in sep)
  }

  /** At the NUL an unterminated quoted field ends where it is. */
  lemma UnquotedAtNul(s: seq<char>, p: nat, i: nat, j: nat, n: nat, sep: seq<char>)
    requires i <= j && p + j <= n < |s| && s[n] == NUL && s[p + j] == NUL
    ensures Unquoted(s, p, i, j, n, sep) == (s[p + i := NUL], i)
  {
  }

  /** A closing quote followed by a separator or the NUL: nothing to move. */
  lemma UnquotedAtClose(s: seq<char>, p: nat, i: nat, j: nat, n: nat, sep: seq<char>)
    requires QUOTE !in sep && i <= j && p + j + 1 <= n < |s| && s[n] == NUL
    requires s[p + j] == QUOTE && (s[p + j + 1] == NUL || s[p + j + 1] in sep)
    ensures Unquoted(s, p, i, j, n, sep) == (s[p + i := NUL], i)
  {
    var k := Strcspn(s, p + j + 1, n, sep);
    assert k == 0 by {
      StrcspnOfRun(s, p + j + 1, 0, n, sep);
    }
    assert s[p + j + 1] != QUOTE;
    UnquotedClosing(s, p, i, j, n, sep);
    MovedNothing(s, p + i, p + j + 1);
  }

  /** At the closing quote advquoted ends the field where it is. */
  lemma UnquotedEscapedEmpty(s: seq<char>, p: nat, i: nat, j: nat, n: nat, sep: seq<char>, t: seq<char>)
    requires QUOTE !in sep && i <= j && t == []
    requires EscapedAt(s, p, j, n, sep, t) && s[n] == NUL
    ensures Unquoted(s, p, i, j, n, sep).1 == i + |t|
    ensures Unquoted(s, p, i, j, n, sep).0[p..p + i + |t|] == s[p..p + i] + t
  {
    assert Escape(t) == [];
    UnquotedAtClose(s, p, i, j, n, sep);
    assert s[p..p + i] + t == s[p..p + i];
    assert s[p + i := NUL][p..p + i] == s[p..p + i];
  }

  /** Before the closing quote the rest of the escaped text follows the
      one or two characters advquoted reads for its first character. */
  lemma EscapedAtStep(s: seq<char>, s1: seq<char>, p: nat, i: nat, j: nat, w: nat, n: nat,
                      sep: seq<char>, t: seq<char>, jw: nat, t': seq<char>)
    requires NUL !in t && t != [] && i <= j
    requires EscapedAt(s, p, j, n, sep, t)
    requires w == (if t[0] == QUOTE then 2 else 1) && s1 == s[p + i := t[0]]
    requires jw == j + w && t' == t[1..]
    ensures s[p + j] == t[0] && (t[0] == QUOTE ==> s[p + j + 1] == QUOTE)
    ensures NUL !in t' && EscapedAt(s1, p, jw, n, sep, t')
  {
    var e := Escape(t);
    var e' := Escape(t[1..]);
    assert e == e[..w] + e';
    assert s[p + j] == e[0];
    if t[0] == QUOTE {
      assert s[p + j + 1] == e[1];
    }
    assert |e| == w + |e'|;
    assert s[p + j + w..p + j + w + |e'|] == e';
    assert s1[p + j + w..p + j + w + |e'|] == e';
    assert s1[p + j + w + |e'|] == s[p + j + |e|];
    assert s1[p + j + w + |e'| + 1] == s[p + j + |e| + 1];
  }

  /** Before the closing quote advquoted copies one character of the text,
      reading two for a doubled quote. */
  lemma UnquotedEscapedStep(s: seq<char>, s1: seq<char>, p: nat, i: nat, j: nat, w: nat, n: nat,
                            sep: seq<char>, t: seq<char>, m: nat, jw: nat, t': seq<char>)
    requires NUL !in t && t != [] && i <= j
    requires EscapedAt(s, p, j, n, sep, t) && s[n] == NUL
    requires w == (if t[0] == QUOTE then 2 else 1) && s1 == s[p + i := t[0]]
    requires m == i + 1 && jw == j + w && t' == t[1..]
    ensures m <= jw && p + jw <= n && s1[n] == NUL && NUL !in t'
    ensures EscapedAt(s1, p, jw, n, sep, t')
    ensures Unquoted(s, p, i, j, n, sep) == Unquoted(s1, p, m, jw, n, sep)
  {
    EscapedAtStep(s, s1, p, i, j, w, n, sep, t, jw, t');
    UnquotedCopy(s, s1, p, i, j, jw - 1, n, sep, m, jw);
  }

  lemma {:induction false} UnquotedEscaped(s: seq<char>, p: nat, i: nat, j: nat, n: nat, sep: seq<char>,
                                           t: seq<char>)
    requires QUOTE !in sep && NUL !in t && i <= j
    requires EscapedAt(s, p, j, n, sep, t) && s[n] == NUL
    ensures Unquoted(s, p, i, j, n, sep).1 == i + |t|
    ensures Unquoted(s, p, i, j, n, sep).0[p..p + i + |t|] == s[p..p + i] + t
    decreases t
  {
    if t == [] {
      UnquotedEscapedEmpty(s, p, i, j, n, sep, t);
    } else {
      var w := if t[0] == QUOTE then 2 else 1;
      var s1 := s[p + i := t[0]];
      var m, jw, t' := i + 1, j + w, t[1..];
      UnquotedEscapedStep(s, s1, p, i, j, w, n, sep, t, m, jw, t');
      UnquotedEscaped(s1, p, m, jw, n, sep, t');
      var r := Unquoted(s1, p, m, jw, n, sep);
      SliceJoin(s, s1, r, p, i, m, t, t');
    }
  }

  /** A text written at p + i after one more character stored at p + i. */
  lemma SliceJoin(s: seq<char>, s1: seq<char>, r: (seq<char>, nat), p: nat, i: nat, m: nat,
                  t: seq<char>, t': seq<char>)
    requires t != [] && t' == t[1..] && m == i + 1 && p + i < |s|
    requires s1 == s[p + i := t[0]] && r.1 == m + |t'| && p + r.1 <= |r.0|
    requires r.0[p..p + m + |t'|] == s1[p..p + m] + t'
    ensures r.1 == i + |t| && r.0[p..p + i + |t|] == s[p..p + i] + t
  {
    assert s1[p..p + m] == s[p..p + i] + [t[0]];
    assert [t[0]] + t' == t;
  }

  /**
   * advquoted undoes the escaping: a field written as a quote, its text with
   * every quote doubled, and a closing quote followed by a separator or the
   * end of the line comes back as its text, NUL-terminated.
   */
  lemma QuotedFieldRoundTrip(s: seq<char>, p: nat, n: nat, sep: seq<char>, t: seq<char>)
    requires QUOTE !in sep && NUL !in t
    requires p + |Escape(t)| + 1 <= n < |s| && s[n] == NUL
    requires s[p..p + |Escape(t)| + 1] == Escape(t) + [QUOTE]
    requires s[p + |Escape(t)| + 1] == NUL || s[p + |Escape(t)| + 1] in sep
    ensures var r := Unquoted(s, p, 0, 0, n, sep);
      r.1 == |t| && r.0[p..p + r.1] == t && r.0[p + r.1] == NUL
  {
    EscapedAtStart(s, p, n, sep, t);
    QuotedFieldText(s, p, n, sep, t);
    UnquotedEnds(s, p, 0, 0, n, sep);
  }

  lemma QuotedFieldText(s: seq<char>, p: nat, n: nat, sep: seq<char>, t: seq<char>)
    requires QUOTE !in sep && NUL !in t
    requires EscapedAt(s, p, 0, n, sep, t) && s[n] == NUL
    ensures Unquoted(s, p, 0, 0, n, sep).1 == |t|
    ensures Unquoted(s, p, 0, 0, n, sep).0[p..p + |t|] == t
  {
    UnquotedEscaped(s, p, 0, 0, n, sep, t);
    assert s[p..p] + t == t;
  }

  lemma EscapedAtStart(s: seq<char>, p: nat, n: nat, sep: seq<char>, t: seq<char>)
    requires p + |Escape(t)| + 1 <= n < |s|
    requires s[p..p + |Escape(t)| + 1] == Escape(t) + [QUOTE]
    requires s[p + |Escape(t)| + 1] == NUL || s[p + |Escape(t)| + 1] in sep
    ensures EscapedAt(s, p, 0, n, sep, t)
  {
    var e := Escape(t);
    assert s[p..p + |e|] == s[p..p + |e| + 1][..|e|];
    assert s[p + |e|] == s[p..p + |e| + 1][|e|];
  }

  /**
   * Scanning resumes one past the unescaped length, not past the consumed
   * text: `"ab",c` splits into "ab", an empty field, and "c".
   */
  lemma QuotedFieldExtraEmpty()
    ensures var line := ['"', 'a', 'b', '"', ',', 'c', NUL];
      var r := Split(line, 6, [',']);
      r.1 == [1, 4, 5]
      && FieldText(r.0, 1, 6) == ['a', 'b'] && FieldText(r.0, 4, 6) == [] && FieldText(r.0, 5, 6) == ['c']
  {
    var line := ['"', 'a', 'b', '"', ',', 'c', NUL];
    var s4 := ['"', 'a', 'b', NUL, NUL, 'c', NUL];
    QuotedAbSplit(line, s4);
    assert Strcspn(s4, 1, 6, []) == 2;
    assert Strcspn(s4, 4, 6, []) == 0;
    assert Strcspn(s4, 5, 6, []) == 1;
  }

  lemma QuotedAbUnquoted(line: seq<char>, s3: seq<char>)
    requires line == ['"', 'a', 'b', '"', ',', 'c', NUL]
    requires s3 == ['"', 'a', 'b', NUL, ',', 'c', NUL]
    ensures Unquoted(line, 1, 0, 0, 6, [',']) == (s3, 2)
  {
    var sep := [','];
    var s1 := line[1 := 'a'];
    var s2 := s1[2 := 'b'];
    assert Unquoted(line, 1, 0, 0, 6, sep) == Unquoted(s1, 1, 1, 1, 6, sep);
    assert Unquoted(s1, 1, 1, 1, 6, sep) == Unquoted(s2, 1, 2, 2, 6, sep);
    UnquotedAtClose(s2, 1, 2, 2, 6, sep);
    assert s2[3 := NUL] == s3;
  }

  lemma QuotedAbSplit(line: seq<char>, s4: seq<char>)
    requires line == ['"', 'a', 'b', '"', ',', 'c', NUL]
    requires s4 == ['"', 'a', 'b', NUL, NUL, 'c', NUL]
    ensures Split(line, 6, [',']) == (s4, [1, 4, 5])
  {
    var s3 := ['"', 'a', 'b', NUL, ',', 'c', NUL];
    QuotedAbFirst(line, s3);
    QuotedAbSecond(s3, s4);
    QuotedAbLast(s4);
  }

  lemma QuotedAbFirst(line: seq<char>, s3: seq<char>)
    requires line == ['"', 'a', 'b', '"', ',', 'c', NUL]
    requires s3 == ['"', 'a', 'b', NUL, ',', 'c', NUL]
    ensures SplitFrom(line, 0, 6, [','], []) == SplitFrom(s3, 4, 6, [','], [1])
  {
    QuotedAbUnquoted(line, s3);
    assert [] + [1] == [1];
  }

  lemma QuotedAbSecond(s3: seq<char>, s4: seq<char>)
    requires s3 == ['"', 'a', 'b', NUL, ',', 'c', NUL]
    requires s4 == ['"', 'a', 'b', NUL, NUL, 'c', NUL]
    ensures SplitFrom(s3, 4, 6, [','], [1]) == SplitFrom(s4, 5, 6, [','], [1, 4])
  {
    assert Strcspn(s3, 4, 6, [',']) == 0;
    assert s3[4 := NUL] == s4;
    assert [1] + [4] == [1, 4];
  }

  lemma QuotedAbLast(s4: seq<char>)
    requires s4 == ['"', 'a', 'b', NUL, NUL, 'c', NUL]
    ensures SplitFrom(s4, 5, 6, [','], [1, 4]) == (s4, [1, 4, 5])
  {
    assert Strcspn(s4, 5, 6, [',']) == 1;
    assert s4[6 := NUL] == s4;
    assert [1, 4] + [5] == [1, 4, 5];
  }

  /** memmove(a + dst, a + src, k) with dst <= src, copying upwards. */
  method MoveDown(a: array<char>, dst: nat, src: nat, k: nat)
    requires dst <= src && src + k <= a.Length
    modifies a
    ensures a[..] == Moved(old(a[..]), dst, src, k)
  {
    ghost var s := a[..];
    MovedNothing(s, dst, src);
    var m := 0;
    while m < k
      invariant 0 <= m <= k && a[..] == Moved(s, dst, src, m)
    {
      MovedAt(s, dst, src, m, src + m);
      a[dst + m] := a[src + m];
      MovedGrows(s, dst, src, m, a[..]);
      m := m + 1;
    }
  }

  /** advquoted at a closing quote p[j]: moves the text up to the next
      separator down to p[i] and ends the field there. */
  method CloseQuoted(a: array<char>, p: nat, i: nat, j: nat, n: nat, sep: seq<char>) returns (k: nat)
    requires n < a.Length && a[n] == NUL
    requires i <= j && p + j < n
    modifies a
    ensures k == Strcspn(old(a[..]), p + j + 1, n, sep)
    ensures a[..] == Moved(old(a[..]), p + i, p + j + 1, k)
  {
    k := Strcspn(a[..], p + j + 1, n, sep);
    MoveDown(a, p + i, p + j + 1, k);
  }

  /** advquoted at any other character: copies it, or the second quote of
      a doubled pair, down to p[i]. */
  method CopyQuoted(a: array<char>, p: nat, i: nat, j: nat, n: nat) returns (j': nat)
    requires n < a.Length && i <= j && p + j < n && a[p + j] != NUL
    modifies a
    ensures j' == (if old(a[p + j]) == QUOTE then j + 1 else j)
    ensures a[..] == old(a[..])[p + i := old(a[p + j'])]
  {
    j' := if a[p + j] == QUOTE then j + 1 else j;
    a[p + i] := a[p + j'];
  }

  /** One pass of advquoted's loop. */
  method QuotedStep(a: array<char>, p: nat, i: nat, j: nat, n: nat, sep: seq<char>)
    returns (i': nat, j': nat, done: bool)
    requires n < a.Length && a[n] == NUL
    requires i <= j && p + j <= n && a[p + j] != NUL
    modifies a
    ensures (a[..], i', j', done) == QuoteStep(old(a[..]), p, i, j, n, sep)
  {
    ghost var s0 := a[..];
    if a[p + j] == QUOTE && a[p + j + 1] != QUOTE {
      var k := CloseQuoted(a, p, i, j, n, sep);
      i', j', done := i + k, j + 1, true;
      QuoteStepCloses(s0, p, i, j, n, sep, k, a[..]);
    } else {
      var k := CopyQuoted(a, p, i, j, n);
      i', j', done := i + 1, k + 1, false;
      QuoteStepCopies(s0, p, i, j, n, sep, k, a[..]);
    }
  }

  /** advunquoted: cuts the field at p at the first separator. */
  method AdvUnquoted(a: array<char>, p: nat, n: nat, sep: seq<char>) returns (span: nat)
    requires p <= n < a.Length && a[n] == NUL
    modifies a
    ensures a[n] == NUL && p + span <= n
    ensures span == Strcspn(old(a[..]), p, n, sep)
    ensures a[..] == old(a[..])[p + span := NUL]
  {
    span := Strcspn(a[..], p, n, sep);
    a[p + span] := NUL;
  }

  /** advquoted: unescapes the quoted field at p in place and returns its
      length. */
  method AdvQuoted(a: array<char>, p: nat, n: nat, sep: seq<char>) returns (i: nat)
    requires p <= n < a.Length && a[n] == NUL
    modifies a
    ensures a[n] == NUL && p + i <= n
    ensures (a[..], i) == Unquoted(old(a[..]), p, 0, 0, n, sep)
  {
    ghost var target := Unquoted(a[..], p, 0, 0, n, sep);
    i := 0;
    var j := 0;
    var done := false;
    while !done && a[p + j] != NUL
      invariant p + j <= n && p + i <= n && a[n] == NUL
      invariant !done ==> i <= j
      invariant !done ==> Unquoted(a[..], p, i, j, n, sep) == target
      invariant done ==> (a[..][p + i := NUL], i) == target
      decreases n - (p + j), !done
    {
      ghost var s0, i0, j0 := a[..], i, j;
      i, j, done := QuotedStep(a, p, i, j, n, sep);
      UnquotedAdvances(s0, p, i0, j0, n, sep, target, a[..], i, j, done);
    }
    if !done {
      UnquotedAtNul(a[..], p, i, j, n, sep);
    }
    a[p + i] := NUL;
  }

  /** One pass of csv_splitstr's loop: skips an opening quote, then cuts
      the field that starts there. fields stands for what field[] holds. */
  method NextField(a: array<char>, p: nat, n: nat, sep: seq<char>)
    returns (start: nat, flen: nat)
    requires p < n < a.Length && a[n] == NUL
    modifies a
    ensures (a[..], start, flen) == FieldStep(old(a[..]), p, n, sep)
  {
    start := p;
    if a[p] == QUOTE {
      start := p + 1;
      flen := AdvQuoted(a, start, n, sep);
    } else {
      flen := AdvUnquoted(a, start, n, sep);
    }
  }

  /** csv_splitstr's loop over the line a[..n] and the offsets array f;
      returns the new nfield. */
  method SplitInto(a: array<char>, f: array<nat>, n: nat, sep: seq<char>) returns (count: nat)
    requires n < a.Length && a[n] == NUL
    requires |Split(a[..], n, sep).1| <= f.Length
    modifies a, f
    ensures a[n] == NUL && count <= f.Length
    ensures a[..] == Split(old(a[..]), n, sep).0
    ensures f[..count] == Split(old(a[..]), n, sep).1
  {
    ghost var target := Split(a[..], n, sep);
    var p := 0;
    count := 0;
    assert f[..count] == [];
    while p < n
      invariant p <= n + 1 && a[n] == NUL && count <= f.Length
      invariant forall k :: 0 <= k < count ==> f[k] < p
      invariant SplitFrom(a[..], p, n, sep, f[..count]) == target
      decreases n + 1 - p
    {
      ghost var s0, fs := a[..], f[..count];
      var start, flen := NextField(a, p, n, sep);
      SplitAdvances(s0, p, n, sep, fs, target, a[..], start, flen);
      f[count] := start;
      count := count + 1;
      assert f[..count] == fs + [start];
      p := start + flen + 1;
    }
  }

  /** The state csv_splitstr works on. line, maxline and csv_init's
      allocations are not part of this model; sline holds the line. */
  class CsvState {
    var sline: array<char>
    var linelen: nat
    var field: array<nat>
    var nfield: nat
    var sep: seq<char>
    var sepalloc: bool

    /** sline holds a C string of length linelen; field[] has room for the
        fields recorded so far. */
    ghost predicate Valid()
      reads this, sline, field
    {
      linelen < sline.Length && sline[linelen] == NUL && NUL !in sep
      && nfield <= field.Length
    }

    /** The fields the line splits into. */
    ghost function Fields(): seq<nat>
      requires Valid()
      reads this, sline, field
    {
      Split(sline[..], linelen, sep).1
    }

    /** The state csv_init and csv_readline leave behind after reading
        line: CSV_INITIALIZER's separator and sizes, no fields yet. */
    constructor (line: seq<char>)
      requires NUL !in line
      ensures Valid() && sline[..linelen] == line && linelen == |line|
      ensures field.Length == 32 && nfield == 0 && sep == [','] && !sepalloc
    {
      var maxline := if |line| + 1 > 512 then |line| + 1 else 512;
      sline := new char[maxline](i => if 0 <= i < |line| then line[i] else NUL);
      linelen := |line|;
      field := new nat[32](i => 0);
      nfield := 0;
      sep := [','];
      sepalloc := false;
    }

    /** csv_splitstr: cuts the line into fields and records where each one
        starts. It is only reached with no fields recorded, and nothing
        checks that the fields fit in field[]. */
    method SplitStr()
      requires Valid() && nfield == 0 && |Fields()| <= field.Length
      modifies sline, field, this`nfield
      ensures Valid()
      ensures sline[..] == Split(old(sline[..]), linelen, sep).0
      ensures field[..nfield] == Split(old(sline[..]), linelen, sep).1
    {
      nfield := SplitInto(sline, field, linelen, sep);
    }

    /** csv_nfield: splits the line on first use, then returns the count. */
    method NField() returns (n: nat)
      requires Valid() && (nfield == 0 ==> |Fields()| <= field.Length)
      modifies sline, field, this`nfield
      ensures Valid() && n == nfield
      ensures old(nfield) != 0 ==> nfield == old(nfield) && unchanged(sline, field)
      ensures old(nfield) == 0 ==> sline[..] == Split(old(sline[..]), linelen, sep).0
      ensures old(nfield) == 0 ==> field[..nfield] == Split(old(sline[..]), linelen, sep).1
    {
      if nfield == 0 {
        SplitStr();
      }
      n := nfield;
    }

    /** csv_getfield: the offset in sline where field n starts, or None
        past the last field. */
    method GetField(n: nat) returns (r: Option<nat>)
      requires Valid() && (nfield == 0 ==> |Fields()| <= field.Length)
      modifies sline, field, this`nfield
      ensures Valid()
      ensures r == if n < nfield then Some(field[n]) else None
      ensures old(nfield) != 0 ==> nfield == old(nfield) && unchanged(sline, field)
      ensures old(nfield) == 0 ==> field[..nfield] == Split(old(sline[..]), linelen, sep).1
    {
      var count := NField();
      if n >= count {
        return None;
      }
      r := Some(field[n]);
    }

    /** csv_setopt: CSV_SEP replaces the separator and records whether the
        caller allocated it; the switch falls into default, so every
        command reports -1. Freeing the old separator is not modelled. */
    method SetOpt(cmd: int, newsep: seq<char>, alloc: int) returns (ret: int)
      requires NUL !in newsep
      modifies this`sep, this`sepalloc
      ensures ret == -1
      ensures cmd == CSV_SEP ==> sep == newsep && sepalloc == (alloc != 0)
      ensures cmd != CSV_SEP ==> sep == old(sep) && sepalloc == old(sepalloc)
    {
      ret := -1;
      if cmd == CSV_SEP {
        sep := newsep;
        sepalloc := alloc != 0;
      }
    }
  }
}
