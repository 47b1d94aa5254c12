// Model of the exercises of 6-1.c: the factorial loop and the two string copy
// loops. The printing helpers of that file are not modelled.
module Exercises {
  import opened Common

  const INT_MAX: int := 0x7fff_ffff

  /** The mathematical factorial. */
  function Fact(n: nat): (f: nat)
    ensures f >= 1
  {
    if n <= 1 then 1 else n * Fact(n - 1)
  }

  /**
   * factorial: the accumulator starts at n and the loop multiplies by n
   * again, so for n >= 2 the result is n * n!, not n!; for n <= 1 the loop is
   * skipped and n itself comes back. The C `int` must not overflow, which is
   * what the requires asks of the caller.
   */
  method Factorial(n: int) returns (fac: int)
    requires n >= 2 ==> n * Fact(n) <= INT_MAX
    ensures n <= 1 ==> fac == n
    ensures n >= 2 ==> fac == n * Fact(n) && fac != Fact(n)
  {
    fac := n;
    var m := n;
    if n >= 2 {
      TimesAtLeastTwo(n, Fact(n));
    }
    while m > 1
      invariant m <= n
      invariant n >= 2 ==> 1 <= m && 1 <= fac && fac * Fact(m) == n * Fact(n)
      invariant n <= 1 ==> fac == n && m == n
      invariant fac <= INT_MAX  // no step of the loop overflows the C int
    {
      FactStep(fac, m);
      fac := fac * m;
      m := m - 1;
    }
  }

  /** One loop step: multiplying by m trades Fact(m) for Fact(m - 1) and stays below the final product. */
  lemma FactStep(fac: int, m: int)
    requires m >= 2 && fac >= 1
    ensures (fac * m) * Fact(m - 1) == fac * Fact(m)
    ensures 1 <= fac * m <= fac * Fact(m)
  {
    assert Fact(m) == m * Fact(m - 1);
    assert (fac * m) * Fact(m - 1) == fac * (m * Fact(m - 1));
    assert fac * m <= (fac * m) * Fact(m - 1);
  }

  lemma TimesAtLeastTwo(n: int, f: int)
    requires n >= 2 && f >= 1
    ensures n * f != f && n <= n * f
  {
  }

  /** strcpy_exercise: copies src up to and including its NUL, nothing further. */
  method StrcpyExercise(dst: array<char>, src: array<char>)
    requires NUL in src[..]
    requires StrLen(src[..]) < dst.Length
    modifies dst
    ensures var n := StrLen(old(src[..]));
            dst[..n + 1] == old(src[..n + 1]) && dst[n + 1..] == old(dst[n + 1..])
  {
    ghost var s := src[..];
    ghost var n := StrLen(s);
    var i := 0;
    while src[i] != NUL
      invariant 0 <= i <= n
      invariant src[..] == s
      invariant dst[..i] == s[..i] && dst[i..] == old(dst[i..])
      decreases n - i
    {
      dst[i] := src[i];
      i := i + 1;
    }
    dst[i] := NUL;
  }

  /** How many characters strncpy_exercise copies before writing its NUL. */
  function CopyLen(s: seq<char>, n: int): (k: nat)
    requires n <= |s| || NUL in s
    ensures k <= |s| && (n >= 0 ==> k <= n) && (n <= 0 ==> k == 0)
    ensures forall j :: 0 <= j < k ==> s[j] != NUL
    ensures k < n ==> s[k] == NUL
  {
    if n <= 0 || s[0] == NUL then 0 else 1 + CopyLen(s[1..], n - 1)
  }

  /**
   * strncpy_exercise: copies at most n characters, stopping before a NUL, and
   * always writes a NUL at t[k] with k <= n, so t needs room for k + 1.
   */
  method StrncpyExercise(t: array<char>, s: array<char>, n: int)
    requires n <= s.Length || NUL in s[..]
    requires CopyLen(s[..], n) < t.Length
    modifies t
    ensures var k := CopyLen(old(s[..]), n);
            t[..k] == old(s[..k]) && t[k] == NUL && t[k + 1..] == old(t[k + 1..])
  {
    ghost var src := s[..];
    ghost var k := CopyLen(src, n);
    var i := 0;
    while i < n
      invariant 0 <= i <= k
      invariant t[..i] == src[..i] && t[i..] == old(t[i..])
      invariant s[..] == src
      decreases n - i
    {
      if s[i] == NUL {
        break;
      }
      t[i] := s[i];
      i := i + 1;
    }
    assert i == k;
    t[i] := NUL;
  }
}
