// Model of the arithmetic helpers of 2-3.c (the qsort benchmark itself is
// clock and I/O glue and is not modelled): the uint32_t comparator handed to
// qsort() and the timespec subtraction used to measure elapsed time.
module Timespec {

  /** How many nanoseconds are in a second. */
  const NSEC_MAX: int := 1000000000

  const UINT32_LIMIT: int := 0x1_0000_0000

  type uint32 = x: int | 0 <= x < UINT32_LIMIT

  datatype Timespec = Timespec(sec: int, nsec: int)

  /** The instant a timespec denotes, in nanoseconds. */
  function TotalNsec(t: Timespec): int
  {
    t.sec * NSEC_MAX + t.nsec
  }

  predicate Normalized(t: Timespec)
  {
    0 <= t.nsec < NSEC_MAX
  }

  /** uint32cmp: the three-way comparison qsort() expects. */
  function Uint32Cmp(a: uint32, b: uint32): (r: int)
    ensures r == 0 <==> a == b
    ensures r == -1 <==> a < b
    ensures r == 1 <==> a > b
  {
    if a == b then 0 else if a < b then -1 else 1
  }

  /** uint32cmp is antisymmetric and transitive, so qsort() may rely on it. */
  lemma Uint32CmpIsOrder(a: uint32, b: uint32, c: uint32)
    ensures Uint32Cmp(a, b) == -Uint32Cmp(b, a)
    ensures Uint32Cmp(a, b) <= 0 && Uint32Cmp(b, c) <= 0 ==> Uint32Cmp(a, c) <= 0
  {
  }

  /**
   * ts_sub: a - b, borrowing one second when a's nanoseconds are smaller.
   * The difference of the instants is exact, and normalized inputs give a
   * normalized result.
   */
  function TsSub(a: Timespec, b: Timespec): (d: Timespec)
    ensures TotalNsec(d) == TotalNsec(a) - TotalNsec(b)
    ensures d.sec == a.sec - b.sec - (if a.nsec < b.nsec then 1 else 0)
    ensures Normalized(a) && Normalized(b) ==> Normalized(d)
  {
    if a.nsec < b.nsec then
      Timespec(a.sec - b.sec - 1, NSEC_MAX - (b.nsec - a.nsec))
    else
      Timespec(a.sec - b.sec, a.nsec - b.nsec)
  }

  /** A normalized timespec is determined by the instant it denotes. */
  lemma NormalizedUnique(d: Timespec, e: Timespec)
    requires Normalized(d) && Normalized(e)
    requires TotalNsec(d) == TotalNsec(e)
    ensures d == e
  {
    var x := d.sec - e.sec;
    assert x * NSEC_MAX == e.nsec - d.nsec;
    MultipleOfSecond(x);
  }

  lemma MultipleOfSecond(x: int)
    ensures x >= 1 ==> x * NSEC_MAX >= NSEC_MAX
    ensures x <= -1 ==> x * NSEC_MAX <= -NSEC_MAX
  {
  }

  /**
   * So ts_sub computes THE normalized difference: any normalized timespec
   * whose instant is a - b equals TsSub(a, b).
   */
  lemma TsSubIsTheDifference(a: Timespec, b: Timespec, d: Timespec)
    requires Normalized(a) && Normalized(b) && Normalized(d)
    requires TotalNsec(d) == TotalNsec(a) - TotalNsec(b)
    ensures TsSub(a, b) == d
  {
    NormalizedUnique(TsSub(a, b), d);
  }
}
