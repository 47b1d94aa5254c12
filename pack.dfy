// Model of packbe in 9-1.c: a format string drives the serialisation of
// integer and string arguments into a byte buffer, big-endian. The variadic
// arguments become a sequence of Arg values; the buffer becomes the sequence
// of bytes written, so the returned pointer one past the last byte written is
// that sequence's length.
module Pack {
  import opened Common

  /** A variadic argument: an integer of any width, or a char * whose bytes
      run up to and including its NUL. */
  datatype Arg = Int(n: int) | Str(s: seq<byte>)

  /** struct parsedspec; its chars and opind members are never used. */
  datatype ParsedSpec = ParsedSpec(repeat: nat, sign: bool)

  const PS_INITIALIZER := ParsedSpec(1, false)
  const LONG_MAX: nat := 0x7fff_ffff_ffff_ffff
  /** (char)-1 < 0: plain char is signed on the platforms modelled. */
  const CHAR_IS_SIGNED := true

  /** Indices into the operation table. */
  const OP_INVALID: nat := 0
  const OP_PLAINCHAR: nat := 1
  const OP_CHAR: nat := 2
  const OP_LLONG: nat := 6
  const OP_STRING: nat := 7
  const OP_REPEAT: nat := 8
  const OP_SIGN: nat := 9

  /**
   * The operators table, indexed by the format character as an unsigned
   * char. The table has UCHAR_MAX (255) entries, so character 255 is past its
   * end; the model treats it, and every character without an entry, as
   * invalid.
   */
  function Operator(c: char): (op: nat)
    ensures op <= OP_SIGN
    ensures op == OP_REPEAT <==> '0' <= c <= '9'
  {
    match c
    case 'C' => 1
    case 'c' => 2
    case 's' => 3
    case 'i' => 4
    case 'l' => 5
    case 'L' => 6
    case 'S' => 7
    case '-' => 9
    case _ => if '0' <= c <= '9' then 8 else 0
  }

  /** The sizes table: bytes written per conversion, by operator index. */
  const SIZES: seq<nat> := [0, 1, 1, 2, 2, 4, 8, 1]
  /** sizeof of the C type each integer operator converts to (LP64). */
  const TYPE_BYTES: seq<nat> := [0, 1, 1, 2, 4, 8, 8]

  /** The operators op_char to op_llong, expanded from OP_TYPE_DEF. */
  predicate IsIntOp(op: nat) { OP_CHAR <= op <= OP_LLONG }

  function Pow256(k: nat): (p: nat)
    ensures p >= 1
  {
    if k == 0 then 1 else 256 * Pow256(k - 1)
  }

  /** The argument converted to the operator's unsigned type. */
  function Conv(v: int, op: nat): nat
    requires IsIntOp(op)
  {
    v % Pow256(TYPE_BYTES[op])
  }

  /** The j bytes `conv >> --j * CHAR_BIT` stores, most significant first. */
  function BigEndian(conv: nat, j: nat): (bs: seq<byte>)
    ensures |bs| == j
  {
    if j == 0 then [] else [(conv / Pow256(j - 1)) % 256] + BigEndian(conv, j - 1)
  }

  /** Reads bytes back as a big-endian unsigned number. */
  function FromBigEndian(bs: seq<byte>): nat
  {
    if bs == [] then 0 else bs[0] * Pow256(|bs| - 1) + FromBigEndian(bs[1..])
  }

  /** Byte k of a big-endian group is (conv >> 8 * (j - 1 - k)) & 0xff. */
  lemma {:induction false} BigEndianAt(conv: nat, j: nat, k: nat)
    requires k < j
    ensures BigEndian(conv, j)[k] == (conv / Pow256(j - 1 - k)) % 256
  {
    if k > 0 {
      BigEndianAt(conv, j - 1, k - 1);
    }
  }

  lemma MulAtLeast(d: int, m: int)
    requires d >= 1 && m > 0
    ensures d * m >= m
  {
  }

  lemma ModUnique(c: int, m: int, k: int, s: int)
    requires m > 0 && c == k * m + s && 0 <= s < m
    ensures c % m == s && c / m == k
  {
    var q, r := c / m, c % m;
    var d := q - k;
    assert d * m == q * m - k * m;
    assert d * m == s - r;
    if d >= 1 {
      MulAtLeast(d, m);
    } else if d <= -1 {
      MulAtLeast(-d, m);
    }
  }

  lemma MulMonotone(a: nat, b: nat, p: nat)
    requires a <= b
    ensures a * p <= b * p
  {
  }

  lemma ModSplit(c: nat, p: nat)
    requires p > 0
    ensures ((c / p) % 256) * p + c % p == c % (256 * p)
  {
    var q, r := c / p, c % p;
    var lo := q % 256;
    var hi := q / 256;
    var s := lo * p + r;
    assert q == hi * 256 + lo;
    assert c == q * p + r;
    assert q * p == hi * (256 * p) + lo * p;
    assert c == hi * (256 * p) + s;
    MulMonotone(lo, 255, p);
    ModUnique(c, 256 * p, hi, s);
  }

  /** Decoding a big-endian group gives back the value modulo 256^j. */
  lemma {:induction false} BigEndianRoundTrip(conv: nat, j: nat)
    ensures FromBigEndian(BigEndian(conv, j)) == conv % Pow256(j)
  {
    if j > 0 {
      var bs := BigEndian(conv, j);
      assert bs[1..] == BigEndian(conv, j - 1);
      BigEndianRoundTrip(conv, j - 1);
      ModSplit(conv, Pow256(j - 1));
    }
  }

  lemma ModMod(v: int, a: nat, b: nat)
    requires a > 0 && b > 0
    ensures (v % (a * b)) % a == v % a
  {
    var r := v % (a * b);
    var q := v / (a * b);
    assert v == (q * b) * a + r;
    var r2 := r % a;
    assert r == (r / a) * a + r2;
    assert v == (q * b + r / a) * a + r2;
    ModUnique(v, a, q * b + r / a, r2);
  }

  lemma Pow256Split(t: nat, j: nat)
    requires j <= t
    ensures Pow256(t) == Pow256(j) * Pow256(t - j)
  {
    if t > j {
      Pow256Split(t - 1, j);
    }
  }

  /** An integer conversion decodes to the argument modulo 256^width: the
      signed or unsigned argument keeps its low width bytes. */
  lemma ConvRoundTrip(v: int, op: nat)
    requires IsIntOp(op)
    ensures FromBigEndian(BigEndian(Conv(v, op), SIZES[op])) == v % Pow256(SIZES[op])
  {
    BigEndianRoundTrip(Conv(v, op), SIZES[op]);
    Pow256Split(TYPE_BYTES[op], SIZES[op]);
    ModMod(v, Pow256(SIZES[op]), Pow256(TYPE_BYTES[op] - SIZES[op]));
  }

  /** Every char * argument is a C string. */
  predicate ValidArgs(args: seq<Arg>)
  {
    forall k :: 0 <= k < |args| && args[k].Str? ==> 0 in args[k].s
  }

  /** The bytes op_string copies: the string up to and including its NUL. */
  function CString(s: seq<byte>): (r: seq<byte>)
    requires 0 in s
    ensures |r| >= 1 && r[|r| - 1] == 0 && 0 !in r[..|r| - 1]
  {
    s[..ByteStrLen(s) + 1]
  }

  /** prefix prepended to a result that may have failed. */
  function Prepend(prefix: seq<byte>, r: Option<seq<byte>>): Option<seq<byte>>
  {
    if r.Some? then Some(prefix + r.value) else None
  }

  lemma PrependAssoc(d: seq<byte>, g: seq<byte>, r: Option<seq<byte>>)
    ensures Prepend(d, Prepend(g, r)) == Prepend(d + g, r)
    ensures Prepend([], r) == r
  {
    if r.Some? {
      assert d + (g + r.value) == (d + g) + r.value;
      assert [] + r.value == r.value;
    }
  }

  /** The groups an integer operation writes for repeat arguments from argi,
      or None when it runs out of integer arguments. */
  function IntGroups(op: nat, args: seq<Arg>, argi: nat, repeat: nat): Option<seq<byte>>
    requires IsIntOp(op)
    decreases repeat
  {
    if repeat == 0 then Some([])
    else if argi < |args| && args[argi].Int? then
      Prepend(BigEndian(Conv(args[argi].n, op), SIZES[op]), IntGroups(op, args, argi + 1, repeat - 1))
    else None
  }

  /** The value strtol reads from the digits at fmt[pos..end). */
  function DigitsValue(fmt: seq<char>, pos: nat, end: nat): nat
    requires pos <= end <= |fmt| && forall k :: pos <= k < end ==> '0' <= fmt[k] <= '9'
    decreases end - pos
  {
    if end == pos then 0
    else 10 * DigitsValue(fmt, pos, end - 1) + (fmt[end - 1] as int - '0' as int)
  }

  /** The end of the run of digits starting at pos. */
  function DigitsEnd(fmt: seq<char>, pos: nat): (end: nat)
    requires pos <= |fmt|
    ensures pos <= end <= |fmt|
    ensures forall k :: pos <= k < end ==> '0' <= fmt[k] <= '9'
    ensures end == |fmt| || !('0' <= fmt[end] <= '9')
    decreases |fmt| - pos
  {
    if pos < |fmt| && '0' <= fmt[pos] <= '9' then DigitsEnd(fmt, pos + 1) else pos
  }

  /** The state the operations pass each other through pointers. */
  datatype PackState = PackState(out: seq<byte>, spec: ParsedSpec, argi: nat, pos: nat)

  predicate AtEnd(fmt: seq<char>, pos: nat)
  {
    pos >= |fmt| || fmt[pos] == NUL
  }

  /** What an integer operation does: write the groups, reset the spec and
      step past the operator; None when it runs out of integer arguments. */
  function IntStep(st: PackState, op: nat, args: seq<Arg>): (r: Option<PackState>)
    requires IsIntOp(op)
    ensures r.Some? ==> r.value.pos == st.pos + 1 && r.value.spec == PS_INITIALIZER
  {
    match IntGroups(op, args, st.argi, st.spec.repeat)
    case None => None
    case Some(g) => Some(PackState(st.out + g, PS_INITIALIZER, st.argi + st.spec.repeat, st.pos + 1))
  }

  /** What the operation for fmt[st.pos] does, or None when it returns -1. */
  function Step(st: PackState, fmt: seq<char>, args: seq<Arg>): (r: Option<PackState>)
    requires st.pos < |fmt| && ValidArgs(args)
    ensures r.Some? ==> r.value.pos > st.pos
  {
    var op := Operator(fmt[st.pos]);
    if op == OP_INVALID then None
    else if op == OP_PLAINCHAR then
      IntStep(st.(spec := st.spec.(sign := CHAR_IS_SIGNED)), OP_CHAR, args)
    else if IsIntOp(op) then
      IntStep(st, op, args)
    else if op == OP_STRING then
      if st.argi < |args| && args[st.argi].Str? then
        Some(PackState(st.out + CString(args[st.argi].s), PS_INITIALIZER, st.argi + 1, st.pos + 1))
      else None
    else if op == OP_REPEAT then
      var end := DigitsEnd(fmt, st.pos);
      var cnt := DigitsValue(fmt, st.pos, end);
      if cnt == 0 || cnt > LONG_MAX then None
      else Some(st.(spec := st.spec.(repeat := cnt), pos := end))
    else
      Some(st.(spec := st.spec.(sign := true), pos := st.pos + 1))
  }

  /** The rest of packbe's loop from st: the bytes written, or None. */
  function PackFrom(st: PackState, fmt: seq<char>, args: seq<Arg>): Option<seq<byte>>
    requires ValidArgs(args)
    decreases |fmt| - st.pos
  {
    if AtEnd(fmt, st.pos) then Some(st.out)
    else
      match Step(st, fmt, args)
      case None => None
      case Some(st') => PackFrom(st', fmt, args)
  }

  function Pack(fmt: seq<char>, args: seq<Arg>): Option<seq<byte>>
    requires ValidArgs(args)
  {
    PackFrom(PackState([], PS_INITIALIZER, 0, 0), fmt, args)
  }

  // ---------------------------------------------------------------------
  // Properties of packbe

  /** An integer operation with repeat r succeeds exactly when the next r
      arguments are integers, and then writes r groups of its width. */
  lemma {:induction false} IntGroupsSpec(op: nat, args: seq<Arg>, argi: nat, r: nat)
    requires IsIntOp(op) && argi <= |args|
    ensures IntGroups(op, args, argi, r).Some?
        <==> argi + r <= |args| && forall k :: argi <= k < argi + r ==> args[k].Int?
    ensures IntGroups(op, args, argi, r).Some? ==> |IntGroups(op, args, argi, r).value| == r * SIZES[op]
    decreases r
  {
    if r > 0 {
      assert (r - 1) * SIZES[op] + SIZES[op] == r * SIZES[op];
      if argi >= |args| {
        assert IntGroups(op, args, argi, r) == None;
      } else if !args[argi].Int? {
        assert IntGroups(op, args, argi, r) == None;
      } else {
        var g := BigEndian(Conv(args[argi].n, op), SIZES[op]);
        var rest := IntGroups(op, args, argi + 1, r - 1);
        IntGroupsSpec(op, args, argi + 1, r - 1);
        assert IntGroups(op, args, argi, r) == Prepend(g, rest);
        if rest.Some? {
          assert |g + rest.value| == SIZES[op] + (r - 1) * SIZES[op];
        }
      }
    }
  }

  /** A character the operators table maps to 0, met before any NUL, makes
      packbe return NULL, whatever precedes it. */
  lemma {:induction false} InvalidOperatorFrom(st: PackState, fmt: seq<char>, args: seq<Arg>, k: nat)
    requires ValidArgs(args)
    requires st.pos <= k < |fmt| && Operator(fmt[k]) == OP_INVALID && fmt[k] != NUL
    requires NUL !in fmt[..k]
    ensures PackFrom(st, fmt, args) == None
    decreases |fmt| - st.pos
  {
    assert fmt[st.pos] != NUL by {
      if st.pos < k {
        assert fmt[st.pos] == fmt[..k][st.pos];
      }
    }
    match Step(st, fmt, args)
    case None =>
    case Some(st') =>
      InvalidOperatorFrom(st', fmt, args, k);
  }

  lemma InvalidOperatorFails(fmt: seq<char>, args: seq<Arg>, k: nat)
    requires ValidArgs(args)
    requires k < |fmt| && Operator(fmt[k]) == OP_INVALID && fmt[k] != NUL
    requires NUL !in fmt[..k]
    ensures Pack(fmt, args) == None
  {
    InvalidOperatorFrom(PackState([], PS_INITIALIZER, 0, 0), fmt, args, k);
  }

  /** A format of integer type characters only. */
  predicate TypeChar(c: char) { OP_PLAINCHAR <= Operator(c) <= OP_LLONG }

  /** The operation a type character runs; plain char runs op_char. */
  function CharOp(c: char): (op: nat)
    requires TypeChar(c)
    ensures IsIntOp(op)
  {
    if Operator(c) == OP_PLAINCHAR then OP_CHAR else Operator(c)
  }

  function Width(c: char): nat
    requires TypeChar(c)
  {
    SIZES[CharOp(c)]
  }

  function TotalWidth(fs: seq<char>): nat
    requires forall k :: 0 <= k < |fs| ==> TypeChar(fs[k])
  {
    if fs == [] then 0 else Width(fs[0]) + TotalWidth(fs[1..])
  }

  /** One integer argument per value. */
  function Ints(vs: seq<int>): (args: seq<Arg>)
    ensures |args| == |vs| && ValidArgs(args)
    ensures forall k :: 0 <= k < |vs| ==> args[k] == Int(vs[k])
  {
    seq(|vs|, k requires 0 <= k < |vs| => Int(vs[k]))
  }

  /** A reader for such a format: each character takes its width of bytes
      and reads them as a big-endian number. */
  function Unpack(fs: seq<char>, bs: seq<byte>): (vs: seq<nat>)
    requires forall k :: 0 <= k < |fs| ==> TypeChar(fs[k])
    requires |bs| == TotalWidth(fs)
    ensures |vs| == |fs|
  {
    if fs == [] then []
    else [FromBigEndian(bs[..Width(fs[0])])] + Unpack(fs[1..], bs[Width(fs[0])..])
  }

  /** The groups packbe writes for such a format, one argument each. */
  function Encode(fs: seq<char>, vs: seq<int>): (bs: seq<byte>)
    requires forall k :: 0 <= k < |fs| ==> TypeChar(fs[k])
    requires |vs| == |fs|
    ensures |bs| == TotalWidth(fs)
  {
    if fs == [] then []
    else BigEndian(Conv(vs[0], CharOp(fs[0])), Width(fs[0])) + Encode(fs[1..], vs[1..])
  }

  lemma {:induction false} PackFromTypes(out: seq<byte>, i: nat, fmt: seq<char>, vs: seq<int>)
    requires forall k :: 0 <= k < |fmt| ==> TypeChar(fmt[k])
    requires |vs| == |fmt| && i <= |fmt|
    ensures PackFrom(PackState(out, PS_INITIALIZER, i, i), fmt, Ints(vs))
         == Some(out + Encode(fmt[i..], vs[i..]))
    decreases |fmt| - i
  {
    var args := Ints(vs);
    var st := PackState(out, PS_INITIALIZER, i, i);
    if i == |fmt| {
      assert fmt[i..] == [] && vs[i..] == [];
      assert out + [] == out;
    } else {
      var g := BigEndian(Conv(vs[i], CharOp(fmt[i])), Width(fmt[i]));
      var st' := PackState(out + g, PS_INITIALIZER, i + 1, i + 1);
      TypeCharStep(out, i, fmt, vs, g);
      PackFromStep(st, fmt, args, st');
      PackFromTypes(out + g, i + 1, fmt, vs);
      EncodeFrom(out, fmt, vs, i, g);
    }
  }

  lemma PackFromStep(st: PackState, fmt: seq<char>, args: seq<Arg>, st': PackState)
    requires ValidArgs(args) && !AtEnd(fmt, st.pos) && st.pos < |fmt|
    requires Step(st, fmt, args) == Some(st')
    ensures PackFrom(st, fmt, args) == PackFrom(st', fmt, args)
  {
  }

  /** One type character of the format packs its argument big-endian. */
  lemma TypeCharStep(out: seq<byte>, i: nat, fmt: seq<char>, vs: seq<int>, g: seq<byte>)
    requires i < |fmt| && TypeChar(fmt[i]) && |vs| == |fmt|
    requires g == BigEndian(Conv(vs[i], CharOp(fmt[i])), Width(fmt[i]))
    ensures !AtEnd(fmt, i)
    ensures Step(PackState(out, PS_INITIALIZER, i, i), fmt, Ints(vs))
         == Some(PackState(out + g, PS_INITIALIZER, i + 1, i + 1))
  {
    var args := Ints(vs);
    var st := PackState(out, PS_INITIALIZER, i, i);
    var op := CharOp(fmt[i]);
    assert IntGroups(op, args, i, 0) == Some([]);
    assert g + [] == g;
    assert IntGroups(op, args, i, 1) == Some(g);
    assert IntStep(st.(spec := st.spec.(sign := CHAR_IS_SIGNED)), op, args)
        == IntStep(st, op, args)
        == Some(PackState(out + g, PS_INITIALIZER, i + 1, i + 1));
  }

  /** The encoding from position i is the group of value i followed by the
      encoding from i + 1. */
  lemma EncodeFrom(out: seq<byte>, fmt: seq<char>, vs: seq<int>, i: nat, g: seq<byte>)
    requires i < |fmt| && |vs| == |fmt|
    requires forall k :: 0 <= k < |fmt| ==> TypeChar(fmt[k])
    requires g == BigEndian(Conv(vs[i], CharOp(fmt[i])), Width(fmt[i]))
    ensures out + Encode(fmt[i..], vs[i..]) == out + g + Encode(fmt[i + 1..], vs[i + 1..])
  {
    assert fmt[i..][1..] == fmt[i + 1..];
    assert vs[i..][1..] == vs[i + 1..];
    assert Encode(fmt[i..], vs[i..]) == g + Encode(fmt[i + 1..], vs[i + 1..]);
  }

  lemma {:induction false} UnpackEncode(fs: seq<char>, vs: seq<int>)
    requires forall k :: 0 <= k < |fs| ==> TypeChar(fs[k])
    requires |vs| == |fs|
    ensures forall k :: 0 <= k < |fs| ==> Unpack(fs, Encode(fs, vs))[k] == vs[k] % Pow256(Width(fs[k]))
  {
    if fs != [] {
      var w := Width(fs[0]);
      var bs := Encode(fs, vs);
      assert bs[..w] == BigEndian(Conv(vs[0], CharOp(fs[0])), w);
      assert bs[w..] == Encode(fs[1..], vs[1..]);
      ConvRoundTrip(vs[0], CharOp(fs[0]));
      UnpackEncode(fs[1..], vs[1..]);
      UnpackTail(fs, bs, vs, w);
    }
  }

  lemma UnpackTail(fs: seq<char>, bs: seq<byte>, vs: seq<int>, w: nat)
    requires fs != [] && forall k :: 0 <= k < |fs| ==> TypeChar(fs[k])
    requires |vs| == |fs| && |bs| == TotalWidth(fs) && w == Width(fs[0])
    requires forall k :: 0 <= k < |fs[1..]| ==> Unpack(fs[1..], bs[w..])[k] == vs[1..][k] % Pow256(Width(fs[1..][k]))
    ensures forall k :: 1 <= k < |fs| ==> Unpack(fs, bs)[k] == vs[k] % Pow256(Width(fs[k]))
  {
    var rest := Unpack(fs[1..], bs[w..]);
    var all := Unpack(fs, bs);
    assert all == [FromBigEndian(bs[..w])] + rest;
    forall k | 1 <= k < |fs|
      ensures all[k] == vs[k] % Pow256(Width(fs[k]))
    {
      assert all[k] == rest[k - 1];
      assert fs[1..][k - 1] == fs[k] && vs[1..][k - 1] == vs[k];
    }
  }

  /**
   * Packing integers under a format of type characters succeeds, writes the
   * sum of their widths, and reading each group back gives the argument
   * modulo 256^width: each argument keeps its low width bytes.
   */
  lemma PackRoundTrip(fmt: seq<char>, vs: seq<int>)
    requires forall k :: 0 <= k < |fmt| ==> TypeChar(fmt[k])
    requires |vs| == |fmt|
    ensures Pack(fmt, Ints(vs)).Some?
    ensures |Pack(fmt, Ints(vs)).value| == TotalWidth(fmt)
    ensures forall k :: 0 <= k < |fmt| ==>
      Unpack(fmt, Pack(fmt, Ints(vs)).value)[k] == vs[k] % Pow256(Width(fmt[k]))
  {
    PackFromTypes([], 0, fmt, vs);
    assert fmt[0..] == fmt && vs[0..] == vs;
    assert [] + Encode(fmt, vs) == Encode(fmt, vs);
    UnpackEncode(fmt, vs);
  }

  /** A repeat count of 0 is rejected: "0c" packs nothing. */
  lemma ZeroCountFails(args: seq<Arg>)
    requires ValidArgs(args)
    ensures Pack(['0', 'c'], args) == None
  {
    var fmt := ['0', 'c'];
    assert DigitsEnd(fmt, 1) == 1;
    assert DigitsValue(fmt, 0, 1) == 0;
  }

  /** "3s" consumes three arguments and writes three two-byte groups. */
  lemma RepeatedShorts()
    ensures Pack(['3', 's'], Ints([1, 258, -1])) == Some([0, 1, 1, 2, 255, 255])
  {
    var fmt := ['3', 's'];
    var args := Ints([1, 258, -1]);
    assert DigitsEnd(fmt, 1) == 1;
    assert DigitsValue(fmt, 0, 1) == 3;
    var st1 := PackState([], ParsedSpec(3, false), 0, 1);
    assert Step(PackState([], PS_INITIALIZER, 0, 0), fmt, args) == Some(st1);
    ShortGroups(args);
    assert [] + [0, 1, 1, 2, 255, 255] == [0, 1, 1, 2, 255, 255];
    var st2 := PackState([0, 1, 1, 2, 255, 255], PS_INITIALIZER, 3, 2);
    assert Step(st1, fmt, args) == Some(st2);
    assert PackFrom(st2, fmt, args) == Some(st2.out);
  }

  /** The three shorts 1, 258 and -1 as big-endian pairs of bytes. */
  lemma ShortGroups(args: seq<Arg>)
    requires args == Ints([1, 258, -1])
    ensures IntGroups(3, args, 0, 3) == Some([0, 1, 1, 2, 255, 255])
  {
    ShortBytes();
    assert args[0] == Int(1) && args[1] == Int(258) && args[2] == Int(-1);
    assert IntGroups(3, args, 3, 0) == Some([]);
    assert [255, 255] + [] == [255, 255];
    assert IntGroups(3, args, 2, 1) == Some([255, 255]);
    assert [1, 2] + [255, 255] == [1, 2, 255, 255];
    assert IntGroups(3, args, 1, 2) == Some([1, 2, 255, 255]);
    assert [0, 1] + [1, 2, 255, 255] == [0, 1, 1, 2, 255, 255];
  }

  lemma ShortBytes()
    ensures BigEndian(Conv(1, 3), 2) == [0, 1]
    ensures BigEndian(Conv(258, 3), 2) == [1, 2]
    ensures BigEndian(Conv(-1, 3), 2) == [255, 255]
  {
    assert Pow256(2) == 65536;
    assert Conv(1, 3) == 1 && Conv(258, 3) == 258 && Conv(-1, 3) == 65535;
    assert BigEndian(1, 2) == [0, 1];
    assert BigEndian(258, 2) == [1, 2];
    assert BigEndian(65535, 2) == [255, 255];
  }

  /** "S" copies the string up to and including its NUL and no further. */
  lemma StringStopsAtNul()
    ensures Pack(['S'], [Str([104, 105, 0, 33])]) == Some([104, 105, 0])
  {
    var s: seq<byte> := [104, 105, 0, 33];
    assert ByteStrLen(s) == 2;
    assert CString(s) == [104, 105, 0];
    assert [] + CString(s) == [104, 105, 0];
    var st1 := PackState([104, 105, 0], PS_INITIALIZER, 1, 1);
    assert Step(PackState([], PS_INITIALIZER, 0, 0), ['S'], [Str(s)]) == Some(st1);
    assert PackFrom(st1, ['S'], [Str(s)]) == Some([104, 105, 0]);
  }

  // ---------------------------------------------------------------------
  // The operations and packbe itself

  /** Appends the big-endian bytes of conv: `while (j > 0) *buf++ = conv >> --j * CHAR_BIT`. */
  method StoreBigEndian(out: seq<byte>, conv: nat, width: nat) returns (out': seq<byte>)
    ensures out' == out + BigEndian(conv, width)
  {
    out' := out;
    var j := width;
    while j > 0
      invariant 0 <= j <= width
      invariant |out'| == |out| + width - j
      invariant out'[..|out|] == out
      invariant forall k :: 0 <= k < width - j ==> out'[|out| + k] == BigEndian(conv, width)[k]
    {
      j := j - 1;
      BigEndianAt(conv, width, width - 1 - j);
      out' := out' + [(conv / Pow256(j)) % 256];
    }
    assert out'[|out|..] == BigEndian(conv, width);
  }

  /** op_char, op_short, op_int, op_long and op_llong. */
  method IntOp(st: PackState, op: nat, args: seq<Arg>) returns (res: int, st': PackState)
    requires IsIntOp(op)
    ensures res == 0 || res == -1
    ensures res == 0 <==> IntStep(st, op, args).Some?
    ensures res == 0 ==> st' == IntStep(st, op, args).value
  {
    var out := st.out;
    var i := 0;
    PrependAssoc([], [], IntGroups(op, args, st.argi, st.spec.repeat));
    assert out[|st.out|..] == [];
    while i < st.spec.repeat
      invariant 0 <= i <= st.spec.repeat
      invariant |out| >= |st.out| && out[..|st.out|] == st.out
      invariant IntGroups(op, args, st.argi, st.spec.repeat)
             == Prepend(out[|st.out|..], IntGroups(op, args, st.argi + i, st.spec.repeat - i))
    {
      if !(st.argi + i < |args| && args[st.argi + i].Int?) {
        // va_arg past the last argument or of the wrong type
        return -1, st;
      }
      // signed or unsigned, the argument is reduced modulo 2^(8 * sizeof(TYPE))
      var conv := Conv(args[st.argi + i].n, op);
      var out' := StoreBigEndian(out, conv, SIZES[op]);
      assert out'[|st.out|..] == out[|st.out|..] + BigEndian(conv, SIZES[op]);
      PrependAssoc(out[|st.out|..], BigEndian(conv, SIZES[op]),
                   IntGroups(op, args, st.argi + i + 1, st.spec.repeat - i - 1));
      out := out';
      i := i + 1;
    }
    assert out == st.out + out[|st.out|..];
    res, st' := 0, PackState(out, PS_INITIALIZER, st.argi + st.spec.repeat, st.pos + 1);
  }

  /** op_string: copies the string and its NUL. */
  method StringOp(st: PackState, args: seq<Arg>) returns (res: int, st': PackState)
    requires ValidArgs(args)
    ensures res == 0 || res == -1
    ensures res == 0 <==> st.argi < |args| && args[st.argi].Str?
    ensures res == 0 ==> st' == PackState(st.out + CString(args[st.argi].s), PS_INITIALIZER, st.argi + 1, st.pos + 1)
  {
    if !(st.argi < |args| && args[st.argi].Str?) {
      return -1, st;
    }
    var s := args[st.argi].s;
    var n := ByteStrLen(s);
    var out := st.out;
    var k := 0;
    var copied := 1;
    while copied != 0
      invariant 0 <= k <= n + 1
      invariant out == st.out + s[..k]
      invariant copied == 0 <==> k == n + 1
      decreases n + 1 - k
    {
      copied := s[k];
      out := out + [copied];
      k := k + 1;
    }
    res, st' := 0, PackState(out, PS_INITIALIZER, st.argi + 1, st.pos + 1);
  }

  /** op_repeat: strtol over the digits, then the range check. */
  method RepeatOp(st: PackState, fmt: seq<char>) returns (res: int, st': PackState)
    requires st.pos < |fmt| && Operator(fmt[st.pos]) == OP_REPEAT
    ensures res == 0 || res == -1
    ensures res == 0 <==> 0 < DigitsValue(fmt, st.pos, DigitsEnd(fmt, st.pos)) <= LONG_MAX
    ensures res == 0 ==> st' == st.(spec := st.spec.(repeat := DigitsValue(fmt, st.pos, DigitsEnd(fmt, st.pos))),
                                    pos := DigitsEnd(fmt, st.pos))
  {
    var end := st.pos;
    var cnt := 0;
    while end < |fmt| && '0' <= fmt[end] <= '9'
      invariant st.pos <= end <= |fmt|
      invariant forall k :: st.pos <= k < end ==> '0' <= fmt[k] <= '9'
      invariant DigitsEnd(fmt, end) == DigitsEnd(fmt, st.pos)
      invariant cnt == DigitsValue(fmt, st.pos, end)
    {
      cnt := 10 * cnt + (fmt[end] as int - '0' as int);
      end := end + 1;
    }
    if cnt == 0 || cnt > LONG_MAX {
      return -1, st;
    }
    res, st' := 0, st.(spec := st.spec.(repeat := cnt), pos := end);
  }

  /** operations[op]: dispatches on the operator of fmt[st.pos]. */
  method Operation(st: PackState, fmt: seq<char>, args: seq<Arg>) returns (res: int, st': PackState)
    requires st.pos < |fmt| && ValidArgs(args)
    ensures res == 0 || res == -1
    ensures res == 0 <==> Step(st, fmt, args).Some?
    ensures res == 0 ==> st' == Step(st, fmt, args).value
  {
    var op := Operator(fmt[st.pos]);
    if op == OP_INVALID {
      // op_invalid reports the character on stderr
      res, st' := -1, st;
    } else if op == OP_PLAINCHAR {
      res, st' := IntOp(st.(spec := st.spec.(sign := CHAR_IS_SIGNED)), OP_CHAR, args);
    } else if IsIntOp(op) {
      res, st' := IntOp(st, op, args);
    } else if op == OP_STRING {
      res, st' := StringOp(st, args);
    } else if op == OP_REPEAT {
      res, st' := RepeatOp(st, fmt);
    } else {
      res, st' := 0, st.(spec := st.spec.(sign := true), pos := st.pos + 1);
    }
  }

  /** packbe: the bytes written (their count is the returned end pointer
      minus the buffer), or None where it returns NULL. */
  method PackBe(fmt: seq<char>, args: seq<Arg>) returns (r: Option<seq<byte>>)
    requires ValidArgs(args)
    ensures r == Pack(fmt, args)
  {
    var st := PackState([], PS_INITIALIZER, 0, 0);
    while !AtEnd(fmt, st.pos)
      invariant PackFrom(st, fmt, args) == Pack(fmt, args)
      decreases |fmt| - st.pos
    {
      var res, st' := Operation(st, fmt, args);
      if res == -1 {
        return None;
      }
      st := st';
    }
    r := Some(st.out);
  }
}
