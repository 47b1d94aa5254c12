// Model of visbuf, tohex and fflagnl in 5-3.c: a filter that makes bytes
// visible, escaping the others as \X and two hex digits, and optionally
// folding its output. The stream written to becomes the returned sequence of
// characters; the character classes are those of the C locale.
module Vis {
  import opened Common

  const TABWIDTH: nat := 8
  /** sizeof(hex): the width of an escape. */
  const HEXWIDTH: nat := 4
  const TAB: byte := 9

  /** isprint in the C locale. */
  predicate IsPrint(b: byte) { 32 <= b <= 126 }

  /** isspace in the C locale: space, \t, \n, \v, \f, \r. */
  predicate IsSpace(b: byte) { b == 32 || 9 <= b <= 13 }

  /** Bytes written unchanged. */
  predicate Shown(b: byte) { IsPrint(b) || IsSpace(b) }

  /** A character the filter may emit. */
  predicate Visible(c: char) { (32 <= c as int <= 126) || (9 <= c as int <= 13) }

  function HexDigit(d: nat): (c: char)
    requires d < 16
    ensures Visible(c)
  {
    if d < 10 then ('0' as int + d) as char else ('a' as int + d - 10) as char
  }

  /** The value of a lowercase hex digit. */
  function HexValue(c: char): int
  {
    if '0' <= c <= '9' then c as int - '0' as int
    else if 'a' <= c <= 'f' then c as int - 'a' as int + 10
    else -1
  }

  /** tohex: sprintf's "%.2x", exactly two lowercase hex digits. */
  function ToHex(b: byte): (h: seq<char>)
    ensures |h| == 2 && Visible(h[0]) && Visible(h[1])
  {
    [HexDigit(b / 16), HexDigit(b % 16)]
  }

  /** The two digits of tohex read back give the byte. */
  lemma ToHexRoundTrip(b: byte)
    ensures HexValue(ToHex(b)[0]) * 16 + HexValue(ToHex(b)[1]) == b
  {
    var h := ToHex(b);
    assert HexValue(h[0]) == b / 16;
    assert HexValue(h[1]) == b % 16;
  }

  /**
   * fflagnl: with folding on (fflag > 0), adds the item's width to written;
   * when that reaches fflag it asks for a newline and restarts written at 0.
   * With fflag == 0 nothing changes.
   */
  function FflagNl(written: nat, add: nat, fflag: nat): (r: (nat, bool))
    ensures fflag == 0 ==> r == (written, false)
    ensures fflag > 0 ==> (r.1 <==> written + add >= fflag)
    ensures fflag > 0 ==> r.0 < fflag || (r.0 == written + add && !r.1)
    ensures r.1 ==> r.0 == 0
  {
    if fflag != 0 then
      var w := written + add;
      if w >= fflag then (0, true) else (w, false)
    else (written, false)
  }

  /** One unit of output: an inserted fold newline, or the text for one byte. */
  datatype Piece = Fold | Text(chars: seq<char>)

  function Render(ps: seq<Piece>): seq<char>
  {
    if ps == [] then [] else (if ps[0].Fold? then ['\n'] else ps[0].chars) + Render(ps[1..])
  }

  /** The text for one byte: itself, its escape, or (with dflag) nothing. */
  function ItemText(b: byte, dflag: bool): seq<char>
  {
    if Shown(b) then [b as char]
    else if !dflag then ['\\', 'X'] + ToHex(b)
    else []
  }

  /** The width fflagnl is told for a byte that is written. */
  function ItemWidth(b: byte): nat
  {
    if Shown(b) then (if b == TAB then TABWIDTH else 1) else HEXWIDTH
  }

  /** What the loop of visbuf emits for one byte, from written. */
  function Step(b: byte, written: nat, fflag: nat, dflag: bool): (r: (seq<Piece>, nat))
  {
    if Shown(b) || !dflag then
      var (w, nl) := FflagNl(written, ItemWidth(b), fflag);
      ((if nl then [Fold] else []) + [Text(ItemText(b, dflag))], w)
    else ([], written)
  }

  /** The output of visbuf's loop over bs, starting from written. */
  function Pieces(bs: seq<byte>, written: nat, fflag: nat, dflag: bool): seq<Piece>
  {
    if bs == [] then []
    else
      var (ps, w) := Step(bs[0], written, fflag, dflag);
      ps + Pieces(bs[1..], w, fflag, dflag)
  }

  /** The bytes' texts one after the other, with no folding. */
  function Unfolded(bs: seq<byte>, dflag: bool): seq<char>
  {
    if bs == [] then [] else ItemText(bs[0], dflag) + Unfolded(bs[1..], dflag)
  }

  /** The pieces without the fold newlines. */
  function Texts(ps: seq<Piece>): seq<Piece>
  {
    if ps == [] then [] else (if ps[0].Fold? then [] else [ps[0]]) + Texts(ps[1..])
  }

  lemma {:induction false} RenderAppend(a: seq<Piece>, b: seq<Piece>)
    ensures Render(a + b) == Render(a) + Render(b)
  {
    if a == [] {
      assert a + b == b;
    } else {
      assert (a + b)[1..] == a[1..] + b;
      RenderAppend(a[1..], b);
    }
  }

  lemma {:induction false} TextsAppend(a: seq<Piece>, b: seq<Piece>)
    ensures Texts(a + b) == Texts(a) + Texts(b)
  {
    if a == [] {
      assert a + b == b;
    } else {
      assert (a + b)[1..] == a[1..] + b;
      TextsAppend(a[1..], b);
    }
  }

  /** Without folding the output is each byte's text in turn, and no newline
      is inserted. */
  lemma {:induction false} NoFoldIsUnfolded(bs: seq<byte>, written: nat, dflag: bool)
    ensures Render(Pieces(bs, written, 0, dflag)) == Unfolded(bs, dflag)
    ensures Fold !in Pieces(bs, written, 0, dflag)
  {
    if bs != [] {
      var (ps, w) := Step(bs[0], written, 0, dflag);
      NoFoldIsUnfolded(bs[1..], w, dflag);
      RenderAppend(ps, Pieces(bs[1..], w, 0, dflag));
    }
  }

  /** Folding only inserts newlines: dropping them gives the output without
      folding. */
  lemma {:induction false} FoldOnlyInserts(bs: seq<byte>, written: nat, fflag: nat, dflag: bool)
    ensures Texts(Pieces(bs, written, fflag, dflag)) == Texts(Pieces(bs, 0, 0, dflag))
  {
    if bs != [] {
      var (ps, w) := Step(bs[0], written, fflag, dflag);
      var (qs, v) := Step(bs[0], 0, 0, dflag);
      FoldOnlyInserts(bs[1..], w, fflag, dflag);
      FoldOnlyInserts(bs[1..], v, 0, dflag);
      TextsAppend(ps, Pieces(bs[1..], w, fflag, dflag));
      TextsAppend(qs, Pieces(bs[1..], v, 0, dflag));
      assert Texts(ps) == Texts(qs) by {
        if Shown(bs[0]) || !dflag {
          TextsAppend(if FflagNl(written, ItemWidth(bs[0]), fflag).1 then [Fold] else [],
                      [Text(ItemText(bs[0], dflag))]);
        }
      }
    }
  }

  /** Everything emitted is printable or white space. */
  lemma {:induction false} OutputIsVisible(bs: seq<byte>, written: nat, fflag: nat, dflag: bool)
    ensures forall c :: c in Render(Pieces(bs, written, fflag, dflag)) ==> Visible(c)
  {
    if bs != [] {
      var (ps, w) := Step(bs[0], written, fflag, dflag);
      OutputIsVisible(bs[1..], w, fflag, dflag);
      RenderAppend(ps, Pieces(bs[1..], w, fflag, dflag));
      if Shown(bs[0]) || !dflag {
        RenderAppend(if FflagNl(written, ItemWidth(bs[0]), fflag).1 then [Fold] else [],
                     [Text(ItemText(bs[0], dflag))]);
      }
    }
  }

  /** With dflag and no folding, the output is exactly the shown bytes. */
  lemma {:induction false} DflagKeepsShown(bs: seq<byte>)
    ensures Unfolded(bs, true) == AsChars(Filtered(bs))
  {
    if bs != [] {
      DflagKeepsShown(bs[1..]);
      AsCharsAppend(if Shown(bs[0]) then [bs[0]] else [], Filtered(bs[1..]));
    }
  }

  function Filtered(bs: seq<byte>): (r: seq<byte>)
    ensures forall i :: 0 <= i < |r| ==> Shown(r[i])
  {
    if bs == [] then [] else (if Shown(bs[0]) then [bs[0]] else []) + Filtered(bs[1..])
  }

  function AsChars(bs: seq<byte>): (r: seq<char>)
  {
    if bs == [] then [] else [bs[0] as char] + AsChars(bs[1..])
  }

  lemma {:induction false} AsCharsAppend(a: seq<byte>, b: seq<byte>)
    ensures AsChars(a + b) == AsChars(a) + AsChars(b)
  {
    if a == [] {
      assert a + b == b;
    } else {
      assert (a + b)[1..] == a[1..] + b;
      AsCharsAppend(a[1..], b);
    }
  }

  /** The escape is ambiguous: the byte 0 and the four bytes of its escape
      "\X00" produce the same output. */
  lemma EscapeIsAmbiguous()
    ensures Unfolded([0], false) == Unfolded([92, 88, 48, 48], false)
  {
    assert ToHex(0) == ['0', '0'];
  }

  /**
   * visbuf: returns the characters written for buf[0..n); written restarts
   * at 0 on every call.
   */
  method VisBuf(buf: array<byte>, n: nat, fflag: nat, dflag: bool) returns (out: seq<char>)
    requires n <= buf.Length
    ensures out == Render(Pieces(buf[..n], 0, fflag, dflag))
  {
    ghost var bs := buf[..n];
    ghost var total := Render(Pieces(bs, 0, fflag, dflag));
    out := [];
    var written := 0;
    var i := 0;
    assert bs[0..] == bs;
    while i < n
      invariant 0 <= i <= n
      invariant out + Render(Pieces(bs[i..], written, fflag, dflag)) == total
    {
      ghost var out0, written0 := out, written;
      out, written := VisByte(out, written, buf[i], fflag, dflag);
      StepKeepsTotal(bs, i, out0, written0, out, written, fflag, dflag, total);
      i := i + 1;
    }
    assert bs[n..] == [];
    assert Render(Pieces([], written, fflag, dflag)) == [];
  }

  /** The output for bs[i..] is that of bs[i] followed by that of the rest. */
  lemma RenderStep(bs: seq<byte>, i: nat, written: nat, fflag: nat, dflag: bool)
    requires i < |bs|
    ensures Render(Pieces(bs[i..], written, fflag, dflag)) ==
              Render(Step(bs[i], written, fflag, dflag).0) +
              Render(Pieces(bs[i + 1..], Step(bs[i], written, fflag, dflag).1, fflag, dflag))
  {
    var (ps, w) := Step(bs[i], written, fflag, dflag);
    assert bs[i..][1..] == bs[i + 1..];
    RenderAppend(ps, Pieces(bs[i + 1..], w, fflag, dflag));
  }

  /** One iteration of visbuf's loop keeps "output so far followed by the
      output for the remaining bytes" equal to the whole output. */
  lemma StepKeepsTotal(bs: seq<byte>, i: nat, out0: seq<char>, written0: nat,
                       out1: seq<char>, written1: nat, fflag: nat, dflag: bool, total: seq<char>)
    requires i < |bs| && out0 + Render(Pieces(bs[i..], written0, fflag, dflag)) == total
    requires out1 == out0 + Render(Step(bs[i], written0, fflag, dflag).0)
    requires written1 == Step(bs[i], written0, fflag, dflag).1
    ensures out1 + Render(Pieces(bs[i + 1..], written1, fflag, dflag)) == total
  {
    var here := Render(Step(bs[i], written0, fflag, dflag).0);
    var rest := Render(Pieces(bs[i + 1..], written1, fflag, dflag));
    var whole := Render(Pieces(bs[i..], written0, fflag, dflag));
    assert whole == here + rest by {
      RenderStep(bs, i, written0, fflag, dflag);
    }
    ConcatKeepsTotal(out0, out1, here, rest, whole, total);
  }

  lemma ConcatKeepsTotal(out0: seq<char>, out1: seq<char>, here: seq<char>, rest: seq<char>,
                         whole: seq<char>, total: seq<char>)
    requires out0 + whole == total && whole == here + rest && out1 == out0 + here
    ensures out1 + rest == total
  {
    assert out1 + rest == out0 + (here + rest);
  }

  /** The body of visbuf's loop for one byte. */
  method VisByte(out: seq<char>, written: nat, b: byte, fflag: nat, dflag: bool)
    returns (out': seq<char>, written': nat)
    ensures out' == out + Render(Step(b, written, fflag, dflag).0)
    ensures written' == Step(b, written, fflag, dflag).1
  {
    out', written' := out, written;
    var nl := false;
    if Shown(b) {
      var clen := if b == TAB then TABWIDTH else 1;
      written', nl := FflagNl(written, clen, fflag).0, FflagNl(written, clen, fflag).1;
      if nl {
        out' := out' + ['\n'];
      }
      out' := out' + [b as char];
    } else if !dflag {
      var hex := ['\\', 'X'] + ToHex(b);
      written', nl := FflagNl(written, HEXWIDTH, fflag).0, FflagNl(written, HEXWIDTH, fflag).1;
      if nl {
        out' := out' + ['\n'];
      }
      out' := out' + hex;
    }
    if Shown(b) || !dflag {
      var t := Text(ItemText(b, dflag));
      if nl {
        assert [Fold] + [t] == [Fold, t] && [Fold, t][1..] == [t];
        assert Render([t]) == t.chars + Render([]);
      } else {
        assert [] + [t] == [t];
        assert Render([t]) == t.chars + Render([]);
      }
    }
  }
}
