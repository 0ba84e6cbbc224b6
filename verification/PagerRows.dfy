/** Soft-wrapped display rows of a span (bro/BRO.c). */
module PagerRows {
  import opened Seqs
  import opened Bytes
  import opened Tokens
  import opened PagerSegments
  import Dpath

  /** Bytes of the UTF-8 sequence a byte starts, by its high half; 0 for a continuation byte. */
  function Utf8Len(b: byte): nat {
    var h := b / 16;
    if h < 8 then 1 else if h < 12 then 0 else if h < 14 then 2 else if h == 14 then 3 else 4
  }

  /** How far one character reaches: its sequence if that fits the text, else one byte. */
  function StepLen(b: byte, off: nat, length: nat): (n: nat)
    requires off < length
    ensures 1 <= n <= 4 && off + n <= length
  {
    var n := Utf8Len(b);
    if n == 0 || off + n > length then 1 else n
  }

  /** Stepping from the first byte of a UTF-8 character steps over all of it; its other bytes start nothing. */
  lemma StepsOverCharacters(cp: int, off: nat, length: nat)
    requires Dpath.Scalar(cp) && off + |Dpath.EncodePoint(cp)| <= length
    ensures var s := Dpath.EncodePoint(cp);
      StepLen(s[0], off, length) == |s| && forall k :: 0 < k < |s| ==> Utf8Len(s[k]) == 0
  {
  }

  ghost predicate VisibleNewline(ms: seq<Mark>, off: nat, pass: Pass)
    requires off < |ms|
  {
    ms[off].b == NEWLINE && !Hidden(pass, ms[off].side)
  }

  /** Where a row that starts at off with room for that many visible characters ends. */
  ghost function RowEnd(ms: seq<Mark>, off: nat, room: nat, pass: Pass): (e: nat)
    requires off <= |ms|
    ensures off <= e <= |ms|
    ensures off < |ms| && room > 0 && !VisibleNewline(ms, off, pass) ==> off < e
    decreases |ms| - off
  {
    if off == |ms| || room == 0 || VisibleNewline(ms, off, pass) then off
    else RowEnd(ms, off + StepLen(ms[off].b, off, |ms|), if Hidden(pass, ms[off].side) then room else room - 1, pass)
  }

  /** The starts of the rows of a span. */
  ghost function Rows(ms: seq<Mark>, lo: nat, end: nat, cols: nat, pass: Pass): seq<nat>
    requires lo <= end <= |ms| && cols > 0 && NoVisibleNewline(ms, lo, end, pass)
    decreases end - lo
  {
    var e := RowEnd(ms, lo, cols, pass);
    if e >= end then [lo] else [lo] + Rows(ms, e, end, cols, pass)
  }

  lemma RowsUnfold(ms: seq<Mark>, lo: nat, end: nat, cols: nat, pass: Pass)
    requires lo <= end <= |ms| && cols > 0 && NoVisibleNewline(ms, lo, end, pass)
    ensures var e := RowEnd(ms, lo, cols, pass);
      if e >= end then Rows(ms, lo, end, cols, pass) == [lo]
      else lo < e && NoVisibleNewline(ms, e, end, pass)
           && Rows(ms, lo, end, cols, pass) == [lo] + Rows(ms, e, end, cols, pass)
  {
  }

  /** Row k of a span: where it starts, and that it ends where the next one starts or at the span's end. */
  lemma {:induction false} RowAt(ms: seq<Mark>, lo: nat, end: nat, cols: nat, pass: Pass, k: nat)
    requires lo <= end <= |ms| && cols > 0 && NoVisibleNewline(ms, lo, end, pass)
    requires k < |Rows(ms, lo, end, cols, pass)|
    ensures var rows := Rows(ms, lo, end, cols, pass);
      && lo <= rows[k] <= end && rows[0] == lo
      && (k + 1 < |rows| ==> rows[k] < rows[k + 1] == RowEnd(ms, rows[k], cols, pass))
      && (k + 1 == |rows| ==> RowEnd(ms, rows[k], cols, pass) >= end)
    decreases k
  {
    hide Rows, RowEnd, NoVisibleNewline;
    RowsUnfold(ms, lo, end, cols, pass);
    var e := RowEnd(ms, lo, cols, pass);
    if e < end {
      RowsUnfold(ms, e, end, cols, pass);
      if k > 0 {
        RowAt(ms, e, end, cols, pass, k - 1);
      }
    }
  }

  /**
   * The rows tile the span: the first starts where it starts, each next one where the previous ends,
   * starts strictly increase, and the last row reaches the end.
   */
  lemma RowsTile(ms: seq<Mark>, lo: nat, end: nat, cols: nat, pass: Pass)
    requires lo <= end <= |ms| && cols > 0 && NoVisibleNewline(ms, lo, end, pass)
    ensures var rows := Rows(ms, lo, end, cols, pass);
      && rows != [] && rows[0] == lo
      && (forall k :: 0 <= k < |rows| ==> lo <= rows[k] <= end)
      && (forall k :: 0 < k < |rows| ==> rows[k - 1] < rows[k] == RowEnd(ms, rows[k - 1], cols, pass))
      && RowEnd(ms, rows[|rows| - 1], cols, pass) >= end
  {
    RowsUnfold(ms, lo, end, cols, pass);
    hide *;
    var rows := Rows(ms, lo, end, cols, pass);
    RowAt(ms, lo, end, cols, pass, |rows| - 1);
    forall k | 0 <= k < |rows| ensures lo <= rows[k] <= end {
      RowAt(ms, lo, end, cols, pass, k);
    }
    forall k | 0 < k < |rows| ensures rows[k - 1] < rows[k] == RowEnd(ms, rows[k - 1], cols, pass) {
      RowAt(ms, lo, end, cols, pass, k - 1);
    }
  }

  /** No character's bytes reach across a newline. */
  ghost predicate NoCrossing(ms: seq<Mark>) {
    forall off, k :: 0 <= off < k < |ms| && k < off + StepLen(ms[off].b, off, |ms|) ==> ms[k].b != NEWLINE
  }

  lemma {:induction false} RowStaysInSpan(ms: seq<Mark>, off: nat, end: nat, room: nat, pass: Pass)
    requires NoCrossing(ms) && off <= end <= |ms| && (end < |ms| ==> VisibleNewline(ms, end, pass))
    ensures RowEnd(ms, off, room, pass) <= end
    decreases |ms| - off
  {
    if !(off == |ms| || room == 0 || VisibleNewline(ms, off, pass)) {
      var next := off + StepLen(ms[off].b, off, |ms|);
      assert end < |ms| && off < end ==> next <= end;
      RowStaysInSpan(ms, next, end, if Hidden(pass, ms[off].side) then room else room - 1, pass);
    }
  }

  /** When no character reaches across a newline, the last row ends exactly where the span does. */
  lemma RowsEndWithSpan(ms: seq<Mark>, sp: Span, cols: nat)
    requires GoodSpan(ms, sp) && cols > 0 && NoCrossing(ms)
    ensures var rows := Rows(ms, sp.lo, sp.end, cols, sp.pass);
      rows != [] && rows[|rows| - 1] <= sp.end && RowEnd(ms, rows[|rows| - 1], cols, sp.pass) == sp.end
  {
    RowsTile(ms, sp.lo, sp.end, cols, sp.pass);
    var rows := Rows(ms, sp.lo, sp.end, cols, sp.pass);
    RowStaysInSpan(ms, rows[|rows| - 1], sp.end, cols, sp.pass);
  }

  /** Visible characters met stepping from off until `to` is reached. */
  ghost function CharCount(ms: seq<Mark>, off: nat, to: nat, pass: Pass): nat
    requires off <= |ms|
    decreases |ms| - off
  {
    if off >= to || off == |ms| then 0
    else (if Hidden(pass, ms[off].side) then 0 else 1)
         + CharCount(ms, off + StepLen(ms[off].b, off, |ms|), to, pass)
  }

  /** A row holds at most `room` visible characters, and fewer only if it ends at a visible newline or with the text. */
  lemma {:induction false} RowWidth(ms: seq<Mark>, off: nat, room: nat, pass: Pass)
    requires off <= |ms|
    ensures var e := RowEnd(ms, off, room, pass);
      && CharCount(ms, off, e, pass) <= room
      && (e < |ms| && !VisibleNewline(ms, e, pass) ==> CharCount(ms, off, e, pass) == room)
    decreases |ms| - off
  {
    if !(off == |ms| || room == 0 || VisibleNewline(ms, off, pass)) {
      var next := off + StepLen(ms[off].b, off, |ms|);
      RowWidth(ms, next, if Hidden(pass, ms[off].side) then room else room - 1, pass);
    }
  }

  // ----- the code -----

  ghost function MarksOf(text: seq<byte>, toks: seq<Token>): (ms: seq<Mark>)
    ensures |ms| == |text|
  {
    Marks(text, toks, |text|)
  }

  /** ti is the first token that ends beyond off. */
  ghost predicate TokenAt(toks: seq<Token>, off: nat, ti: nat) {
    && ti <= |toks| && (forall k :: 0 <= k < ti ==> toks[k].end <= off)
    && (ti < |toks| ==> off < toks[ti].end)
  }

  /** Move on to the first token that ends beyond off. */
  method SkipTokens(toks: seq<Token>, off: nat, from: nat) returns (ti: nat)
    requires from <= |toks| && forall k :: 0 <= k < from ==> toks[k].end <= off
    ensures TokenAt(toks, off, ti) && from <= ti
  {
    ti := from;
    while ti < |toks| && toks[ti].end <= off
      invariant from <= ti <= |toks| && forall k :: 0 <= k < ti ==> toks[k].end <= off
    {
      ti := ti + 1;
    }
  }

  method RowEndPlain(text: seq<byte>, toks: seq<Token>, from: nat, cols: nat) returns (off: nat)
    requires from <= |text|
    ensures off == RowEnd(MarksOf(text, toks), from, cols, NormalPass)
  {
    ghost var ms := MarksOf(text, toks);
    off := from;
    var cp := 0;
    while off < |text| && cp < cols && text[off] != NEWLINE
      invariant off <= |text| && cp <= cols
      invariant RowEnd(ms, from, cols, NormalPass) == RowEnd(ms, off, cols - cp, NormalPass)
      decreases |text| - off
    {
      off := off + StepLen(text[off], off, |text|);
      cp := cp + 1;
    }
  }

  /** Where the row of a pass goes on behind the byte at off, whose side the cursor tells. */
  lemma RowEndGoesOn(text: seq<byte>, toks: seq<Token>, off: nat, ti: nat, room: nat, pass: Pass)
    requires off < |text| && TokenAt(toks, off, ti) && room > 0
    ensures var ms, side := MarksOf(text, toks), if ti < |toks| then toks[ti].side else EQ;
      RowEnd(ms, off, room, pass) ==
        if text[off] == NEWLINE && !Hidden(pass, side) then off
        else RowEnd(ms, off + StepLen(text[off], off, |text|), if Hidden(pass, side) then room else room - 1, pass)
  {
    SideAtIs(toks, off, ti);
  }

  lemma RowEndStops(ms: seq<Mark>, off: nat, room: nat, pass: Pass)
    requires off <= |ms| && (off == |ms| || room == 0)
    ensures RowEnd(ms, off, room, pass) == off
  {
  }

  method RowEndPass(text: seq<byte>, toks: seq<Token>, from: nat, cols: nat, pass: Pass) returns (off: nat)
    requires from <= |text|
    ensures off == RowEnd(MarksOf(text, toks), from, cols, pass)
  {
    hide RowEnd, StepLen, Hidden, MarksOf;
    if pass == NormalPass {
      off := RowEndPlain(text, toks, from, cols);
      return;
    }
    ghost var ms := MarksOf(text, toks);
    off := from;
    var ti := SkipTokens(toks, off, 0);
    var cp := 0;
    while off < |text| && cp < cols
      invariant off <= |text| && cp <= cols && ti <= |toks| && forall k :: 0 <= k < ti ==> toks[k].end <= off
      invariant RowEnd(ms, from, cols, pass) == RowEnd(ms, off, cols - cp, pass)
      decreases |text| - off
    {
      ti := SkipTokens(toks, off, ti);
      RowEndGoesOn(text, toks, off, ti, cols - cp, pass);
      var side := if ti < |toks| then toks[ti].side else EQ;
      var hidden := Hidden(pass, side);
      if text[off] == NEWLINE && !hidden {
        return;
      }
      off := off + StepLen(text[off], off, |text|);
      if !hidden {
        cp := cp + 1;
      }
    }
    RowEndStops(ms, off, cols - cp, pass);
  }

  method CountRows(text: seq<byte>, toks: seq<Token>, lo: nat, end: nat, cols: nat, pass: Pass) returns (n: nat)
    requires lo <= end <= |text| && cols > 0 && NoVisibleNewline(MarksOf(text, toks), lo, end, pass)
    ensures n == |Rows(MarksOf(text, toks), lo, end, cols, pass)|
  {
    ghost var ms := MarksOf(text, toks);
    hide MarksOf;
    var off := lo;
    n := 0;
    while off <= end
      invariant lo <= off <= end
      invariant |Rows(ms, lo, end, cols, pass)| == n + |Rows(ms, off, end, cols, pass)|
      decreases end - off
    {
      n := n + 1;
      var e := RowEndPass(text, toks, off, cols, pass);
      if e >= end {
        break;
      }
      off := e;
    }
  }

  method ClassifyLines(text: seq<byte>, toks: seq<Token>, out: array<LineInfo>) returns (n: nat)
    requires out.Length == LINEINFO_CAP
    modifies out
    ensures n <= LINEINFO_CAP && out[..n] == Kept(MarksOf(text, toks))
  {
    ghost var ms := MarksOf(text, toks);
    var nl, lineLo, ti, inB, rmB, eqB := 0, 0, 0, 0, 0, 0;
    if |text| == 0 {
      assert SegmentsOf(ms) == [];
      return 0;
    }
    for off := 0 to |text|
      invariant ti <= |toks| && forall k :: 0 <= k < ti ==> toks[k].end <= off
      invariant var c := ScanUpTo(ms, off);
        && nl == |c.done| && lineLo == c.lo && inB == c.inB && rmB == c.rmB && eqB == c.eqB
        && out[..Cap(nl)] == c.done[..Cap(nl)]
    {
      ti := SkipTokens(toks, off, ti);
      SideAtIs(toks, off, ti);
      var side := if ti < |toks| then toks[ti].side else EQ;
      if text[off] == NEWLINE {
        StoreNext(out[..], ScanUpTo(ms, off).done, LineInfo(lineLo, off, inB, rmB, eqB, side));
        if nl < LINEINFO_CAP {
          out[nl] := LineInfo(lineLo, off, inB, rmB, eqB, side);
        }
        nl := nl + 1;
        lineLo := off + 1;
        inB, rmB, eqB := 0, 0, 0;
      } else {
        match side
        case IN => inB := inB + 1;
        case RM => rmB := rmB + 1;
        case EQ => eqB := eqB + 1;
      }
    }
    if lineLo < |text| {
      StoreNext(out[..], ScanUpTo(ms, |text|).done, LineInfo(lineLo, |text|, inB, rmB, eqB, EQ));
      if nl < LINEINFO_CAP {
        out[nl] := LineInfo(lineLo, |text|, inB, rmB, eqB, EQ);
      }
      nl := nl + 1;
    } else {
      NilRight(ScanUpTo(ms, |text|).done);
    }
    n := Cap(nl);
    assert SegmentsOf(ms)[..Cap(nl)] == Kept(ms);
  }

  function Cap(n: nat): nat {
    if n < LINEINFO_CAP then n else LINEINFO_CAP
  }

  /** Storing one more element where there is room keeps the array a prefix of the list. */
  lemma StoreNext(out: seq<LineInfo>, done: seq<LineInfo>, s: LineInfo)
    requires |out| == LINEINFO_CAP && out[..Cap(|done|)] == done[..Cap(|done|)]
    ensures |done| < LINEINFO_CAP ==> out[|done| := s][..|done| + 1] == done + [s]
    ensures |done| < LINEINFO_CAP ==> (done + [s])[..Cap(|done| + 1)] == done + [s]
    ensures |done| >= LINEINFO_CAP ==> out[..Cap(|done| + 1)] == (done + [s])[..Cap(|done| + 1)]
  {
  }
}
