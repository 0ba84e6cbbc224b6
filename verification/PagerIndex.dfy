/** The pager's line index: counting it, building it, extending it (bro/BRO.c). */
module PagerIndex {
  import opened Seqs
  import opened Bytes
  import opened Tokens
  import opened PagerSegments
  import opened PagerRows

  /** An index entry: the hunk, and the byte offset packed with the pass, or the title mark. */
  datatype Range32 = Range32(lo: nat, hi: nat)

  const OFFSETS: nat := 0x100_0000
  const TITLE_LINE: nat := 0xFFFF_FFFF

  function PassCode(pass: Pass): nat {
    match pass
    case NormalPass => 0
    case RmPass => 1
    case InPass => 2
  }

  function LineMake(off: nat, pass: Pass): nat {
    PassCode(pass) * OFFSETS + off % OFFSETS
  }

  function LineOff(hi: nat): nat {
    hi % OFFSETS
  }

  function LinePass(hi: nat): nat {
    hi / OFFSETS % 4
  }

  /** Offset and pass survive packing, and no packed entry reads as a title. */
  lemma PackingIsExact(off: nat, pass: Pass)
    requires off < OFFSETS
    ensures LineOff(LineMake(off, pass)) == off && LinePass(LineMake(off, pass)) == PassCode(pass)
    ensures LineMake(off, pass) != TITLE_LINE
  {
  }

  datatype Hunk = Hunk(uri: seq<byte>, text: seq<byte>, toks: seq<Token>)

  // ----- the index as a list -----

  ghost function RowEntries(h: nat, pass: Pass, rows: seq<nat>): seq<Range32> {
    seq(|rows|, k requires 0 <= k < |rows| => Range32(h, LineMake(rows[k], pass)))
  }

  ghost function SpanEntries(ms: seq<Mark>, h: nat, cols: nat): Span -> seq<Range32> {
    (sp: Span) => if GoodSpan(ms, sp) && cols > 0
                  then RowEntries(h, sp.pass, Rows(ms, sp.lo, sp.end, cols, sp.pass)) else []
  }

  ghost function SpansEntries(ms: seq<Mark>, h: nat, cols: nat, sps: seq<Span>): seq<Range32> {
    FlatMap(SpanEntries(ms, h, cols), sps)
  }

  ghost function TextEntries(hk: Hunk, h: nat, cols: nat): seq<Range32> {
    if hk.text == [] then []
    else
      var ms := MarksOf(hk.text, hk.toks);
      SpansEntries(ms, h, cols, Walk(Kept(ms)))
  }

  ghost function TitleEntries(hk: Hunk, h: nat): seq<Range32> {
    if hk.uri != [] then [Range32(h, TITLE_LINE)] else []
  }

  ghost function HunkEntries(hk: Hunk, h: nat, cols: nat): seq<Range32> {
    TitleEntries(hk, h) + TextEntries(hk, h, cols)
  }

  ghost function AtLeastOne(cols: nat): nat {
    if cols == 0 then 1 else cols
  }

  /** The index of hunks from..to. */
  ghost function Index(hunks: seq<Hunk>, from: nat, to: nat, cols: nat): seq<Range32>
    requires from <= to <= |hunks|
  {
    if from == to then [] else Index(hunks, from, to - 1, cols) + HunkEntries(hunks[to - 1], to - 1, AtLeastOne(cols))
  }

  /** Indexing a first stretch of hunks and then the rest is indexing all of them. */
  lemma {:induction false} IndexSplits(hunks: seq<Hunk>, from: nat, mid: nat, to: nat, cols: nat)
    requires from <= mid <= to <= |hunks|
    ensures Index(hunks, from, to, cols) == Index(hunks, from, mid, cols) + Index(hunks, mid, to, cols)
  {
    hide HunkEntries;
    if mid == to {
      NilRight(Index(hunks, from, mid, cols));
    } else {
      IndexSplits(hunks, from, mid, to - 1, cols);
      Assoc(Index(hunks, from, mid, cols), Index(hunks, mid, to - 1, cols),
            HunkEntries(hunks[to - 1], to - 1, AtLeastOne(cols)));
    }
  }

  // ----- filling an array of limited size -----

  /** A list extended by another as far as there is room; a list already too long stays. */
  ghost function Filled(a: seq<Range32>, w: seq<Range32>, room: nat): seq<Range32> {
    if |a| >= room then a else if |a + w| <= room then a + w else (a + w)[..room]
  }

  lemma FilledTwice(a: seq<Range32>, w: seq<Range32>, v: seq<Range32>, room: nat)
    ensures Filled(Filled(a, w, room), v, room) == Filled(a, w + v, room)
  {
    Assoc(a, w, v);
  }

  lemma FilledNothing(a: seq<Range32>, room: nat)
    ensures Filled(a, [], room) == a
  {
    NilRight(a);
  }

  lemma FilledBounds(a: seq<Range32>, w: seq<Range32>, room: nat)
    ensures |a| <= |Filled(a, w, room)| && (|a| < room ==> |Filled(a, w, room)| <= room)
    ensures a == Filled(a, w, room)[..|a|]
  {
    AppendParts(a, w);
  }

  /** A smaller room gives a prefix of what a larger one gives. */
  lemma FilledIsPrefix(a: seq<Range32>, w: seq<Range32>, room: nat, more: nat)
    requires |a| <= room <= more
    ensures Filled(a, w, room) <= Filled(a, w, more)
  {
  }

  // ----- the sinks -----

  /** Receives the spans of a hunk: counts their rows, or writes them to the index. */
  class RowSink {
    const counting: bool
    const lines: array<Range32>
    const maxlines: nat
    const hk: Hunk
    const h: nat
    const cols: nat
    var li: nat

    /** The spans received so far, the entries before the first, and the rows reported. */
    ghost var spans: seq<Span>
    ghost const before: seq<Range32>
    ghost var reported: nat

    ghost function Entries(): seq<Range32>
      reads this`spans
    {
      SpansEntries(MarksOf(hk.text, hk.toks), h, cols, spans)
    }

    ghost predicate Valid()
      reads this, lines
    {
      && cols > 0 && maxlines <= lines.Length
      && (counting ==> reported == |Entries()|)
      && (!counting ==> li <= lines.Length && lines[..li] == Filled(before, Entries(), maxlines))
    }

    constructor (counting: bool, lines: array<Range32>, li: nat, maxlines: nat, hk: Hunk, h: nat, cols: nat)
      requires cols > 0 && maxlines <= lines.Length && li <= lines.Length
      ensures Valid() && spans == [] && this.li == li && this.lines == lines && before == lines[..li]
      ensures this.counting == counting && this.hk == hk && this.h == h && this.cols == cols
      ensures this.maxlines == maxlines
    {
      this.counting, this.lines, this.li, this.maxlines := counting, lines, li, maxlines;
      this.hk, this.h, this.cols := hk, h, cols;
      spans, before, reported := [], lines[..li], 0;
      new;
      FilledNothing(before, maxlines);
      assert Entries() == [];
    }

    /** One more span. */
    method Emit(lo: nat, end: nat, pass: Pass) returns (n: nat)
      requires Valid() && GoodSpan(MarksOf(hk.text, hk.toks), Span(lo, end, pass))
      modifies this, lines
      ensures Valid() && spans == old(spans) + [Span(lo, end, pass)]
      ensures counting ==> n == reported - old(reported) && reported >= old(reported)
    {
      ghost var ms, sp := MarksOf(hk.text, hk.toks), Span(lo, end, pass);
      hide MarksOf, SpansEntries;
      FlatAppendEntries(ms, h, cols, spans, sp);
      if counting {
        n := CountRows(hk.text, hk.toks, lo, end, cols, pass);
      } else {
        var was := li;
        ghost var rows := RowEntries(h, pass, Rows(ms, lo, end, cols, pass));
        FilledTwice(before, Entries(), rows, maxlines);
        li := AppendRows(lines, li, maxlines, hk, h, lo, end, cols, pass);
        n := li - was;
      }
      spans := spans + [sp];
      reported := reported + n;
    }
  }

  lemma FlatAppendEntries(ms: seq<Mark>, h: nat, cols: nat, sps: seq<Span>, sp: Span)
    requires GoodSpan(ms, sp) && cols > 0
    ensures SpansEntries(ms, h, cols, sps + [sp])
         == SpansEntries(ms, h, cols, sps) + RowEntries(h, sp.pass, Rows(ms, sp.lo, sp.end, cols, sp.pass))
  {
    FlatAppend(SpanEntries(ms, h, cols), sps, [sp]);
    FlatOne(SpanEntries(ms, h, cols), sp);
  }

  /** Write the rows of a span to the index, while there is room. */
  method AppendRows(lines: array<Range32>, start: nat, maxlines: nat, hk: Hunk, h: nat,
                    lo: nat, end: nat, cols: nat, pass: Pass) returns (li: nat)
    requires start <= lines.Length && maxlines <= lines.Length
    requires lo <= end <= |hk.text| && cols > 0 && NoVisibleNewline(MarksOf(hk.text, hk.toks), lo, end, pass)
    modifies lines
    ensures start <= li <= lines.Length
    ensures lines[..li] == Filled(old(lines[..start]),
                                  RowEntries(h, pass, Rows(MarksOf(hk.text, hk.toks), lo, end, cols, pass)), maxlines)
  {
    ghost var ms := MarksOf(hk.text, hk.toks);
    ghost var before, want := lines[..start], RowEntries(h, pass, Rows(ms, lo, end, cols, pass));
    hide MarksOf, NoVisibleNewline;
    var off := lo;
    li := start;
    ghost var done: seq<Range32> := [];
    FilledNothing(before, maxlines);
    NilLeft(want);
    while off <= end
      invariant lo <= off <= end && start <= li <= lines.Length
      invariant lines[..li] == Filled(before, done, maxlines)
      invariant NoVisibleNewline(ms, off, end, pass)
      invariant want == done + RowEntries(h, pass, Rows(ms, off, end, cols, pass))
      decreases end - off
    {
      ghost var row := Range32(h, LineMake(off, pass));
      RowsStep(ms, h, off, end, cols, pass);
      FilledTwice(before, done, [row], maxlines);
      StoreEntry(lines[..], li, row, maxlines);
      if li < maxlines {
        lines[li] := Range32(h, LineMake(off, pass));
        li := li + 1;
      }
      done := done + [row];
      var e := RowEndPass(hk.text, hk.toks, off, cols, pass);
      if e >= end {
        break;
      }
      Assoc(done[..|done| - 1], [row], RowEntries(h, pass, Rows(ms, e, end, cols, pass)));
      off := e;
    }
  }

  lemma StoreEntry(lines: seq<Range32>, li: nat, row: Range32, maxlines: nat)
    requires li <= |lines| && maxlines <= |lines|
    ensures li < maxlines ==> lines[li := row][..li + 1] == Filled(lines[..li], [row], maxlines)
    ensures li >= maxlines ==> lines[..li] == Filled(lines[..li], [row], maxlines)
  {
  }

  /** The first row of a span and the rows after it. */
  lemma RowsStep(ms: seq<Mark>, h: nat, off: nat, end: nat, cols: nat, pass: Pass)
    requires off <= end <= |ms| && cols > 0 && NoVisibleNewline(ms, off, end, pass)
    ensures var e, row := RowEnd(ms, off, cols, pass), Range32(h, LineMake(off, pass));
      && off <= e
      && (e < end ==> off < e && NoVisibleNewline(ms, e, end, pass)
                      && RowEntries(h, pass, Rows(ms, off, end, cols, pass))
                         == [row] + RowEntries(h, pass, Rows(ms, e, end, cols, pass)))
      && (e >= end ==> RowEntries(h, pass, Rows(ms, off, end, cols, pass)) == [row])
  {
    hide Rows, RowEnd, NoVisibleNewline, LineMake;
    RowsUnfold(ms, off, end, cols, pass);
    var e := RowEnd(ms, off, cols, pass);
    if e < end {
      EntriesCons(h, pass, off, Rows(ms, e, end, cols, pass));
    }
  }

  lemma EntriesCons(h: nat, pass: Pass, off: nat, rest: seq<nat>)
    ensures RowEntries(h, pass, [off] + rest) == [Range32(h, LineMake(off, pass))] + RowEntries(h, pass, rest)
  {
    hide LineMake;
  }

  // ----- walking a hunk -----

  /** Hand the spans of a hunk to the sink: plain segments as they stand, blocks pass by pass. */
  method WalkHunk(hk: Hunk, sink: RowSink) returns (total: nat)
    requires sink.Valid() && sink.hk == hk && sink.spans == []
    modifies sink, sink.lines
    ensures sink.Valid() && sink.spans == Walk(Kept(MarksOf(hk.text, hk.toks)))
    ensures sink.counting ==> total == sink.reported - old(sink.reported) && sink.reported >= old(sink.reported)
  {
    ghost var ms := MarksOf(hk.text, hk.toks);
    var info := new LineInfo[LINEINFO_CAP];
    var nl := ClassifyLines(hk.text, hk.toks, info);
    var segs := info[..nl];
    KeptSegmented(ms);
    WalkEnds(segs);
    hide *;
    NilLeft(WalkFrom(segs, 0));
    total := 0;
    var i := 0;
    while i < nl
      invariant i <= nl && sink.Valid()
      invariant sink.spans + WalkFrom(segs, i) == Walk(segs)
      invariant sink.counting ==> total == sink.reported - old(sink.reported) && sink.reported >= old(sink.reported)
    {
      WalkUnfold(segs, i);
      if Plain(segs[i]) {
        PlainSpanGood(ms, segs, i);
        Assoc(sink.spans, [Span(segs[i].lo, segs[i].hi, NormalPass)], WalkFrom(segs, i + 1));
        var n := sink.Emit(segs[i].lo, segs[i].hi, NormalPass);
        total := total + n;
        i := i + 1;
      } else {
        var j := FindBlockEnd(segs, i);
        ghost var a, b := GroupUpTo(RmPass, segs, i, j).spans, GroupUpTo(InPass, segs, i, j).spans;
        Assoc(sink.spans, a, b);
        Assoc(sink.spans, a + b, WalkFrom(segs, j));
        var r := WalkPass(hk, sink, segs, RmPass, i, j);
        var n := WalkPass(hk, sink, segs, InPass, i, j);
        total := total + r + n;
        i := j;
      }
    }
    NilRight(sink.spans);
  }

  lemma WalkEnds(segs: seq<LineInfo>)
    ensures Walk(segs) == WalkFrom(segs, 0) && WalkFrom(segs, |segs|) == []
  {
  }

  lemma PlainSpanGood(ms: seq<Mark>, segs: seq<LineInfo>, i: nat)
    requires Segmented(ms, segs) && i < |segs| && Plain(segs[i])
    ensures GoodSpan(ms, Span(segs[i].lo, segs[i].hi, NormalPass))
  {
    SegmentAt(ms, segs, i);
  }

  method FindBlockEnd(segs: seq<LineInfo>, i: nat) returns (j: nat)
    requires i < |segs| && !Plain(segs[i])
    ensures i < j <= |segs| && j == BlockEnd(segs, i + 1)
  {
    j := i;
    while j < |segs| && !Plain(segs[j])
      invariant i <= j <= |segs|
      invariant BlockEnd(segs, i) == BlockEnd(segs, j)
    {
      j := j + 1;
    }
  }

  /** The rows of one pass over a block. */
  method WalkPass(hk: Hunk, sink: RowSink, segs: seq<LineInfo>, pass: Pass, i: nat, j: nat) returns (total: nat)
    requires sink.Valid() && sink.hk == hk && i < j <= |segs| && pass != NormalPass
    requires Segmented(MarksOf(hk.text, hk.toks), segs)
    modifies sink, sink.lines
    ensures sink.Valid() && sink.spans == old(sink.spans) + GroupUpTo(pass, segs, i, j).spans
    ensures sink.counting ==> total == sink.reported - old(sink.reported) && sink.reported >= old(sink.reported)
  {
    ghost var ms := MarksOf(hk.text, hk.toks);
    hide MarksOf, Segmented, GoodSpan, GoodSpans, NoVisibleNewline, GroupUpTo, BlockEnd, RowSink.Valid, RowSink.Entries;
    GroupStarts(pass, segs, i);
    total := 0;
    var rowStart: nat, pendIn: nat, pendRm: nat, pendEq: nat := segs[i].lo, 0, 0, 0;
    NilRight(sink.spans);
    for m := i to j
      invariant sink.Valid()
      invariant GroupUpTo(pass, segs, i, m)
             == Group(GroupUpTo(pass, segs, i, m).spans, rowStart, pendIn, pendRm, pendEq)
      invariant sink.spans == old(sink.spans) + GroupUpTo(pass, segs, i, m).spans
      invariant sink.counting ==> total == sink.reported - old(sink.reported) && sink.reported >= old(sink.reported)
    {
      ghost var g := GroupUpTo(pass, segs, i, m);
      GroupUnfold(pass, segs, i, m + 1);
      GroupAllGood(ms, segs, pass, i, m + 1);
      NilRight(g.spans);
      pendIn := pendIn + segs[m].inB;
      pendRm := pendRm + segs[m].rmB;
      pendEq := pendEq + segs[m].eqB;
      if SeesNewline(pass, segs[m].bndSide) {
        if pendEq > 0 || (if pass == RmPass then pendRm > 0 else pendIn > 0) {
          ghost var sp := Span(rowStart, segs[m].hi, pass);
          LastGood(ms, g.spans, sp);
          Assoc(old(sink.spans), g.spans, [sp]);
          var n := sink.Emit(rowStart, segs[m].hi, pass);
          total := total + n;
        }
        rowStart := segs[m].hi + 1;
        pendIn, pendRm, pendEq := 0, 0, 0;
      }
    }
  }

  lemma GroupStarts(pass: Pass, segs: seq<LineInfo>, i: nat)
    requires i < |segs|
    ensures GroupUpTo(pass, segs, i, i) == Group([], segs[i].lo, 0, 0, 0)
  {
  }

  lemma GroupAllGood(ms: seq<Mark>, segs: seq<LineInfo>, pass: Pass, i: nat, m: nat)
    requires Segmented(ms, segs) && i <= m <= |segs| && i < |segs| && pass != NormalPass
    ensures GoodSpans(ms, GroupUpTo(pass, segs, i, m).spans)
  {
    GroupGood(ms, segs, pass, i, m);
  }

  lemma LastGood(ms: seq<Mark>, sps: seq<Span>, sp: Span)
    requires GoodSpans(ms, sps + [sp])
    ensures GoodSpan(ms, sp)
  {
    assert (sps + [sp])[|sps|] == sp;
  }

  // ----- counting and appending -----

  method CountLines(hunks: seq<Hunk>, nhunks: nat, cols0: nat) returns (total: nat)
    requires nhunks <= |hunks|
    ensures total == |Index(hunks, 0, nhunks, cols0)|
  {
    hide TextEntries;
    var cols := if cols0 == 0 then 1 else cols0;
    total := 0;
    for h := 0 to nhunks
      invariant total == |Index(hunks, 0, h, cols0)|
    {
      TextlessHunk(hunks[h], h, cols);
      if hunks[h].uri != [] {
        total := total + 1;
      }
      if hunks[h].text != [] {
        var n := CountHunk(hunks[h], h, cols);
        total := total + n;
      }
    }
  }

  lemma TextlessHunk(hk: Hunk, h: nat, cols: nat)
    ensures hk.text == [] ==> TextEntries(hk, h, cols) == []
  {
  }

  method CountHunk(hk: Hunk, h: nat, cols: nat) returns (n: nat)
    requires cols > 0
    ensures n == |TextEntries(hk, h, cols)|
  {
    if hk.text == [] {
      return 0;
    }
    var none := new Range32[0];
    var sink := new RowSink(true, none, 0, 0, hk, h, cols);
    assert sink.Entries() == [] && sink.reported == 0;
    n := WalkHunk(hk, sink);
  }

  /** Write the index of hunks from..nhunks behind the first nlines entries, as far as there is room. */
  method AppendLines(lines: array<Range32>, nlines: nat, maxlines: nat,
                     hunks: seq<Hunk>, from: nat, nhunks: nat, cols0: nat) returns (li: nat)
    requires nlines <= lines.Length && maxlines <= lines.Length && from <= nhunks <= |hunks|
    modifies lines
    ensures nlines <= li <= lines.Length
    ensures lines[..li] == Filled(old(lines[..nlines]), Index(hunks, from, nhunks, cols0), maxlines)
  {
    hide *;
    var cols := if cols0 == 0 then 1 else cols0;
    ghost var before := lines[..nlines];
    li := nlines;
    FilledNothing(before, maxlines);
    IndexStarts(hunks, from, cols0);
    for h := from to nhunks
      invariant nlines <= li <= lines.Length
      invariant lines[..li] == Filled(before, Index(hunks, from, h, cols0), maxlines)
    {
      IndexStep(before, hunks, from, h, cols0, maxlines);
      li := AppendHunk(lines, li, maxlines, hunks[h], h, cols);
    }
  }

  lemma IndexStarts(hunks: seq<Hunk>, from: nat, cols: nat)
    requires from <= |hunks|
    ensures Index(hunks, from, from, cols) == []
  {
  }

  lemma IndexStep(before: seq<Range32>, hunks: seq<Hunk>, from: nat, h: nat, cols0: nat, room: nat)
    requires from <= h < |hunks|
    ensures var cols := if cols0 == 0 then 1 else cols0;
      Filled(Filled(before, Index(hunks, from, h, cols0), room), HunkEntries(hunks[h], h, cols), room)
      == Filled(before, Index(hunks, from, h + 1, cols0), room)
  {
    hide Filled, HunkEntries;
    FilledTwice(before, Index(hunks, from, h, cols0), HunkEntries(hunks[h], h, if cols0 == 0 then 1 else cols0), room);
  }

  method AppendHunk(lines: array<Range32>, start: nat, maxlines: nat, hk: Hunk, h: nat, cols: nat) returns (li: nat)
    requires start <= lines.Length && maxlines <= lines.Length && cols > 0
    modifies lines
    ensures start <= li <= lines.Length
    ensures lines[..li] == Filled(old(lines[..start]), HunkEntries(hk, h, cols), maxlines)
  {
    hide Filled, TextEntries;
    FilledTwice(lines[..start], TitleEntries(hk, h), TextEntries(hk, h, cols), maxlines);
    li := AppendTitle(lines, start, maxlines, hk, h);
    li := AppendText(lines, li, maxlines, hk, h, cols);
  }

  method AppendTitle(lines: array<Range32>, start: nat, maxlines: nat, hk: Hunk, h: nat) returns (li: nat)
    requires start <= lines.Length && maxlines <= lines.Length
    modifies lines
    ensures start <= li <= lines.Length
    ensures lines[..li] == Filled(old(lines[..start]), TitleEntries(hk, h), maxlines)
  {
    hide Filled;
    li := start;
    StoreEntry(lines[..], li, Range32(h, TITLE_LINE), maxlines);
    FilledNothing(lines[..start], maxlines);
    if hk.uri != [] {
      if li < maxlines {
        lines[li] := Range32(h, TITLE_LINE);
        li := li + 1;
      }
    }
  }

  method AppendText(lines: array<Range32>, start: nat, maxlines: nat, hk: Hunk, h: nat, cols: nat) returns (li: nat)
    requires start <= lines.Length && maxlines <= lines.Length && cols > 0
    modifies lines
    ensures start <= li <= lines.Length
    ensures lines[..li] == Filled(old(lines[..start]), TextEntries(hk, h, cols), maxlines)
  {
    ghost var before := lines[..start];
    FilledNothing(before, maxlines);
    if hk.text == [] {
      return start;
    }
    var sink := new RowSink(false, lines, start, maxlines, hk, h, cols);
    var _ := WalkHunk(hk, sink);
    li := sink.li;
    FilledBounds(before, TextEntries(hk, h, cols), maxlines);
  }

  // ----- the main results on the index -----

  /** With room for as many entries as CountLines says, AppendLines writes the whole index and nothing else. */
  lemma CountedRoomSuffices(hunks: seq<Hunk>, nhunks: nat, cols: nat)
    requires nhunks <= |hunks|
    ensures var index := Index(hunks, 0, nhunks, cols);
      Filled([], index, |index|) == index
  {
    NilLeft(Index(hunks, 0, nhunks, cols));
  }

  /** Appending two stretches of hunks one after the other fills the array as one rebuild over both does. */
  lemma AppendingIsRebuilding(a: seq<Range32>, hunks: seq<Hunk>, from: nat, mid: nat, to: nat, cols: nat, room: nat)
    requires from <= mid <= to <= |hunks|
    ensures Filled(Filled(a, Index(hunks, from, mid, cols), room), Index(hunks, mid, to, cols), room)
         == Filled(a, Index(hunks, from, to, cols), room)
  {
    IndexSplits(hunks, from, mid, to, cols);
    FilledTwice(a, Index(hunks, from, mid, cols), Index(hunks, mid, to, cols), room);
  }
}
