/** When the row found for an offset is the one its comment promises (bro/BRO.c). */
module PagerOrder {
  import opened Seqs
  import opened Bytes
  import opened Tokens
  import opened PagerSegments
  import opened PagerRows
  import opened PagerScreen
  import opened PagerIndex
  import opened PagerNav

  /** Entries of hunk h whose offsets are these starts. */
  ghost predicate Lists(rows: seq<Range32>, h: nat, starts: seq<nat>) {
    && |rows| == |starts|
    && forall k :: 0 <= k < |rows| ==> rows[k].lo == h && rows[k].hi != TITLE_LINE && LineOff(rows[k].hi) == starts[k]
  }

  lemma ListsAppend(a: seq<Range32>, b: seq<Range32>, h: nat, s: seq<nat>, t: seq<nat>)
    requires Lists(a, h, s) && Lists(b, h, t)
    ensures Lists(a + b, h, s + t)
  {
  }

  lemma SpanLists(ms: seq<Mark>, h: nat, cols: nat, sp: Span)
    requires |ms| < OFFSETS
    ensures Lists(SpanEntries(ms, h, cols)(sp), h, SpanStarts(ms, cols)(sp))
  {
    hide Rows;
    if GoodSpan(ms, sp) && cols > 0 {
      var rows := Rows(ms, sp.lo, sp.end, cols, sp.pass);
      RowsTile(ms, sp.lo, sp.end, cols, sp.pass);
      forall k | 0 <= k < |rows|
        ensures LineOff(LineMake(rows[k], sp.pass)) == rows[k] && LineMake(rows[k], sp.pass) != TITLE_LINE
      {
        PackingIsExact(rows[k], sp.pass);
      }
    }
  }

  lemma {:induction false} SpansList(ms: seq<Mark>, h: nat, cols: nat, sps: seq<Span>, n: nat)
    requires |ms| < OFFSETS && n <= |sps|
    ensures Lists(FlatUpTo(SpanEntries(ms, h, cols), sps, n), h, FlatUpTo(SpanStarts(ms, cols), sps, n))
  {
    hide SpanEntries, SpanStarts, Lists;
    if n > 0 {
      SpansList(ms, h, cols, sps, n - 1);
      SpanLists(ms, h, cols, sps[n - 1]);
      ListsAppend(FlatUpTo(SpanEntries(ms, h, cols), sps, n - 1), SpanEntries(ms, h, cols)(sps[n - 1]), h,
                  FlatUpTo(SpanStarts(ms, cols), sps, n - 1), SpanStarts(ms, cols)(sps[n - 1]));
    } else {
      assert Lists([], h, []) by { NothingListed(h); }
    }
  }

  lemma NothingListed(h: nat)
    ensures Lists([], h, [])
  {
  }

  /** The starts of the rows of a hunk's text, in the order of the index. */
  ghost function TextStarts(hk: Hunk, cols: nat): seq<nat> {
    if hk.text == [] then [] else Starts(MarksOf(hk.text, hk.toks), cols, Walk(Kept(MarksOf(hk.text, hk.toks))))
  }

  lemma TextLists(hk: Hunk, h: nat, cols: nat)
    requires |hk.text| < OFFSETS
    ensures Lists(TextEntries(hk, h, cols), h, TextStarts(hk, cols))
  {
    hide Lists, Walk, Kept, SpanEntries, SpanStarts;
    NothingListed(h);
    if hk.text != [] {
      var ms := MarksOf(hk.text, hk.toks);
      SpansList(ms, h, cols, Walk(Kept(ms)), |Walk(Kept(ms))|);
    }
  }

  // ----- the rows of one hunk in the index -----

  /** No row of hunk h among these entries. */
  ghost predicate NoneOf(rows: seq<Range32>, h: nat) {
    forall i :: 0 <= i < |rows| ==> rows[i].lo != h || rows[i].hi == TITLE_LINE
  }

  lemma HunkInIndex(hunks: seq<Hunk>, from: nat, h: nat, to: nat, cols: nat) returns (a: seq<Range32>, b: seq<Range32>)
    requires from <= h < to <= |hunks|
    ensures Index(hunks, from, to, cols) == a + TextEntries(hunks[h], h, AtLeastOne(cols)) + b
    ensures NoneOf(a, h) && NoneOf(b, h)
  {
    hide Index, TextEntries, TitleEntries;
    var title, text := TitleEntries(hunks[h], h), TextEntries(hunks[h], h, AtLeastOne(cols));
    a, b := Index(hunks, from, h, cols) + title, Index(hunks, h + 1, to, cols);
    IndexSplits(hunks, from, h, to, cols);
    IndexSplits(hunks, h, h + 1, to, cols);
    IndexUnfolds(hunks, h, h + 1, cols);
    IndexUnfolds(hunks, h, h, cols);
    NilLeft(title + text);
    Assoc(Index(hunks, from, h, cols), title + text, b);
    Assoc(Index(hunks, from, h, cols), title, text);
    IndexIsOrdered(hunks, from, h, cols);
    IndexIsOrdered(hunks, h + 1, to, cols);
    TitleIsNone(hunks[h], h);
  }

  lemma TitleIsNone(hk: Hunk, h: nat)
    ensures NoneOf(TitleEntries(hk, h), h)
  {
  }

  /** Rows with these starts are parted at every offset exactly when the starts ascend. */
  lemma PartedIffAscending(a: seq<Range32>, rows: seq<Range32>, b: seq<Range32>, h: nat, starts: seq<nat>)
    requires NoneOf(a, h) && NoneOf(b, h) && Lists(rows, h, starts)
    ensures (forall off :: Parted(a + rows + b, h, off)) <==> Ascends(starts)
  {
    var all := a + rows + b;
    assert forall i :: RowOf(all, h, i) <==> |a| <= i < |a| + |rows| by {
      assert forall i :: 0 <= i < |a| ==> all[i] == a[i];
      assert forall i :: |a| <= i < |a| + |rows| ==> all[i] == rows[i - |a|];
      assert forall i :: |a| + |rows| <= i < |all| ==> all[i] == b[i - |a| - |rows|];
    }
    assert forall i :: |a| <= i < |a| + |rows| ==> LineOff(all[i].hi) == starts[i - |a|];
    if forall off :: Parted(all, h, off) {
      forall i, j | 0 <= i < j < |starts| ensures starts[i] <= starts[j] {
        assert Parted(all, h, starts[j]);
        assert RowOf(all, h, |a| + i) && RowOf(all, h, |a| + j);
      }
    }
  }

  // ----- the comment's promise -----

  /** At every offset the row found is the last one of the hunk that starts at or before it. */
  ghost predicate PromiseKept(rows: seq<Range32>, h: nat) {
    forall off, r :: LineForOffIs(rows, h, off, r) ==> LastRowBefore(rows, h, off, r)
  }

  lemma {:induction false} SomeLine(rows: seq<Range32>, h: nat, off: nat, n: nat) returns (r: nat)
    requires n <= |rows| <= NONE
    ensures r == NONE ==> forall i :: i < n ==> !Reaches(rows, h, off, i)
    ensures r != NONE ==> r < n && Reaches(rows, h, off, r) && forall i :: r < i < n ==> !Reaches(rows, h, off, i)
  {
    hide Reaches;
    if n == 0 {
      r := NONE;
      NothingBelow(rows, h, off);
    } else if Reaches(rows, h, off, n - 1) {
      r := n - 1;
    } else {
      r := SomeLine(rows, h, off, n - 1);
    }
  }

  lemma NothingBelow(rows: seq<Range32>, h: nat, off: nat)
    ensures forall i :: i < 0 || i >= |rows| ==> !Reaches(rows, h, off, i)
  {
  }

  lemma LineExists(rows: seq<Range32>, h: nat, off: nat) returns (r: nat)
    requires Ordered(rows)
    ensures LineForOffIs(rows, h, off, r)
  {
    r := SomeLine(rows, h, off, |rows|);
    NothingBelow(rows, h, off);
  }

  lemma PromiseKeptIffParted(rows: seq<Range32>, h: nat)
    requires Ordered(rows)
    ensures PromiseKept(rows, h) <==> forall off :: Parted(rows, h, off)
  {
    hide Ordered, Parted, LastRowBefore, LineForOffIs;
    if forall off :: Parted(rows, h, off) {
      forall off, r | LineForOffIs(rows, h, off, r) ensures LastRowBefore(rows, h, off, r) {
        PromisedRowIffParted(rows, h, off, r);
      }
    }
    if PromiseKept(rows, h) {
      forall off ensures Parted(rows, h, off) {
        var r := LineExists(rows, h, off);
        PromisedRowIffParted(rows, h, off, r);
      }
    }
  }

  /**
   * In a built index the promise is kept at every offset of a hunk exactly when in no modified block a new row starts
   * before the last old one.
   */
  lemma PromiseKeptIffBlocksAscend(hunks: seq<Hunk>, from: nat, h: nat, to: nat, cols: nat)
    requires from <= h < to <= |hunks| && |hunks[h].text| < OFFSETS && |Index(hunks, from, to, cols)| <= NONE
    ensures var ms := MarksOf(hunks[h].text, hunks[h].toks);
      PromiseKept(Index(hunks, from, to, cols), h)
      <==> hunks[h].text == [] || BlocksAscend(ms, AtLeastOne(cols), Kept(ms), 0)
  {
    hide Index, TextEntries, Ordered, Parted, Lists, NoneOf, PromiseKept, BlocksAscend, Kept, Starts, MarksOf;
    var hk, c := hunks[h], AtLeastOne(cols);
    var a, b := HunkInIndex(hunks, from, h, to, cols);
    IndexIsOrdered(hunks, from, to, cols);
    TextLists(hk, h, c);
    PartedIffAscending(a, TextEntries(hk, h, c), b, h, TextStarts(hk, c));
    PromiseKeptIffParted(Index(hunks, from, to, cols), h);
    var ms := MarksOf(hk.text, hk.toks);
    KeptSegmented(ms);
    hide Segmented;
    WalkAscends(ms, c, Kept(ms), 0);
  }

  // ----- where it is broken -----

  /** `ab` and `cd` with the `a` and the `c` removed. */
  ghost function TwoEdits(): Hunk {
    Hunk([], [97, 98, 10, 99, 100, 10], [Token('S', RM, 1), Token('S', EQ, 3), Token('S', RM, 4), Token('S', EQ, 6)])
  }

  ghost function TwoEditsMarks(): seq<Mark> {
    [Mark(97, RM), Mark(98, EQ), Mark(10, EQ), Mark(99, RM), Mark(100, EQ), Mark(10, EQ)]
  }

  ghost function TwoEditsSegments(): seq<LineInfo> {
    [LineInfo(0, 2, 0, 1, 1, EQ), LineInfo(3, 5, 0, 1, 1, EQ)]
  }

  ghost function TwoEditsSpans(): seq<Span> {
    [Span(0, 2, RmPass), Span(3, 5, RmPass)] + [Span(0, 2, InPass), Span(3, 5, InPass)]
  }

  lemma TwoEditsRead()
    ensures MarksOf(TwoEdits().text, TwoEdits().toks) == TwoEditsMarks()
  {
    var toks := TwoEdits().toks;
    SideAtIs(toks, 0, 0);
    SideAtIs(toks, 1, 1);
    SideAtIs(toks, 2, 1);
    SideAtIs(toks, 3, 2);
    SideAtIs(toks, 4, 3);
    SideAtIs(toks, 5, 3);
    hide SideAt;
  }

  lemma TwoEditsScanned()
    ensures Kept(TwoEditsMarks()) == TwoEditsSegments()
  {
    var ms, first := TwoEditsMarks(), [LineInfo(0, 2, 0, 1, 1, EQ)];
    assert ScanUpTo(ms, 1) == Scan([], 0, 0, 1, 0);
    assert ScanUpTo(ms, 2) == Scan([], 0, 0, 1, 1);
    assert ScanUpTo(ms, 3) == Scan(first, 3, 0, 0, 0);
    assert ScanUpTo(ms, 4) == Scan(first, 3, 0, 1, 0);
    assert ScanUpTo(ms, 5) == Scan(first, 3, 0, 1, 1);
    assert ScanUpTo(ms, 6) == Scan(TwoEditsSegments(), 6, 0, 0, 0);
  }

  lemma TwoEditsWalked()
    ensures Walk(TwoEditsSegments()) == TwoEditsSpans()
  {
    var segs := TwoEditsSegments();
    assert BlockEnd(segs, 1) == BlockEnd(segs, 2) == 2;
    TwoEditsGrouped(RmPass);
    TwoEditsGrouped(InPass);
    NilRight(TwoEditsSpans());
  }

  lemma TwoEditsGrouped(pass: Pass)
    requires pass != NormalPass
    ensures GroupUpTo(pass, TwoEditsSegments(), 0, 2).spans == [Span(0, 2, pass), Span(3, 5, pass)]
  {
    var segs := TwoEditsSegments();
    assert GroupUpTo(pass, segs, 0, 0) == Group([], 0, 0, 0, 0);
    assert GroupUpTo(pass, segs, 0, 1) == Group([Span(0, 2, pass)], 3, 0, 0, 0);
    assert [Span(0, 2, pass)] + [Span(3, 5, pass)] == [Span(0, 2, pass), Span(3, 5, pass)];
  }

  lemma TwoEditsRow(lo: nat, pass: Pass, cols: nat)
    requires (lo == 0 || lo == 3) && cols >= 2
    ensures GoodSpan(TwoEditsMarks(), Span(lo, lo + 2, pass))
    ensures Rows(TwoEditsMarks(), lo, lo + 2, cols, pass) == [lo]
  {
    TwoEditsLine(lo, pass);
    hide GoodSpan, TwoEditsMarks;
    TwoEditsRowEnd(lo, pass, cols);
    RowsUnfold(TwoEditsMarks(), lo, lo + 2, cols, pass);
  }

  lemma TwoEditsLine(lo: nat, pass: Pass)
    requires lo == 0 || lo == 3
    ensures |TwoEditsMarks()| == 6 && GoodSpan(TwoEditsMarks(), Span(lo, lo + 2, pass))
    ensures NoVisibleNewline(TwoEditsMarks(), lo, lo + 2, pass)
  {
  }

  /** A visible row goes on over one ASCII character. */
  lemma AsciiRowEnd(ms: seq<Mark>, off: nat, room: nat, pass: Pass)
    requires off < |ms| && room > 0 && ms[off].b < 128 && ms[off].b != NEWLINE
    ensures RowEnd(ms, off, room, pass)
         == RowEnd(ms, off + 1, if Hidden(pass, ms[off].side) then room else room - 1, pass)
  {
  }

  lemma TwoEditsRowEnd(lo: nat, pass: Pass, cols: nat)
    requires (lo == 0 || lo == 3) && cols >= 2
    ensures |TwoEditsMarks()| == 6 && RowEnd(TwoEditsMarks(), lo, cols, pass) >= lo + 2
  {
    hide RowEnd, Hidden;
    var ms := TwoEditsMarks();
    var room := if Hidden(pass, ms[lo].side) then cols else cols - 1;
    AsciiRowEnd(ms, lo, cols, pass);
    AsciiRowEnd(ms, lo + 1, room, pass);
  }

  lemma TwoEditsStarts(cols: nat)
    requires cols >= 2
    ensures TextStarts(TwoEdits(), cols) == [0, 3, 0, 3]
  {
    hide Walk, Kept, MarksOf, Rows, GoodSpan, TwoEditsMarks, TwoEditsSegments;
    var ms := TwoEditsMarks();
    TwoEditsRead();
    TwoEditsScanned();
    TwoEditsWalked();
    TwoRows(RmPass, cols);
    TwoRows(InPass, cols);
    StartsAppend(ms, cols, [Span(0, 2, RmPass), Span(3, 5, RmPass)], [Span(0, 2, InPass), Span(3, 5, InPass)]);
  }

  lemma TwoRows(pass: Pass, cols: nat)
    requires cols >= 2
    ensures Starts(TwoEditsMarks(), cols, [Span(0, 2, pass), Span(3, 5, pass)]) == [0, 3]
  {
    hide Rows, GoodSpan, TwoEditsMarks, Starts;
    var ms, a, b := TwoEditsMarks(), Span(0, 2, pass), Span(3, 5, pass);
    TwoEditsRow(0, pass, cols);
    TwoEditsRow(3, pass, cols);
    StartsOfOne(ms, cols, a);
    StartsOfOne(ms, cols, b);
    StartsAppend(ms, cols, [a], [b]);
    assert [a] + [b] == [a, b];
  }

  /** The comment on the lookup does not hold: at offset 0 of this hunk it finds row 0, and row 2 is the last one. */
  lemma PromisedRowCanDiffer(cols: nat)
    requires cols >= 2
    ensures var rows := Index([TwoEdits()], 0, 1, cols);
      LineForOffIs(rows, 0, 0, 0) && LastRowBefore(rows, 0, 0, 2)
  {
    var hks := [TwoEdits()];
    assert |hks[0].text| < OFFSETS && hks[0].uri == [];
    hide Index, TextEntries, TextStarts, Lists, LineForOffIs, LastRowBefore, TwoEdits;
    TextLists(hks[0], 0, cols);
    TwoEditsStarts(cols);
    IndexUnfolds(hks, 0, 1, cols);
    IndexUnfolds(hks, 0, 0, cols);
    var text := TextEntries(hks[0], 0, cols);
    NilLeft(text);
    FourRows(text);
  }

  lemma FourRows(rows: seq<Range32>)
    requires Lists(rows, 0, [0, 3, 0, 3])
    ensures LineForOffIs(rows, 0, 0, 0) && LastRowBefore(rows, 0, 0, 2)
  {
    assert RowOf(rows, 0, 0) && RowOf(rows, 0, 1) && RowOf(rows, 0, 2);
    assert LineOff(rows[1].hi) == 3;
    assert Reaches(rows, 0, 0, 0);
  }
}
