/** What the wrapped rows on the screen show, and in which order they start (bro/BRO.c). */
module PagerScreen {
  import opened Seqs
  import opened Bytes
  import opened Tokens
  import opened PagerSegments
  import opened PagerRows

  // ----- wrapping loses and doubles nothing -----

  /** What the row that starts at off shows of the version of `pass`. */
  ghost function RowOnScreen(ms: seq<Mark>, cols: nat, rowPass: Pass, pass: Pass): nat -> seq<byte> {
    (off: nat) => if off <= |ms| then Shown(ms, off, RowEnd(ms, off, cols, rowPass), pass) else []
  }

  /** The rows of a span, when it is one of that pass or of the normal one. */
  ghost function SpanOnScreen(ms: seq<Mark>, cols: nat, pass: Pass): Span -> seq<byte> {
    (sp: Span) =>
      if (sp.pass == NormalPass || sp.pass == pass) && GoodSpan(ms, sp) && cols > 0
      then FlatMap(RowOnScreen(ms, cols, sp.pass, pass), Rows(ms, sp.lo, sp.end, cols, sp.pass))
      else []
  }

  ghost function OnScreen(ms: seq<Mark>, cols: nat, pass: Pass, sps: seq<Span>): seq<byte> {
    FlatMap(SpanOnScreen(ms, cols, pass), sps)
  }

  lemma {:induction false} RowsShowSpan(ms: seq<Mark>, sp: Span, cols: nat, pass: Pass)
    requires GoodSpan(ms, sp) && cols > 0 && NoCrossing(ms)
    ensures FlatMap(RowOnScreen(ms, cols, sp.pass, pass), Rows(ms, sp.lo, sp.end, cols, sp.pass))
         == Shown(ms, sp.lo, sp.end, pass)
    decreases sp.end - sp.lo
  {
    hide Rows, Shown, NoCrossing, RowEnd, FlatMap, NoVisibleNewline;
    var f, e := RowOnScreen(ms, cols, sp.pass, pass), RowEnd(ms, sp.lo, cols, sp.pass);
    RowsUnfold(ms, sp.lo, sp.end, cols, sp.pass);
    RowStaysInSpan(ms, sp.lo, sp.end, cols, sp.pass);
    FlatOne(f, sp.lo);
    if e < sp.end {
      RowsShowSpan(ms, Span(e, sp.end, sp.pass), cols, pass);
      FlatAppend(f, [sp.lo], Rows(ms, e, sp.end, cols, sp.pass));
      ShownSplits(ms, sp.lo, e, sp.end, pass);
    }
  }

  lemma {:induction false} ScreenShowsSpans(ms: seq<Mark>, cols: nat, pass: Pass, sps: seq<Span>, n: nat)
    requires GoodSpans(ms, sps) && cols > 0 && NoCrossing(ms) && n <= |sps|
    ensures FlatUpTo(SpanOnScreen(ms, cols, pass), sps, n) == FlatUpTo(ShowOf(ms, pass), sps, n)
  {
    hide Rows, Shown, NoCrossing, RowOnScreen;
    if n > 0 {
      ScreenShowsSpans(ms, cols, pass, sps, n - 1);
      RowsShowSpan(ms, sps[n - 1], cols, pass);
    }
  }

  /**
   * The wrapped rows of the old pass and of unchanged text, from top to bottom, show exactly the old version, and those
   * of the new pass the new one, if and only if no modified block has bytes of it behind the last newline the pass sees
   * and none lie beyond the segments kept.
   */
  lemma ScreenShowsVersion(ms: seq<Mark>, cols: nat, pass: Pass)
    requires cols > 0 && pass != NormalPass && NoCrossing(ms)
    ensures OnScreen(ms, cols, pass, Walk(Kept(ms))) == Flattened(Version(ms, pass))
       <==> Settled(ms, Kept(ms), pass, 0) && Beyond(ms, pass) == []
  {
    hide WalkFrom, Kept, NoCrossing, GoodSpans, ShowOf, SpanOnScreen, Settled, Beyond, Version;
    KeptSegmented(ms);
    WalkGood(ms, Kept(ms), 0);
    ScreenShowsSpans(ms, cols, pass, Walk(Kept(ms)), |Walk(Kept(ms))|);
    PagerShowsVersion(ms, pass);
  }

  // ----- where the rows start -----

  /** Starts that never go down. */
  ghost predicate Ascends(s: seq<nat>) {
    forall i, j :: 0 <= i < j < |s| ==> s[i] <= s[j]
  }

  ghost predicate Within(s: seq<nat>, lo: nat, hi: nat) {
    forall i :: 0 <= i < |s| ==> lo <= s[i] < hi
  }

  /** The last of a, if any, is not beyond the first of b, if any. */
  ghost predicate Joins(a: seq<nat>, b: seq<nat>) {
    a != [] && b != [] ==> a[|a| - 1] <= b[0]
  }

  lemma AscendsAppend(a: seq<nat>, b: seq<nat>)
    ensures Ascends(a + b) <==> Ascends(a) && Ascends(b) && Joins(a, b)
  {
    var c := a + b;
    assert forall i :: 0 <= i < |a| ==> c[i] == a[i];
    assert forall i :: 0 <= i < |b| ==> c[|a| + i] == b[i];
    if Ascends(a) && Ascends(b) && Joins(a, b) {
      forall i, j | 0 <= i < j < |c| ensures c[i] <= c[j] {
        if i < |a| <= j {
          assert a[i] <= a[|a| - 1] <= b[0] <= b[j - |a|];
        }
      }
    }
  }

  lemma WithinAppend(a: seq<nat>, b: seq<nat>, lo: nat, mid: nat, hi: nat)
    requires lo <= mid <= hi && Within(a, lo, mid) && Within(b, mid, hi)
    ensures Within(a + b, lo, hi) && Joins(a, b)
  {
  }

  lemma WithinWider(s: seq<nat>, lo: nat, hi: nat, lo': nat, hi': nat)
    requires Within(s, lo, hi) && lo' <= lo && hi <= hi'
    ensures Within(s, lo', hi')
  {
  }

  /** The starts of the rows of a span. */
  ghost function SpanStarts(ms: seq<Mark>, cols: nat): Span -> seq<nat> {
    (sp: Span) => if GoodSpan(ms, sp) && cols > 0 then Rows(ms, sp.lo, sp.end, cols, sp.pass) else []
  }

  ghost function Starts(ms: seq<Mark>, cols: nat, sps: seq<Span>): seq<nat> {
    FlatMap(SpanStarts(ms, cols), sps)
  }

  lemma StartsAppend(ms: seq<Mark>, cols: nat, a: seq<Span>, b: seq<Span>)
    ensures Starts(ms, cols, a + b) == Starts(ms, cols, a) + Starts(ms, cols, b)
  {
    FlatAppend(SpanStarts(ms, cols), a, b);
  }

  lemma StartsOfOne(ms: seq<Mark>, cols: nat, sp: Span)
    ensures Starts(ms, cols, [sp]) == SpanStarts(ms, cols)(sp)
    ensures Ascends(SpanStarts(ms, cols)(sp)) && Within(SpanStarts(ms, cols)(sp), sp.lo, sp.end + 1)
  {
    hide Rows, Ascends, Within;
    FlatOne(SpanStarts(ms, cols), sp);
    if GoodSpan(ms, sp) && cols > 0 {
      SpanRowsAscend(ms, sp, cols);
    } else {
      EmptyAscends(sp.lo, sp.end + 1);
    }
  }

  lemma EmptyAscends(lo: nat, hi: nat)
    ensures Ascends([]) && Within([], lo, hi)
  {
  }

  lemma SpanRowsAscend(ms: seq<Mark>, sp: Span, cols: nat)
    requires GoodSpan(ms, sp) && cols > 0
    ensures var rows := Rows(ms, sp.lo, sp.end, cols, sp.pass); Ascends(rows) && Within(rows, sp.lo, sp.end + 1)
  {
    hide Rows, RowEnd;
    var rows := Rows(ms, sp.lo, sp.end, cols, sp.pass);
    RowsTile(ms, sp.lo, sp.end, cols, sp.pass);
    hide NoVisibleNewline;
    assert forall k :: 0 < k < |rows| ==> rows[k - 1] < rows[k];
    RowsAscend(rows, |rows|);
  }

  lemma {:induction false} RowsAscend(s: seq<nat>, n: nat)
    requires n <= |s| && forall k :: 0 < k < |s| ==> s[k - 1] < s[k]
    ensures forall i, j :: 0 <= i < j < n ==> s[i] <= s[j]
  {
    if n > 1 {
      RowsAscend(s, n - 1);
      assert s[n - 2] < s[n - 1];
    }
  }

  /** The rows of one pass over a block start in order, before the row in progress. */
  lemma {:induction false} GroupAscends(ms: seq<Mark>, segs: seq<LineInfo>, cols: nat, pass: Pass, i: nat, m: nat)
    requires Segmented(ms, segs) && i <= m <= |segs| && i < |segs| && pass != NormalPass
    ensures var g := GroupUpTo(pass, segs, i, m);
      Ascends(Starts(ms, cols, g.spans)) && Within(Starts(ms, cols, g.spans), segs[i].lo, g.rowStart)
    decreases m
  {
    hide Segmented, GroupUpTo, Starts, SpanStarts, Ascends, Within, Shows;
    if i == m {
      NoStarts(ms, cols, pass, segs, i);
    } else {
      var g, s := GroupUpTo(pass, segs, i, m - 1), segs[m - 1];
      GroupAscends(ms, segs, cols, pass, i, m - 1);
      GroupUnfold(pass, segs, i, m);
      GroupRowStart(ms, segs, pass, i, m - 1);
      SegmentAt(ms, segs, m - 1);
      var sp := Span(g.rowStart, s.hi, pass);
      var a, b := Starts(ms, cols, g.spans), SpanStarts(ms, cols)(sp);
      StartsOfOne(ms, cols, sp);
      StartsAppend(ms, cols, g.spans, [sp]);
      AscendsAppend(a, b);
      NilRight(g.spans);
      WithinAppend(a, b, segs[i].lo, g.rowStart, s.hi + 1);
      WithinWider(a, segs[i].lo, g.rowStart, segs[i].lo, s.hi + 1);
    }
  }

  lemma NoStarts(ms: seq<Mark>, cols: nat, pass: Pass, segs: seq<LineInfo>, i: nat)
    requires i < |segs|
    ensures var s := Starts(ms, cols, GroupUpTo(pass, segs, i, i).spans);
      Ascends(s) && Within(s, segs[i].lo, GroupUpTo(pass, segs, i, i).rowStart)
    ensures Starts(ms, cols, []) == []
  {
  }

  /** In every block from segment i on, no new row starts before the last old one. */
  ghost predicate BlocksAscend(ms: seq<Mark>, cols: nat, segs: seq<LineInfo>, i: nat)
    requires i <= |segs|
    decreases |segs| - i
  {
    if i == |segs| then true
    else if Plain(segs[i]) then BlocksAscend(ms, cols, segs, i + 1)
    else
      var j := BlockEnd(segs, i + 1);
      && Joins(Starts(ms, cols, GroupUpTo(RmPass, segs, i, j).spans),
               Starts(ms, cols, GroupUpTo(InPass, segs, i, j).spans))
      && BlocksAscend(ms, cols, segs, j)
  }

  /** The rows of a hunk start in order exactly when no block's new rows start before its last old one. */
  lemma {:induction false} WalkAscends(ms: seq<Mark>, cols: nat, segs: seq<LineInfo>, i: nat)
    requires Segmented(ms, segs) && i <= |segs|
    ensures var s := Starts(ms, cols, WalkFrom(segs, i));
      && (Ascends(s) <==> BlocksAscend(ms, cols, segs, i))
      && Within(s, SegStart(segs, i), SegStart(segs, |segs|) + 1)
      && SegStart(segs, i) <= SegStart(segs, |segs|)
    decreases |segs| - i
  {
    if i == |segs| {
      assert Starts(ms, cols, []) == [];
    } else {
      hide Segmented, GroupUpTo, Starts, SpanStarts, Ascends, Within, WalkFrom, Joins;
      WalkUnfold(segs, i);
      SegmentAt(ms, segs, i);
      if Plain(segs[i]) {
        PlainAscends(ms, cols, segs, i);
      } else {
        BlockAscends(ms, cols, segs, i);
      }
    }
  }

  lemma {:induction false} PlainAscends(ms: seq<Mark>, cols: nat, segs: seq<LineInfo>, i: nat)
    requires Segmented(ms, segs) && i < |segs| && Plain(segs[i])
    ensures var s := Starts(ms, cols, WalkFrom(segs, i));
      && (Ascends(s) <==> BlocksAscend(ms, cols, segs, i))
      && Within(s, SegStart(segs, i), SegStart(segs, |segs|) + 1)
      && SegStart(segs, i) <= SegStart(segs, |segs|)
    decreases |segs| - i, 0
  {
    hide Segmented, GroupUpTo, Starts, SpanStarts, Ascends, Within, WalkFrom, Joins, Classify;
    WalkUnfold(segs, i);
    SegmentAt(ms, segs, i);
    WalkAscends(ms, cols, segs, i + 1);
    var sp := Span(segs[i].lo, segs[i].hi, NormalPass);
    var a, b := SpanStarts(ms, cols)(sp), Starts(ms, cols, WalkFrom(segs, i + 1));
    StartsOfOne(ms, cols, sp);
    StartsAppend(ms, cols, [sp], WalkFrom(segs, i + 1));
    AscendsAppend(a, b);
    WithinAppend(a, b, SegStart(segs, i), SegStart(segs, i + 1), SegStart(segs, |segs|) + 1);
  }

  lemma {:induction false} BlockAscends(ms: seq<Mark>, cols: nat, segs: seq<LineInfo>, i: nat)
    requires Segmented(ms, segs) && i < |segs| && !Plain(segs[i])
    ensures var s := Starts(ms, cols, WalkFrom(segs, i));
      && (Ascends(s) <==> BlocksAscend(ms, cols, segs, i))
      && Within(s, SegStart(segs, i), SegStart(segs, |segs|) + 1)
      && SegStart(segs, i) <= SegStart(segs, |segs|)
    decreases |segs| - i, 0
  {
    hide Segmented, GroupUpTo, Starts, SpanStarts, Ascends, Within, WalkFrom, Joins, Plain;
    WalkUnfold(segs, i);
    SegmentAt(ms, segs, i);
    var j := BlockEnd(segs, i + 1);
    WalkAscends(ms, cols, segs, j);
    var r, n := GroupUpTo(RmPass, segs, i, j), GroupUpTo(InPass, segs, i, j);
    var a, b, c := Starts(ms, cols, r.spans), Starts(ms, cols, n.spans), Starts(ms, cols, WalkFrom(segs, j));
    GroupAscends(ms, segs, cols, RmPass, i, j);
    GroupAscends(ms, segs, cols, InPass, i, j);
    GroupRowStart(ms, segs, RmPass, i, j);
    GroupRowStart(ms, segs, InPass, i, j);
    StartsAppend(ms, cols, r.spans, n.spans);
    StartsAppend(ms, cols, r.spans + n.spans, WalkFrom(segs, j));
    AscendsAppend(a, b);
    AscendsAppend(a + b, c);
    var mid := SegStart(segs, j);
    WithinWider(a, segs[i].lo, r.rowStart, segs[i].lo, mid);
    WithinWider(b, segs[i].lo, n.rowStart, segs[i].lo, mid);
    BothWithin(a, b, segs[i].lo, mid);
    WithinAppend(a + b, c, segs[i].lo, mid, SegStart(segs, |segs|) + 1);
  }

  lemma BothWithin(a: seq<nat>, b: seq<nat>, lo: nat, hi: nat)
    requires Within(a, lo, hi) && Within(b, lo, hi)
    ensures Within(a + b, lo, hi)
  {
  }
}
