/** Moving through the pager's line index by hunk and by change (bro/BRO.c). */
module PagerNav {
  import opened Seqs
  import opened Tokens
  import opened PagerIndex
  import opened PagerSegments
  import opened PagerRows

  const NONE: nat := 0xFFFF_FFFF

  /** An index whose entries are u32-numbered and ordered by hunk, as AppendLines builds it. */
  ghost predicate Ordered(rows: seq<Range32>) {
    |rows| <= NONE && forall i, j :: 0 <= i < j < |rows| ==> rows[i].lo <= rows[j].lo
  }

  // ----- the row of a byte offset -----

  ghost predicate RowOf(rows: seq<Range32>, h: nat, i: int) {
    0 <= i < |rows| && rows[i].lo == h && rows[i].hi != TITLE_LINE
  }

  /** Row i of the hunk starts at or before off, and so does every row of the hunk before it. */
  ghost predicate Reaches(rows: seq<Range32>, h: nat, off: nat, i: int) {
    RowOf(rows, h, i) && forall k :: 0 <= k <= i && RowOf(rows, h, k) ==> LineOff(rows[k].hi) <= off
  }

  /** What bro_line_for_off returns: the last row it reaches before the first one beyond off. */
  ghost predicate LineForOffIs(rows: seq<Range32>, h: nat, off: nat, r: nat) {
    if r == NONE then forall i :: !Reaches(rows, h, off, i)
    else Reaches(rows, h, off, r) && forall i :: Reaches(rows, h, off, i) ==> i <= r
  }

  method LineForOff(rows: seq<Range32>, h: nat, off: nat) returns (best: nat)
    requires Ordered(rows)
    ensures LineForOffIs(rows, h, off, best)
  {
    best := NONE;
    for i := 0 to |rows|
      invariant forall k :: 0 <= k < i && RowOf(rows, h, k) ==> LineOff(rows[k].hi) <= off
      invariant forall k :: 0 <= k < i ==> rows[k].lo <= h
      invariant best == NONE ==> forall k :: 0 <= k < i ==> !RowOf(rows, h, k)
      invariant best != NONE ==> best < i && RowOf(rows, h, best) && forall k :: best < k < i ==> !RowOf(rows, h, k)
    {
      if rows[i].lo > h {
        break;
      }
      if rows[i].lo == h && rows[i].hi != TITLE_LINE {
        assert RowOf(rows, h, i);
        if LineOff(rows[i].hi) <= off {
          best := i;
        } else {
          break;
        }
      }
    }
  }

  lemma LineForOffIsFunction(rows: seq<Range32>, h: nat, off: nat, r: nat, s: nat)
    requires |rows| <= NONE && LineForOffIs(rows, h, off, r) && LineForOffIs(rows, h, off, s)
    ensures r == s
  {
    assert r != NONE ==> Reaches(rows, h, off, r);
    assert s != NONE ==> Reaches(rows, h, off, s);
  }

  /** Later positions have later rows, although offsets start over inside a modified block. */
  lemma LineForOffMonotone(rows: seq<Range32>, h: nat, off: nat, r: nat, h': nat, off': nat, r': nat)
    requires Ordered(rows) && LineForOffIs(rows, h, off, r) && LineForOffIs(rows, h', off', r')
    requires r != NONE && r' != NONE && (h < h' || (h == h' && off <= off'))
    ensures r <= r'
  {
    if h == h' {
      assert Reaches(rows, h, off', r);
    } else {
      assert rows[r].lo == h && rows[r'].lo == h';
    }
  }

  /** The row the function's comment promises: the last one of the hunk at or before off. */
  ghost predicate LastRowBefore(rows: seq<Range32>, h: nat, off: nat, r: nat) {
    if r == NONE then forall i :: RowOf(rows, h, i) ==> LineOff(rows[i].hi) > off
    else RowOf(rows, h, r) && LineOff(rows[r].hi) <= off
         && forall i :: RowOf(rows, h, i) && LineOff(rows[i].hi) <= off ==> i <= r
  }

  /** The rows of the hunk at or before off all come before those beyond it. */
  ghost predicate Parted(rows: seq<Range32>, h: nat, off: nat) {
    forall i, k :: RowOf(rows, h, i) && RowOf(rows, h, k) && i < k && LineOff(rows[k].hi) <= off
                   ==> LineOff(rows[i].hi) <= off
  }

  /** The promised row is the one returned exactly when offsets do not come back below off in the hunk. */
  lemma PromisedRowIffParted(rows: seq<Range32>, h: nat, off: nat, r: nat)
    requires Ordered(rows) && LineForOffIs(rows, h, off, r)
    ensures LastRowBefore(rows, h, off, r) <==> Parted(rows, h, off)
  {
    if Parted(rows, h, off) {
      forall i | RowOf(rows, h, i) && LineOff(rows[i].hi) <= off ensures Reaches(rows, h, off, i) {
      }
      assert r != NONE ==> Reaches(rows, h, off, r);
    }
    if LastRowBefore(rows, h, off, r) {
      assert r != NONE ==> Reaches(rows, h, off, r);
    }
  }

  // ----- moving by change -----

  /** Token j starts a run of changed tokens of one side. */
  predicate RunStart(toks: seq<Token>, j: nat)
    requires j < |toks|
  {
    toks[j].side != EQ && (j == 0 || toks[j - 1].side != toks[j].side)
  }

  /** The tokens from j to k all have this side. */
  ghost predicate OneSide(toks: seq<Token>, j: nat, k: nat, side: Side)
    requires k < |toks|
  {
    forall x :: j <= x <= k ==> toks[x].side == side
  }

  /** Every changed token is in exactly one run: its tokens have one side, and it starts behind a token of another. */
  lemma {:induction false} RunsAreMaximal(toks: seq<Token>, k: nat) returns (j: nat)
    requires k < |toks| && toks[k].side != EQ
    ensures j <= k && RunStart(toks, j) && OneSide(toks, j, k, toks[k].side)
    ensures forall x :: j < x <= k ==> !RunStart(toks, x)
    ensures j > 0 ==> toks[j - 1].side != toks[k].side
  {
    if RunStart(toks, k) {
      j := k;
    } else {
      j := RunsAreMaximal(toks, k - 1);
    }
  }

  /** Token ends are nondecreasing in every hunk. */
  ghost predicate Sorted(hunks: seq<Hunk>) {
    forall h :: 0 <= h < |hunks| ==> SortedToks(hunks[h].toks)
  }

  ghost predicate SortedToks(toks: seq<Token>) {
    forall i, j :: 0 <= i < j < |toks| ==> toks[i].end <= toks[j].end
  }

  /** Line ln shows the start of the run that token j of hunk h begins. */
  ghost predicate RunLine(hunks: seq<Hunk>, rows: seq<Range32>, h: int, j: int, ln: int) {
    && 0 <= h < |hunks| && 0 <= j < |hunks[h].toks| && RunStart(hunks[h].toks, j)
    && 0 <= ln && ln != NONE && LineForOffIs(rows, h, Start(hunks[h].toks, j), ln)
  }

  ghost predicate Before(h: int, j: int, h': int, j': int) {
    h < h' || (h == h' && j < j')
  }

  /** Runs in order have lines in order. */
  lemma RunLinesMonotone(hunks: seq<Hunk>, rows: seq<Range32>, h: int, j: int, ln: int, h': int, j': int, ln': int)
    requires Ordered(rows) && Sorted(hunks) && RunLine(hunks, rows, h, j, ln) && RunLine(hunks, rows, h', j', ln')
    requires Before(h, j, h', j')
    ensures ln <= ln'
  {
    LineForOffMonotone(rows, h, Start(hunks[h].toks, j), ln, h', Start(hunks[h'].toks, j'), ln');
  }

  /** Some run's line is ln. */
  ghost predicate IsRunLine(hunks: seq<Hunk>, rows: seq<Range32>, ln: int) {
    exists h, j :: RunLine(hunks, rows, h, j, ln)
  }

  /** The least line of a run beyond mid; NONE when there is none. */
  method HiliNextLine(hunks: seq<Hunk>, rows: seq<Range32>, mid: nat) returns (r: nat)
    requires Ordered(rows) && Sorted(hunks)
    ensures r == NONE ==> forall ln :: IsRunLine(hunks, rows, ln) ==> ln <= mid
    ensures r != NONE ==> IsRunLine(hunks, rows, r) && r > mid
    ensures r != NONE ==> forall ln :: IsRunLine(hunks, rows, ln) && ln > mid ==> r <= ln
  {
    hide LineForOffIs, Ordered, Sorted, RunStart;
    for h := 0 to |hunks|
      invariant forall h', j', ln :: RunLine(hunks, rows, h', j', ln) && h' < h ==> ln <= mid
    {
      for j := 0 to |hunks[h].toks|
        invariant forall h', j', ln :: RunLine(hunks, rows, h', j', ln) && Before(h', j', h, j) ==> ln <= mid
      {
        if RunStart(hunks[h].toks, j) {
          var ln := LineForOff(rows, h, Start(hunks[h].toks, j));
          OneLine(hunks, rows, h, j, ln);
          if ln != NONE && ln > mid {
            assert RunLine(hunks, rows, h, j, ln);
            forall h', j', x | RunLine(hunks, rows, h', j', x) && x > mid ensures ln <= x {
              if Before(h, j, h', j') {
                RunLinesMonotone(hunks, rows, h, j, ln, h', j', x);
              }
            }
            return ln;
          }
        }
      }
    }
    r := NONE;
  }

  /** The run that token j begins has one line. */
  lemma OneLine(hunks: seq<Hunk>, rows: seq<Range32>, h: nat, j: nat, ln: nat)
    requires Ordered(rows) && h < |hunks| && j < |hunks[h].toks|
    requires LineForOffIs(rows, h, Start(hunks[h].toks, j), ln)
    ensures forall x :: RunLine(hunks, rows, h, j, x) ==> x == ln
  {
    forall x | RunLine(hunks, rows, h, j, x) ensures x == ln {
      LineForOffIsFunction(rows, h, Start(hunks[h].toks, j), x, ln);
    }
  }

  /** The greatest line of a run below mid; NONE when there is none. */
  method HiliPrevLine(hunks: seq<Hunk>, rows: seq<Range32>, mid: nat) returns (best: nat)
    requires Ordered(rows) && Sorted(hunks)
    ensures best == NONE ==> forall ln :: IsRunLine(hunks, rows, ln) ==> ln >= mid
    ensures best != NONE ==> IsRunLine(hunks, rows, best) && best < mid
    ensures best != NONE ==> forall ln :: IsRunLine(hunks, rows, ln) && ln < mid ==> ln <= best
  {
    hide LineForOffIs, Ordered, Sorted, RunStart;
    best := NONE;
    for h := 0 to |hunks|
      invariant best == NONE ==> forall h', j', ln :: RunLine(hunks, rows, h', j', ln) ==> h' >= h
      invariant best != NONE ==> IsRunLine(hunks, rows, best) && best < mid
      invariant best != NONE ==> forall h', j', ln :: RunLine(hunks, rows, h', j', ln) && h' < h ==> ln <= best
    {
      for j := 0 to |hunks[h].toks|
        invariant best == NONE ==> forall h', j', ln :: RunLine(hunks, rows, h', j', ln) ==> !Before(h', j', h, j)
        invariant best != NONE ==> IsRunLine(hunks, rows, best) && best < mid
        invariant best != NONE ==>
                    forall h', j', ln :: RunLine(hunks, rows, h', j', ln) && Before(h', j', h, j) ==> ln <= best
      {
        if RunStart(hunks[h].toks, j) {
          var ln := LineForOff(rows, h, Start(hunks[h].toks, j));
          OneLine(hunks, rows, h, j, ln);
          if ln != NONE {
            assert RunLine(hunks, rows, h, j, ln);
            forall h', j', x | RunLine(hunks, rows, h', j', x)
              ensures (Before(h', j', h, j) ==> x <= ln) && (Before(h, j, h', j') ==> ln <= x)
            {
              if Before(h', j', h, j) {
                RunLinesMonotone(hunks, rows, h', j', x, h, j, ln);
              } else if Before(h, j, h', j') {
                RunLinesMonotone(hunks, rows, h, j, ln, h', j', x);
              }
            }
            if ln >= mid {
              return best;
            }
            best := ln;
          }
        }
      }
    }
  }

  /** Token j of hunk h begins a run whose line is at most `at`. */
  ghost predicate RunBy(hunks: seq<Hunk>, rows: seq<Range32>, h: int, j: int, at: nat) {
    exists ln :: RunLine(hunks, rows, h, j, ln) && ln <= at
  }

  /** How many runs start before token j of hunk h, on a line not beyond `at`. */
  ghost function RunsAt(hunks: seq<Hunk>, rows: seq<Range32>, h: nat, j: nat, at: nat): nat
    requires h <= |hunks| && j <= if h < |hunks| then |hunks[h].toks| else 0
    decreases h, j
  {
    if j > 0 then
      RunsAt(hunks, rows, h, j - 1, at)
      + (if RunBy(hunks, rows, h, j - 1, at) then 1 else 0)
    else if h > 0 then RunsAt(hunks, rows, h - 1, |hunks[h - 1].toks|, at)
    else 0
  }

  /** Past a run beyond `at`, no run counts any more. */
  lemma {:induction false} NoMoreRuns(hunks: seq<Hunk>, rows: seq<Range32>, h: nat, j: nat, ln: nat,
      h': nat, j': nat, at: nat)
    requires Ordered(rows) && Sorted(hunks) && RunLine(hunks, rows, h, j, ln) && ln > at
    requires h' <= |hunks| && j' <= if h' < |hunks| then |hunks[h'].toks| else 0
    requires h < h' || (h == h' && j <= j')
    ensures RunsAt(hunks, rows, h', j', at) == RunsAt(hunks, rows, h, j, at)
    decreases h', j'
  {
    if h < h' || j < j' {
      if j' > 0 {
        NoMoreRuns(hunks, rows, h, j, ln, h', j' - 1, at);
        var k := j' - 1;
        forall x | RunLine(hunks, rows, h', k, x) ensures x > at {
          if h == h' && j == k {
            LineForOffIsFunction(rows, h, Start(hunks[h].toks, j), x, ln);
          } else {
            RunLinesMonotone(hunks, rows, h, j, ln, h', k, x);
          }
        }
      } else {
        NoMoreRuns(hunks, rows, h, j, ln, h' - 1, |hunks[h' - 1].toks|, at);
      }
    }
  }

  /** The number of runs whose line is at most `at`. */
  method HiliIndexAt(hunks: seq<Hunk>, rows: seq<Range32>, at: nat) returns (n: nat)
    requires Ordered(rows) && Sorted(hunks)
    ensures n == RunsAt(hunks, rows, |hunks|, 0, at)
  {
    hide LineForOffIs, Ordered, Sorted, RunStart;
    n := 0;
    for h := 0 to |hunks|
      invariant n == RunsAt(hunks, rows, h, 0, at)
    {
      for j := 0 to |hunks[h].toks|
        invariant n == RunsAt(hunks, rows, h, j, at)
      {
        if RunStart(hunks[h].toks, j) {
          var ln := LineForOff(rows, h, Start(hunks[h].toks, j));
          OneLine(hunks, rows, h, j, ln);
          if ln != NONE {
            assert RunLine(hunks, rows, h, j, ln);
            if ln <= at {
              n := n + 1;
            } else {
              NoMoreRuns(hunks, rows, h, j, ln, |hunks|, 0, at);
              return;
            }
          }
        }
      }
    }
  }

  // ----- moving by hunk -----

  /** Row i is the first of its hunk. */
  ghost predicate HunkStart(rows: seq<Range32>, i: int) {
    0 <= i < |rows| && (i == 0 || rows[i].lo != rows[i - 1].lo)
  }

  /** The first start of a hunk behind row `from`. */
  method HunkNextLine(rows: seq<Range32>, from: nat) returns (r: nat)
    requires |rows| <= NONE && from < NONE
    ensures r == NONE ==> forall i :: HunkStart(rows, i) ==> i <= from
    ensures r != NONE ==> HunkStart(rows, r) && from < r && forall i :: from < i < r ==> !HunkStart(rows, i)
  {
    if |rows| == 0 {
      return NONE;
    }
    var start := if from + 1 < |rows| then from + 1 else |rows|;
    for i := start to |rows|
      invariant forall k :: from < k < i ==> !HunkStart(rows, k)
    {
      if rows[i].lo != rows[i - 1].lo {
        return i;
      }
    }
    r := NONE;
  }

  /** Back to the last start of a hunk before row `from`: the own hunk's, or from there the previous hunk's. */
  method HunkPrevLine(rows: seq<Range32>, from: nat) returns (r: nat)
    requires |rows| <= NONE
    ensures var at := if from < |rows| then from else |rows| - 1;
      && (r == NONE ==> at <= 0)
      && (r != NONE ==> HunkStart(rows, r) && r < at && forall i :: r < i < at ==> !HunkStart(rows, i))
  {
    if |rows| == 0 || from == 0 {
      return NONE;
    }
    var at: nat := if from >= |rows| then |rows| - 1 else from;
    var i: nat := at;
    while i > 0 && rows[i - 1].lo == rows[i].lo
      invariant i <= at && forall k :: i < k <= at ==> !HunkStart(rows, k)
    {
      i := i - 1;
    }
    if i < at {
      return i;
    }
    if i == 0 {
      return NONE;
    }
    i := i - 1;
    while i > 0 && rows[i - 1].lo == rows[i].lo
      invariant i < at && forall k :: i < k < at ==> !HunkStart(rows, k)
    {
      i := i - 1;
    }
    return i;
  }

  /** The hunks that the first n rows belong to. */
  ghost function HunksIn(rows: seq<Range32>, n: nat): set<nat>
    requires n <= |rows|
  {
    set i | 0 <= i < n :: rows[i].lo
  }

  /** In an ordered index a row belongs to a hunk not seen before exactly when it differs from the row before. */
  lemma OneMoreRow(rows: seq<Range32>, n: nat)
    requires Ordered(rows) && n < |rows|
    ensures |HunksIn(rows, n + 1)| == |HunksIn(rows, n)| + if HunkStart(rows, n) then 1 else 0
  {
    var before, h := HunksIn(rows, n), rows[n].lo;
    assert HunksIn(rows, n + 1) == before + {h};
    if HunkStart(rows, n) {
      if n > 0 {
        assert forall i :: 0 <= i < n ==> rows[i].lo <= rows[n - 1].lo < h;
      }
      assert h !in before;
    } else {
      assert rows[n - 1].lo == h;
      assert before + {h} == before;
    }
  }

  /** How many hunks the index has rows of. */
  method HunkCount(rows: seq<Range32>) returns (n: nat)
    requires Ordered(rows)
    ensures n == |HunksIn(rows, |rows|)|
  {
    hide Ordered;
    assert HunksIn(rows, 0) == {};
    if |rows| == 0 {
      return 0;
    }
    OneMoreRow(rows, 0);
    n := 1;
    for i := 1 to |rows|
      invariant n == |HunksIn(rows, i)|
    {
      OneMoreRow(rows, i);
      if rows[i].lo != rows[i - 1].lo {
        n := n + 1;
      }
    }
  }

  /** The number, from one, of the hunk of row `at` among those. */
  method HunkIndexAt(rows: seq<Range32>, at: nat) returns (n: nat)
    requires Ordered(rows)
    ensures n == |HunksIn(rows, if at < |rows| then at + 1 else |rows|)|
  {
    hide Ordered;
    assert HunksIn(rows, 0) == {};
    if |rows| == 0 {
      return 0;
    }
    var last: nat := if at >= |rows| then |rows| - 1 else at;
    OneMoreRow(rows, 0);
    n := 1;
    for i := 1 to last + 1
      invariant n == |HunksIn(rows, i)|
    {
      OneMoreRow(rows, i);
      if rows[i].lo != rows[i - 1].lo {
        n := n + 1;
      }
    }
  }

  // ----- the built index is ordered -----

  ghost predicate AllIn(rows: seq<Range32>, from: nat, to: nat) {
    forall i :: 0 <= i < |rows| ==> from <= rows[i].lo < to
  }

  lemma {:induction false} SpansInHunk(ms: seq<Mark>, h: nat, cols: nat, sps: seq<Span>, n: nat)
    requires n <= |sps|
    ensures AllIn(FlatUpTo(SpanEntries(ms, h, cols), sps, n), h, h + 1)
  {
    if n > 0 {
      SpansInHunk(ms, h, cols, sps, n - 1);
    }
  }

  lemma EntriesInHunk(hk: Hunk, h: nat, cols: nat)
    ensures AllIn(HunkEntries(hk, h, cols), h, h + 1)
  {
    if hk.text != [] {
      var ms := MarksOf(hk.text, hk.toks);
      hide MarksOf, Walk, Kept;
      SpansInHunk(ms, h, cols, Walk(Kept(ms)), |Walk(Kept(ms))|);
    }
  }

  lemma OneMoreHunk(a: seq<Range32>, b: seq<Range32>, from: nat, h: nat)
    requires from <= h && AllIn(a, from, h) && AllIn(b, h, h + 1)
    ensures AllIn(a + b, from, h + 1)
    ensures |a + b| <= NONE && Ordered(a) ==> Ordered(a + b)
  {
    if |a + b| <= NONE && Ordered(a) {
      var c := a + b;
      forall i, j | 0 <= i < j < |c| ensures c[i].lo <= c[j].lo {
        if j >= |a| {
          assert c[j] == b[j - |a|];
        }
      }
    }
  }

  lemma IndexUnfolds(hunks: seq<Hunk>, from: nat, to: nat, cols: nat)
    requires from <= to <= |hunks|
    ensures from == to ==> Index(hunks, from, to, cols) == [] && AllIn([], from, to) && Ordered([])
    ensures from < to ==>
      Index(hunks, from, to, cols)
      == Index(hunks, from, to - 1, cols) + HunkEntries(hunks[to - 1], to - 1, AtLeastOne(cols))
  {
  }

  /** What AppendLines builds is what the navigation needs: entries of hunk after hunk. */
  lemma {:induction false} IndexIsOrdered(hunks: seq<Hunk>, from: nat, to: nat, cols: nat)
    requires from <= to <= |hunks|
    ensures AllIn(Index(hunks, from, to, cols), from, to)
    ensures |Index(hunks, from, to, cols)| <= NONE ==> Ordered(Index(hunks, from, to, cols))
  {
    hide *;
    IndexUnfolds(hunks, from, to, cols);
    if from < to {
      IndexIsOrdered(hunks, from, to - 1, cols);
      EntriesInHunk(hunks[to - 1], to - 1, AtLeastOne(cols));
      OneMoreHunk(Index(hunks, from, to - 1, cols), HunkEntries(hunks[to - 1], to - 1, AtLeastOne(cols)), from, to - 1);
    }
  }

  // ----- which hunks have a title row -----

  ghost predicate NoTitle(rows: seq<Range32>) {
    forall r :: r in rows ==> r.hi != TITLE_LINE
  }

  lemma RowsHaveNoTitle(h: nat, pass: Pass, rows: seq<nat>)
    ensures NoTitle(RowEntries(h, pass, rows))
  {
    assert forall off: nat :: LineMake(off, pass) < 3 * OFFSETS;
  }

  lemma SpanHasNoTitle(ms: seq<Mark>, h: nat, cols: nat, sp: Span)
    ensures NoTitle(SpanEntries(ms, h, cols)(sp))
  {
    hide NoTitle, Rows, RowEntries;
    if GoodSpan(ms, sp) && cols > 0 {
      RowsHaveNoTitle(h, sp.pass, Rows(ms, sp.lo, sp.end, cols, sp.pass));
    } else {
      NoneHaveNoTitle();
    }
  }

  lemma NoneHaveNoTitle()
    ensures NoTitle([])
  {
  }

  lemma NoTitleAppend(a: seq<Range32>, b: seq<Range32>)
    requires NoTitle(a) && NoTitle(b)
    ensures NoTitle(a + b)
  {
  }

  lemma {:induction false} SpansHaveNoTitle(ms: seq<Mark>, h: nat, cols: nat, sps: seq<Span>, n: nat)
    requires n <= |sps|
    ensures NoTitle(FlatUpTo(SpanEntries(ms, h, cols), sps, n))
  {
    hide NoTitle, SpanEntries;
    if n > 0 {
      SpansHaveNoTitle(ms, h, cols, sps, n - 1);
      SpanHasNoTitle(ms, h, cols, sps[n - 1]);
      NoTitleAppend(FlatUpTo(SpanEntries(ms, h, cols), sps, n - 1), SpanEntries(ms, h, cols)(sps[n - 1]));
    } else {
      NoneHaveNoTitle();
    }
  }

  lemma TextHasNoTitle(hk: Hunk, h: nat, cols: nat)
    ensures NoTitle(TextEntries(hk, h, cols))
  {
    if hk.text != [] {
      var ms := MarksOf(hk.text, hk.toks);
      hide MarksOf, Walk, Kept, NoTitle;
      SpansHaveNoTitle(ms, h, cols, Walk(Kept(ms)), |Walk(Kept(ms))|);
    }
  }

  /** What one hunk adds: its title row in front, when it has a URI, and no other title. */
  lemma TitleStep(a: seq<Range32>, hk: Hunk, h: nat, cols: nat, title: Range32)
    requires title.hi == TITLE_LINE
    ensures title in a + HunkEntries(hk, h, cols) <==> title in a || (hk.uri != [] && title.lo == h)
    ensures forall k :: 0 <= k < |a| ==> (a + HunkEntries(hk, h, cols))[k] == a[k]
    ensures hk.uri != [] ==>
      |a| < |a + HunkEntries(hk, h, cols)| && (a + HunkEntries(hk, h, cols))[|a|] == Range32(h, TITLE_LINE)
  {
    hide TextEntries;
    TextHasNoTitle(hk, h, cols);
    var t := TextEntries(hk, h, cols);
    assert title !in t;
  }

  /** A hunk has a title row in the index exactly when it has a URI; it is the first of the hunk's rows. */
  lemma {:induction false} TitledIff(hunks: seq<Hunk>, from: nat, to: nat, cols: nat, h: nat)
    requires from <= to <= |hunks|
    ensures Range32(h, TITLE_LINE) in Index(hunks, from, to, cols) <==> from <= h < to && hunks[h].uri != []
    ensures from <= h < to && hunks[h].uri != [] ==>
      var k := |Index(hunks, from, h, cols)|;
      k < |Index(hunks, from, to, cols)| && Index(hunks, from, to, cols)[k] == Range32(h, TITLE_LINE)
  {
    hide *;
    IndexUnfolds(hunks, from, to, cols);
    if from < to {
      TitledIff(hunks, from, to - 1, cols, h);
      TitleStep(Index(hunks, from, to - 1, cols), hunks[to - 1], to - 1, AtLeastOne(cols), Range32(h, TITLE_LINE));
    }
  }
}
