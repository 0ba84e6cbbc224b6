/** What number of a change the pager reports (bro/BRO.c, bro/BRO.h). */
module PagerRuns {
  import opened Seqs
  import opened Tokens
  import opened PagerSegments
  import opened PagerRows
  import opened PagerIndex
  import opened PagerNav
  import opened PagerOrder

  /** Token j of hunk h begins a run. */
  ghost predicate IsRun(hunks: seq<Hunk>, h: int, j: int) {
    0 <= h < |hunks| && 0 <= j < |hunks[h].toks| && RunStart(hunks[h].toks, j)
  }

  /** How many runs there are before token j of hunk h. */
  ghost function RunsBefore(hunks: seq<Hunk>, h: nat, j: nat): nat
    requires h <= |hunks| && j <= if h < |hunks| then |hunks[h].toks| else 0
    decreases h, j
  {
    if j > 0 then RunsBefore(hunks, h, j - 1) + (if RunStart(hunks[h].toks, j - 1) then 1 else 0)
    else if h > 0 then RunsBefore(hunks, h - 1, |hunks[h - 1].toks|)
    else 0
  }

  /** BROHiliCount: all runs. */
  method HiliCount(hunks: seq<Hunk>) returns (n: nat)
    ensures n == RunsBefore(hunks, |hunks|, 0)
  {
    hide RunStart;
    n := 0;
    for h := 0 to |hunks|
      invariant n == RunsBefore(hunks, h, 0)
    {
      for j := 0 to |hunks[h].toks|
        invariant n == RunsBefore(hunks, h, j)
      {
        if RunStart(hunks[h].toks, j) {
          n := n + 1;
        }
      }
    }
  }

  /** Every run before token j of hunk h is on a line not beyond `at`. */
  ghost predicate AllBy(hunks: seq<Hunk>, rows: seq<Range32>, h: int, j: int, at: nat) {
    forall x, y :: IsRun(hunks, x, y) && Before(x, y, h, j) ==> RunBy(hunks, rows, x, y, at)
  }

  lemma {:induction false} RunsAtIsAll(hunks: seq<Hunk>, rows: seq<Range32>, h: nat, j: nat, at: nat)
    requires h <= |hunks| && j <= if h < |hunks| then |hunks[h].toks| else 0
    ensures RunsAt(hunks, rows, h, j, at) <= RunsBefore(hunks, h, j)
    ensures RunsAt(hunks, rows, h, j, at) == RunsBefore(hunks, h, j) <==> AllBy(hunks, rows, h, j, at)
    decreases h, j
  {
    hide RunStart;
    if j > 0 {
      RunsAtIsAll(hunks, rows, h, j - 1, at);
      assert RunBy(hunks, rows, h, j - 1, at) ==> IsRun(hunks, h, j - 1);
      assert AllBy(hunks, rows, h, j, at) <==>
        AllBy(hunks, rows, h, j - 1, at) && (IsRun(hunks, h, j - 1) ==> RunBy(hunks, rows, h, j - 1, at)) by {
        AllByStep(hunks, rows, h, j, at);
      }
    } else if h > 0 {
      RunsAtIsAll(hunks, rows, h - 1, |hunks[h - 1].toks|, at);
    }
  }

  lemma AllByStep(hunks: seq<Hunk>, rows: seq<Range32>, h: nat, j: nat, at: nat)
    requires j > 0
    ensures AllBy(hunks, rows, h, j, at) <==>
      AllBy(hunks, rows, h, j - 1, at) && (IsRun(hunks, h, j - 1) ==> RunBy(hunks, rows, h, j - 1, at))
  {
    hide RunBy, IsRun;
    assert Before(h, j - 1, h, j);
    assert forall x, y :: Before(x, y, h, j - 1) ==> Before(x, y, h, j);
  }

  /** The last run on a line not beyond `at`. */
  ghost predicate Latest(hunks: seq<Hunk>, rows: seq<Range32>, h: int, j: int, at: nat) {
    RunBy(hunks, rows, h, j, at) && forall x, y :: Before(h, j, x, y) ==> !RunBy(hunks, rows, x, y, at)
  }

  lemma {:induction false} NoneAfter(hunks: seq<Hunk>, rows: seq<Range32>, h: nat, j: nat, h': nat, j': nat, at: nat)
    requires h < |hunks| && j < |hunks[h].toks| && Latest(hunks, rows, h, j, at)
    requires h' <= |hunks| && j' <= if h' < |hunks| then |hunks[h'].toks| else 0
    requires h < h' || (h == h' && j + 1 <= j')
    ensures RunsAt(hunks, rows, h', j', at) == RunsAt(hunks, rows, h, j + 1, at)
    decreases h', j'
  {
    hide RunBy;
    if h < h' || j + 1 < j' {
      if j' > 0 {
        NoneAfter(hunks, rows, h, j, h', j' - 1, at);
        assert Before(h, j, h', j' - 1);
      } else {
        NoneAfter(hunks, rows, h, j, h' - 1, |hunks[h' - 1].toks|, at);
      }
    }
  }

  /** Every run before token j of hunk h has a line. */
  ghost predicate AllHaveLines(hunks: seq<Hunk>, rows: seq<Range32>, h: int, j: int) {
    forall x, y :: IsRun(hunks, x, y) && Before(x, y, h, j) ==> exists ln :: RunLine(hunks, rows, x, y, ln)
  }

  /** The number reported is the place of the latest run among all runs exactly when every run before it has a line. */
  lemma NumberIsPlace(hunks: seq<Hunk>, rows: seq<Range32>, h: nat, j: nat, at: nat)
    requires Ordered(rows) && Sorted(hunks) && h < |hunks| && j < |hunks[h].toks| && Latest(hunks, rows, h, j, at)
    ensures RunsAt(hunks, rows, |hunks|, 0, at) <= RunsBefore(hunks, h, j + 1)
    ensures RunsAt(hunks, rows, |hunks|, 0, at) == RunsBefore(hunks, h, j + 1) <==> AllHaveLines(hunks, rows, h, j)
  {
    hide Ordered, Sorted, RunStart, LineForOffIs;
    NoneAfter(hunks, rows, h, j, |hunks|, 0, at);
    RunsAtIsAll(hunks, rows, h, j + 1, at);
    AllByStep(hunks, rows, h, j + 1, at);
    var ln :| RunLine(hunks, rows, h, j, ln) && ln <= at;
    if AllHaveLines(hunks, rows, h, j) {
      forall x, y | IsRun(hunks, x, y) && Before(x, y, h, j) ensures RunBy(hunks, rows, x, y, at) {
        var l :| RunLine(hunks, rows, x, y, l);
        RunLinesMonotone(hunks, rows, x, y, l, h, j, ln);
      }
    }
  }

  // ----- where they differ -----

  /** `x` removed, the newline inserted: two runs and no row. */
  ghost function Rowless(): Hunk {
    Hunk([], [120, 10], [Token('S', RM, 1), Token('S', IN, 2)])
  }

  lemma RowlessRead()
    ensures MarksOf(Rowless().text, Rowless().toks) == TailText()
  {
    SideAtIs(Rowless().toks, 0, 0);
    SideAtIs(Rowless().toks, 1, 1);
    hide SideAt;
  }

  ghost function RowlessSegments(): seq<LineInfo> {
    [LineInfo(0, 1, 0, 1, 0, IN)]
  }

  lemma RowlessScanned()
    ensures Kept(TailText()) == RowlessSegments()
  {
    var ms := TailText();
    assert ScanUpTo(ms, 1) == Scan([], 0, 0, 1, 0);
    assert ScanUpTo(ms, 2) == Scan(RowlessSegments(), 2, 0, 0, 0);
  }

  lemma RowlessGrouped(pass: Pass)
    requires pass != NormalPass
    ensures GroupUpTo(pass, RowlessSegments(), 0, 1).spans == []
  {
    assert GroupUpTo(pass, RowlessSegments(), 0, 0) == Group([], 0, 0, 0, 0);
  }

  lemma RowlessWalked()
    ensures Walk(Kept(TailText())) == []
  {
    var segs := RowlessSegments();
    RowlessScanned();
    RowlessGrouped(RmPass);
    RowlessGrouped(InPass);
    hide Kept, TailText, GroupUpTo;
    assert BlockEnd(segs, 1) == 1 && WalkFrom(segs, 1) == [];
    WalkUnfold(segs, 0);
  }

  lemma RowlessHasNoRow(h: nat, cols: nat)
    ensures HunkEntries(Rowless(), h, cols) == []
  {
    RowlessRead();
    RowlessWalked();
    hide Walk, Kept, MarksOf;
    assert Rowless().text != [] && TitleEntries(Rowless(), h) == [];
  }

  ghost function TwoHunks(): seq<Hunk> {
    [Rowless(), TwoEdits()]
  }

  lemma TwoHunksIndexed(cols: nat)
    requires cols >= 2
    ensures Lists(Index(TwoHunks(), 0, 2, cols), 1, [0, 3, 0, 3])
  {
    var hks := TwoHunks();
    assert |hks[1].text| < OFFSETS && TitleEntries(hks[1], 1) == [];
    hide Index, TextEntries, TextStarts, Lists, TwoEdits, Rowless, TitleEntries;
    IndexUnfolds(hks, 0, 2, cols);
    IndexUnfolds(hks, 0, 1, cols);
    IndexUnfolds(hks, 0, 0, cols);
    RowlessHasNoRow(0, cols);
    TextLists(hks[1], 1, cols);
    TwoEditsStarts(cols);
    NilLeft(TextEntries(hks[1], 1, cols));
  }

  /** The first change of the second hunk is on line 0 and the third change of all, and its number is not 3. */
  lemma NumberCanDiffer(cols: nat)
    requires cols >= 2
    ensures var rows := Index(TwoHunks(), 0, 2, cols);
      && Latest(TwoHunks(), rows, 1, 0, 0) && RunsBefore(TwoHunks(), 1, 1) == 3
      && RunsAt(TwoHunks(), rows, 2, 0, 0) != 3
  {
    var rows := Index(TwoHunks(), 0, 2, cols);
    TwoHunksIndexed(cols);
    IndexIsOrdered(TwoHunks(), 0, 2, cols);
    hide Index;
    FirstChange(rows);
    ThreeRuns();
    NoLine(rows);
    NumberIsPlace(TwoHunks(), rows, 1, 0, 0);
  }

  lemma ThreeRuns()
    ensures RunsBefore(TwoHunks(), 1, 1) == 3 && Sorted(TwoHunks())
    ensures |TwoHunks()| == 2 && |TwoHunks()[1].toks| == 4 && IsRun(TwoHunks(), 0, 0)
  {
    var hks := TwoHunks();
    assert RunsBefore(hks, 0, 0) == 0;
    assert RunsBefore(hks, 0, 1) == 1;
    assert RunsBefore(hks, 0, 2) == 2;
    assert RunsBefore(hks, 1, 0) == 2;
  }

  lemma NoLine(rows: seq<Range32>)
    requires Lists(rows, 1, [0, 3, 0, 3])
    ensures !AllHaveLines(TwoHunks(), rows, 1, 0)
  {
    assert IsRun(TwoHunks(), 0, 0) && Before(0, 0, 1, 0);
    forall ln ensures !RunLine(TwoHunks(), rows, 0, 0, ln) {
    }
  }

  lemma FirstChange(rows: seq<Range32>)
    requires Lists(rows, 1, [0, 3, 0, 3])
    ensures Latest(TwoHunks(), rows, 1, 0, 0)
  {
    var hks := TwoHunks();
    assert RowOf(rows, 1, 0) && RowOf(rows, 1, 1) && RowOf(rows, 1, 2);
    assert LineOff(rows[1].hi) == 3;
    assert Reaches(rows, 1, 0, 0);
    assert LineForOffIs(rows, 1, 0, 0);
    assert RunLine(hks, rows, 1, 0, 0);
    forall x, y | Before(1, 0, x, y) ensures !RunBy(hks, rows, x, y, 0) {
      if x == 1 && y == 2 {
        assert Reaches(rows, 1, 3, 1);
      }
    }
  }
}
