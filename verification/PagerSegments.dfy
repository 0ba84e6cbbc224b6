/** Segments of a marked text, and the spans the pager shows of them (bro/BRO.c). */
module PagerSegments {
  import opened Seqs
  import opened Bytes
  import opened Tokens

  /** A stretch between newlines, its bytes counted by side, and the side of the newline that ends it. */
  datatype LineInfo = LineInfo(lo: nat, hi: nat, inB: nat, rmB: nat, eqB: nat, bndSide: Side)

  datatype Pass = NormalPass | RmPass | InPass

  /** A byte of this side is not shown in this pass. */
  predicate Hidden(pass: Pass, side: Side) {
    (pass == RmPass && side == IN) || (pass == InPass && side == RM)
  }

  // ----- segments -----

  /** The segments ended so far, and the counts of the open one. */
  datatype Scan = Scan(done: seq<LineInfo>, lo: nat, inB: nat, rmB: nat, eqB: nat)

  function ScanStep(c: Scan, off: nat, m: Mark): Scan {
    if m.b == NEWLINE then Scan(c.done + [LineInfo(c.lo, off, c.inB, c.rmB, c.eqB, m.side)], off + 1, 0, 0, 0)
    else match m.side
      case IN => c.(inB := c.inB + 1)
      case RM => c.(rmB := c.rmB + 1)
      case EQ => c.(eqB := c.eqB + 1)
  }

  ghost function ScanUpTo(ms: seq<Mark>, n: nat): Scan
    requires n <= |ms|
  {
    if n == 0 then Scan([], 0, 0, 0, 0) else ScanStep(ScanUpTo(ms, n - 1), n - 1, ms[n - 1])
  }

  ghost function SegmentsOf(ms: seq<Mark>): seq<LineInfo> {
    var c := ScanUpTo(ms, |ms|);
    c.done + if c.lo < |ms| then [LineInfo(c.lo, |ms|, c.inB, c.rmB, c.eqB, EQ)] else []
  }

  // ----- what segments are -----

  /** How many of the bytes ms[lo..hi] have this side. */
  ghost function Count(ms: seq<Mark>, lo: nat, hi: nat, side: Side): nat
    requires lo <= hi <= |ms|
  {
    if lo == hi then 0 else Count(ms, lo, hi - 1, side) + if ms[hi - 1].side == side then 1 else 0
  }

  ghost predicate NoNewline(ms: seq<Mark>, lo: nat, hi: nat)
    requires hi <= |ms|
  {
    forall k :: lo <= k < hi ==> ms[k].b != NEWLINE
  }

  /** The counts of a segment are those of its bytes. */
  ghost predicate Counts(ms: seq<Mark>, lo: nat, hi: nat, inB: nat, rmB: nat, eqB: nat)
    requires lo <= hi <= |ms|
  {
    inB == Count(ms, lo, hi, IN) && rmB == Count(ms, lo, hi, RM) && eqB == Count(ms, lo, hi, EQ)
  }

  /** The segment counts a newline-free stretch and ends at a newline or at the end of the text. */
  ghost predicate SegmentOf(ms: seq<Mark>, s: LineInfo) {
    && s.lo <= s.hi <= |ms| && s.lo < |ms| && NoNewline(ms, s.lo, s.hi)
    && Counts(ms, s.lo, s.hi, s.inB, s.rmB, s.eqB)
    && (s.hi < |ms| ==> ms[s.hi] == Mark(NEWLINE, s.bndSide))
    && (s.hi == |ms| ==> s.bndSide == EQ)
  }

  /** Where segment i starts; for i past the last one, where the next would start. */
  ghost function SegStart(segs: seq<LineInfo>, i: nat): nat
    requires i <= |segs|
  {
    if i == 0 then 0 else segs[i - 1].hi + 1
  }

  /** The segments follow each other from the start of the text. */
  ghost predicate Segmented(ms: seq<Mark>, segs: seq<LineInfo>) {
    forall i {:trigger SegStart(segs, i)} :: 0 <= i < |segs| ==>
      SegmentOf(ms, segs[i]) && segs[i].lo == SegStart(segs, i)
  }

  lemma SegmentedSnoc(ms: seq<Mark>, segs: seq<LineInfo>, s: LineInfo)
    requires Segmented(ms, segs) && SegmentOf(ms, s) && s.lo == SegStart(segs, |segs|)
    ensures Segmented(ms, segs + [s]) && SegStart(segs + [s], |segs| + 1) == s.hi + 1
  {
    hide SegmentOf;
    forall i | 0 <= i <= |segs|
      ensures SegmentOf(ms, (segs + [s])[i]) && (segs + [s])[i].lo == SegStart(segs + [s], i)
    {
      assert SegStart(segs + [s], i) == SegStart(segs, i);
    }
  }

  lemma {:induction false} ScanIs(ms: seq<Mark>, n: nat)
    requires n <= |ms|
    ensures var c := ScanUpTo(ms, n);
      && Segmented(ms, c.done) && c.lo == SegStart(c.done, |c.done|) <= n && NoNewline(ms, c.lo, n)
      && Counts(ms, c.lo, n, c.inB, c.rmB, c.eqB)
  {
    if n > 0 {
      ScanIs(ms, n - 1);
      hide Segmented;
      var c := ScanUpTo(ms, n - 1);
      if ms[n - 1].b == NEWLINE {
        SegmentedSnoc(ms, c.done, LineInfo(c.lo, n - 1, c.inB, c.rmB, c.eqB, ms[n - 1].side));
      }
    } else {
      assert Segmented(ms, []);
    }
  }

  /** The segments partition the text: they are consecutive and the last one reaches its end. */
  lemma SegmentsPartition(ms: seq<Mark>)
    ensures Segmented(ms, SegmentsOf(ms))
    ensures SegStart(SegmentsOf(ms), |SegmentsOf(ms)|) >= |ms|
  {
    ScanIs(ms, |ms|);
    var c := ScanUpTo(ms, |ms|);
    if c.lo < |ms| {
      SegmentedSnoc(ms, c.done, LineInfo(c.lo, |ms|, c.inB, c.rmB, c.eqB, EQ));
    } else {
      NilRight(c.done);
    }
  }

  // ----- kinds -----

  datatype LineKind = EqLine | PureIn | PureRm | ModInline | ModSplit

  function Classify(s: LineInfo): LineKind {
    var changed := s.inB + s.rmB;
    if changed == 0 then EqLine
    else if s.eqB == 0 then
      if s.inB > 0 && s.rmB > 0 then ModSplit else if s.inB > 0 then PureIn else PureRm
    else if changed * 4 < changed + s.eqB then ModInline
    else ModSplit
  }

  /** A segment shown as it stands: unchanged, or with a small edit, and ended by an unmarked newline. */
  predicate Plain(s: LineInfo) {
    s.bndSide == EQ && (Classify(s) == EqLine || Classify(s) == ModInline)
  }

  predicate SeesNewline(pass: Pass, bndSide: Side) {
    match pass
    case NormalPass => true
    case RmPass => bndSide != IN
    case InPass => bndSide != RM
  }

  // ----- spans -----

  /** One logical row: the bytes lo..end, shown in a pass. */
  datatype Span = Span(lo: nat, end: nat, pass: Pass)

  /** The spans of a pass over a block, the start of the row in progress, and what it holds so far. */
  datatype Group = Group(spans: seq<Span>, rowStart: nat, pendIn: nat, pendRm: nat, pendEq: nat)

  function Shows(pass: Pass, g: Group): bool {
    g.pendEq > 0 || (if pass == RmPass then g.pendRm > 0 else g.pendIn > 0)
  }

  function GroupStep(pass: Pass, g: Group, s: LineInfo): Group {
    var h := g.(pendIn := g.pendIn + s.inB, pendRm := g.pendRm + s.rmB, pendEq := g.pendEq + s.eqB);
    if SeesNewline(pass, s.bndSide) then
      Group(h.spans + (if Shows(pass, h) then [Span(h.rowStart, s.hi, pass)] else []), s.hi + 1, 0, 0, 0)
    else h
  }

  ghost function GroupUpTo(pass: Pass, segs: seq<LineInfo>, i: nat, m: nat): Group
    requires i <= m <= |segs| && i < |segs|
  {
    if i == m then Group([], segs[i].lo, 0, 0, 0)
    else GroupStep(pass, GroupUpTo(pass, segs, i, m - 1), segs[m - 1])
  }

  ghost function BlockEnd(segs: seq<LineInfo>, j: nat): (e: nat)
    requires j <= |segs|
    ensures j <= e <= |segs|
    decreases |segs| - j
  {
    if j == |segs| || Plain(segs[j]) then j else BlockEnd(segs, j + 1)
  }

  /** The spans of the segments from i on: plain ones as they stand, blocks first as old rows, then as new ones. */
  ghost function WalkFrom(segs: seq<LineInfo>, i: nat): seq<Span>
    requires i <= |segs|
    decreases |segs| - i
  {
    if i == |segs| then []
    else if Plain(segs[i]) then [Span(segs[i].lo, segs[i].hi, NormalPass)] + WalkFrom(segs, i + 1)
    else
      var j := BlockEnd(segs, i + 1);
      (GroupUpTo(RmPass, segs, i, j).spans + GroupUpTo(InPass, segs, i, j).spans) + WalkFrom(segs, j)
  }

  ghost function Walk(segs: seq<LineInfo>): seq<Span> {
    WalkFrom(segs, 0)
  }

  // ----- every span ends at a newline its pass sees, and sees none before -----

  ghost predicate NoVisibleNewline(ms: seq<Mark>, lo: nat, hi: nat, pass: Pass)
    requires hi <= |ms|
  {
    forall k :: lo <= k < hi ==> !(ms[k].b == NEWLINE && !Hidden(pass, ms[k].side))
  }

  ghost predicate GoodSpan(ms: seq<Mark>, sp: Span) {
    && sp.lo <= sp.end <= |ms| && NoVisibleNewline(ms, sp.lo, sp.end, sp.pass)
    && (sp.end < |ms| ==> ms[sp.end].b == NEWLINE && !Hidden(sp.pass, ms[sp.end].side))
  }

  ghost predicate GoodSpans(ms: seq<Mark>, sps: seq<Span>) {
    forall k :: 0 <= k < |sps| ==> GoodSpan(ms, sps[k])
  }

  /** A position in the text, or its end. */
  ghost function Clip(ms: seq<Mark>, x: nat): (y: nat)
    ensures y <= |ms| && y <= x
  {
    if x > |ms| then |ms| else x
  }

  lemma SegmentAt(ms: seq<Mark>, segs: seq<LineInfo>, i: nat)
    requires Segmented(ms, segs) && i < |segs|
    ensures SegmentOf(ms, segs[i]) && segs[i].lo == SegStart(segs, i) && SegStart(segs, i + 1) == segs[i].hi + 1
    ensures segs[i].lo <= segs[i].hi <= |ms| && Clip(ms, segs[i].lo) == segs[i].lo
    ensures segs[i].hi <= Clip(ms, segs[i].hi + 1) <= segs[i].hi + 1
  {
    assert segs[i].lo == SegStart(segs, i);
  }

  lemma {:induction false} GroupGood(ms: seq<Mark>, segs: seq<LineInfo>, pass: Pass, i: nat, m: nat)
    requires Segmented(ms, segs) && i <= m <= |segs| && i < |segs| && pass != NormalPass
    ensures var g := GroupUpTo(pass, segs, i, m);
      && GoodSpans(ms, g.spans) && segs[i].lo <= g.rowStart <= SegStart(segs, m)
      && NoVisibleNewline(ms, g.rowStart, Clip(ms, SegStart(segs, m)), pass)
  {
    SegmentAt(ms, segs, i);
    if i < m {
      GroupGood(ms, segs, pass, i, m - 1);
      SegmentAt(ms, segs, m - 1);
      hide Segmented, Counts, GroupUpTo, GoodSpans;
      GroupGoodStep(ms, pass, GroupUpTo(pass, segs, i, m - 1), segs[m - 1]);
      GroupUnfold(pass, segs, i, m);
    }
  }

  lemma GroupUnfold(pass: Pass, segs: seq<LineInfo>, i: nat, m: nat)
    requires i < m <= |segs|
    ensures GroupUpTo(pass, segs, i, m) == GroupStep(pass, GroupUpTo(pass, segs, i, m - 1), segs[m - 1])
  {
  }

  lemma GroupGoodStep(ms: seq<Mark>, pass: Pass, g: Group, s: LineInfo)
    requires SegmentOf(ms, s) && pass != NormalPass && g.rowStart <= s.lo
    requires GoodSpans(ms, g.spans) && NoVisibleNewline(ms, g.rowStart, s.lo, pass)
    ensures var h := GroupStep(pass, g, s);
      && GoodSpans(ms, h.spans) && g.rowStart <= h.rowStart <= s.hi + 1
      && NoVisibleNewline(ms, h.rowStart, Clip(ms, s.hi + 1), pass)
  {
    hide Counts;
  }

  lemma GoodAppend(ms: seq<Mark>, a: seq<Span>, b: seq<Span>)
    requires GoodSpans(ms, a) && GoodSpans(ms, b)
    ensures GoodSpans(ms, a + b)
  {
    hide GoodSpan;
  }

  lemma PlainGood(ms: seq<Mark>, segs: seq<LineInfo>, i: nat)
    requires Segmented(ms, segs) && i < |segs| && Plain(segs[i])
    ensures GoodSpans(ms, [Span(segs[i].lo, segs[i].hi, NormalPass)])
  {
    SegmentAt(ms, segs, i);
  }

  lemma WalkUnfold(segs: seq<LineInfo>, i: nat)
    requires i < |segs|
    ensures Plain(segs[i]) ==>
              WalkFrom(segs, i) == [Span(segs[i].lo, segs[i].hi, NormalPass)] + WalkFrom(segs, i + 1)
    ensures !Plain(segs[i]) ==>
              var j := BlockEnd(segs, i + 1);
              WalkFrom(segs, i) == (GroupUpTo(RmPass, segs, i, j).spans + GroupUpTo(InPass, segs, i, j).spans)
                                   + WalkFrom(segs, j)
  {
  }

  /** Every span ends at a newline its pass sees, or at the end of the text, and sees none before. */
  lemma {:induction false} WalkGood(ms: seq<Mark>, segs: seq<LineInfo>, i: nat)
    requires Segmented(ms, segs) && i <= |segs|
    ensures GoodSpans(ms, WalkFrom(segs, i))
    decreases |segs| - i
  {
    if i < |segs| {
      hide *;
      WalkUnfold(segs, i);
      if Plain(segs[i]) {
        WalkGood(ms, segs, i + 1);
        PlainGood(ms, segs, i);
        GoodAppend(ms, [Span(segs[i].lo, segs[i].hi, NormalPass)], WalkFrom(segs, i + 1));
      } else {
        var j := BlockEnd(segs, i + 1);
        GroupGood(ms, segs, RmPass, i, j);
        GroupGood(ms, segs, InPass, i, j);
        WalkGood(ms, segs, j);
        GoodAppend(ms, GroupUpTo(RmPass, segs, i, j).spans, GroupUpTo(InPass, segs, i, j).spans);
        GoodAppend(ms, GroupUpTo(RmPass, segs, i, j).spans + GroupUpTo(InPass, segs, i, j).spans, WalkFrom(segs, j));
      }
    }
  }

  // ----- the bytes a pass shows -----

  /** The bytes of ms[lo..hi] the pass shows, newlines dropped. */
  ghost function Shown(ms: seq<Mark>, lo: nat, hi: nat, pass: Pass): seq<byte>
    requires lo <= hi <= |ms|
  {
    if lo == hi then []
    else Shown(ms, lo, hi - 1, pass)
         + if Hidden(pass, ms[hi - 1].side) || ms[hi - 1].b == NEWLINE then [] else [ms[hi - 1].b]
  }

  lemma {:induction false} ShownSplits(ms: seq<Mark>, lo: nat, mid: nat, hi: nat, pass: Pass)
    requires lo <= mid <= hi <= |ms|
    ensures Shown(ms, lo, hi, pass) == Shown(ms, lo, mid, pass) + Shown(ms, mid, hi, pass)
  {
    if mid == hi {
      NilRight(Shown(ms, lo, mid, pass));
    } else {
      ShownSplits(ms, lo, mid, hi - 1, pass);
      var last := if Hidden(pass, ms[hi - 1].side) || ms[hi - 1].b == NEWLINE then [] else [ms[hi - 1].b];
      Assoc(Shown(ms, lo, mid, pass), Shown(ms, mid, hi - 1, pass), last);
    }
  }

  /** In a newline-free stretch a pass shows the unmarked bytes and those of its own side. */
  lemma {:induction false} ShownCount(ms: seq<Mark>, lo: nat, hi: nat, pass: Pass)
    requires lo <= hi <= |ms| && NoNewline(ms, lo, hi) && pass != NormalPass
    ensures |Shown(ms, lo, hi, pass)| ==
            Count(ms, lo, hi, EQ) + Count(ms, lo, hi, if pass == RmPass then RM else IN)
  {
    if lo < hi {
      ShownCount(ms, lo, hi - 1, pass);
    }
  }

  /** What a span shows of the pass's version: rows of the other pass show nothing of it. */
  ghost function ShowOf(ms: seq<Mark>, pass: Pass): Span -> seq<byte> {
    (sp: Span) => if (sp.pass == NormalPass || sp.pass == pass) && sp.lo <= sp.end <= |ms|
                  then Shown(ms, sp.lo, sp.end, pass) else []
  }

  ghost function ShownBy(ms: seq<Mark>, pass: Pass, sps: seq<Span>): seq<byte> {
    FlatMap(ShowOf(ms, pass), sps)
  }

  lemma ShownByAppend(ms: seq<Mark>, pass: Pass, a: seq<Span>, b: seq<Span>)
    ensures ShownBy(ms, pass, a + b) == ShownBy(ms, pass, a) + ShownBy(ms, pass, b)
  {
    FlatAppend(ShowOf(ms, pass), a, b);
  }

  lemma ShownByOne(ms: seq<Mark>, pass: Pass, sp: Span)
    ensures ShownBy(ms, pass, [sp]) == ShowOf(ms, pass)(sp)
  {
    FlatOne(ShowOf(ms, pass), sp);
  }

  lemma ShownByNone(ms: seq<Mark>, pass: Pass)
    ensures ShownBy(ms, pass, []) == []
  {
  }

  /** The rows a pass has emitted show exactly its bytes up to the row in progress, whose bytes it has counted. */
  ghost predicate Accounts(ms: seq<Mark>, pass: Pass, lo: nat, g: Group, end: nat)
    requires lo <= end <= |ms|
  {
    && lo <= Clip(ms, g.rowStart) <= end
    && ShownBy(ms, pass, g.spans) == Shown(ms, lo, Clip(ms, g.rowStart), pass)
    && g.pendEq + (if pass == RmPass then g.pendRm else g.pendIn) == |Shown(ms, Clip(ms, g.rowStart), end, pass)|
  }

  lemma AccountsStep(ms: seq<Mark>, pass: Pass, lo: nat, g: Group, s: LineInfo)
    requires pass != NormalPass && SegmentOf(ms, s) && lo <= s.lo && g.rowStart <= s.lo
    requires Accounts(ms, pass, lo, g, s.lo)
    ensures Accounts(ms, pass, lo, GroupStep(pass, g, s), Clip(ms, s.hi + 1))
  {
    hide ShownBy, Shown, Plain;
    var h, row := GroupStep(pass, g, s), Clip(ms, s.hi + 1);
    var sp := Span(g.rowStart, s.hi, pass);
    ShownCount(ms, s.lo, s.hi, pass);
    ShownSplits(ms, g.rowStart, s.lo, s.hi, pass);
    ShownSplits(ms, lo, g.rowStart, s.hi, pass);
    ShownNewline(ms, lo, s, pass);
    ShownNewline(ms, g.rowStart, s, pass);
    ShownByAppend(ms, pass, g.spans, [sp]);
    ShownByOne(ms, pass, sp);
    NilRight(g.spans);
    NilRight(Shown(ms, lo, g.rowStart, pass));
    ShownNothing(ms, row, pass);
  }

  lemma ShownNothing(ms: seq<Mark>, lo: nat, pass: Pass)
    requires lo <= |ms|
    ensures Shown(ms, lo, lo, pass) == []
  {
  }

  /** The newline that ends a segment is not among the bytes shown. */
  lemma ShownNewline(ms: seq<Mark>, lo: nat, s: LineInfo, pass: Pass)
    requires SegmentOf(ms, s) && lo <= s.lo
    ensures Shown(ms, lo, Clip(ms, s.hi + 1), pass) == Shown(ms, lo, s.hi, pass)
  {
    NilRight(Shown(ms, lo, s.hi, pass));
  }

  lemma BlockShowsStart(ms: seq<Mark>, segs: seq<LineInfo>, pass: Pass, i: nat)
    requires Segmented(ms, segs) && i < |segs|
    ensures segs[i].lo == SegStart(segs, i) == Clip(ms, SegStart(segs, i))
    ensures Accounts(ms, pass, segs[i].lo, GroupUpTo(pass, segs, i, i), segs[i].lo)
  {
    hide Segmented, SegmentOf;
    SegmentAt(ms, segs, i);
    ShownByNone(ms, pass);
  }

  /**
   * In a modified block, the rows of a pass show exactly the pass's bytes up to the last newline it sees
   * in the block; groups without a row hold none.
   */
  lemma {:induction false} BlockShows(ms: seq<Mark>, segs: seq<LineInfo>, pass: Pass, i: nat, m: nat)
    requires Segmented(ms, segs) && i <= m <= |segs| && i < |segs| && pass != NormalPass
    ensures segs[i].lo == SegStart(segs, i) <= Clip(ms, SegStart(segs, m))
    ensures Accounts(ms, pass, segs[i].lo, GroupUpTo(pass, segs, i, m), Clip(ms, SegStart(segs, m)))
  {
    hide *;
    BlockShowsStart(ms, segs, pass, i);
    if i < m {
      BlockShows(ms, segs, pass, i, m - 1);
      GroupRowStart(ms, segs, pass, i, m - 1);
      SegmentAt(ms, segs, m - 1);
      GroupUnfold(pass, segs, i, m);
      AccountsStep(ms, pass, segs[i].lo, GroupUpTo(pass, segs, i, m - 1), segs[m - 1]);
    }
  }

  lemma GroupRowStart(ms: seq<Mark>, segs: seq<LineInfo>, pass: Pass, i: nat, m: nat)
    requires Segmented(ms, segs) && i <= m <= |segs| && i < |segs| && pass != NormalPass
    ensures segs[i].lo <= GroupUpTo(pass, segs, i, m).rowStart <= SegStart(segs, m)
  {
    GroupGood(ms, segs, pass, i, m);
  }

  lemma OtherPassStep(ms: seq<Mark>, pass: Pass, other: Pass, g: Group, s: LineInfo)
    requires pass != other && other != NormalPass && ShownBy(ms, pass, g.spans) == []
    ensures ShownBy(ms, pass, GroupStep(other, g, s).spans) == []
  {
    hide ShownBy;
    var sp := Span(g.rowStart, s.hi, other);
    ShownByAppend(ms, pass, g.spans, [sp]);
    ShownByOne(ms, pass, sp);
    NilRight(g.spans);
  }

  /** Rows of one pass show nothing of the other version. */
  lemma {:induction false} OtherPassShowsNothing(ms: seq<Mark>, segs: seq<LineInfo>, pass: Pass, other: Pass,
      i: nat, m: nat)
    requires i <= m <= |segs| && i < |segs| && pass != other && other != NormalPass
    ensures ShownBy(ms, pass, GroupUpTo(other, segs, i, m).spans) == []
  {
    if i == m {
      ShownByNone(ms, pass);
    } else {
      hide *;
      OtherPassShowsNothing(ms, segs, pass, other, i, m - 1);
      OtherPassStep(ms, pass, other, GroupUpTo(other, segs, i, m - 1), segs[m - 1]);
      GroupUnfold(other, segs, i, m);
    }
  }

  /** What a block shows of a version: its bytes up to the last newline the version's pass sees. */
  lemma BlockShown(ms: seq<Mark>, segs: seq<LineInfo>, pass: Pass, i: nat, j: nat)
    requires Segmented(ms, segs) && i < j <= |segs| && pass != NormalPass
    ensures
      var lo, end := SegStart(segs, i), Clip(ms, SegStart(segs, j));
      var row := Clip(ms, GroupUpTo(pass, segs, i, j).rowStart);
      && lo <= row <= end
      && ShownBy(ms, pass, GroupUpTo(RmPass, segs, i, j).spans + GroupUpTo(InPass, segs, i, j).spans)
         == Shown(ms, lo, row, pass)
  {
    SegmentAt(ms, segs, i);
    BlockShows(ms, segs, pass, i, j);
    hide ShownBy, GroupUpTo, Segmented;
    var r, n := GroupUpTo(RmPass, segs, i, j).spans, GroupUpTo(InPass, segs, i, j).spans;
    OtherPassShowsNothing(ms, segs, pass, if pass == RmPass then InPass else RmPass, i, j);
    ShownByAppend(ms, pass, r, n);
    NilLeft(ShownBy(ms, pass, n));
    NilRight(ShownBy(ms, pass, r));
  }

  /** From segment i on, no block has bytes of the version behind the last newline its pass sees. */
  ghost predicate Settled(ms: seq<Mark>, segs: seq<LineInfo>, pass: Pass, i: nat)
    requires i <= |segs|
    decreases |segs| - i
  {
    if i == |segs| then true
    else if Plain(segs[i]) then Settled(ms, segs, pass, i + 1)
    else
      var j := BlockEnd(segs, i + 1);
      var row, end := Clip(ms, GroupUpTo(pass, segs, i, j).rowStart), Clip(ms, SegStart(segs, j));
      row <= end && Shown(ms, row, end, pass) == [] && Settled(ms, segs, pass, j)
  }

  lemma SettledUnfold(ms: seq<Mark>, segs: seq<LineInfo>, pass: Pass, i: nat)
    requires i < |segs|
    ensures Plain(segs[i]) ==> Settled(ms, segs, pass, i) == Settled(ms, segs, pass, i + 1)
    ensures !Plain(segs[i]) ==>
              var j := BlockEnd(segs, i + 1);
              var row, end := Clip(ms, GroupUpTo(pass, segs, i, j).rowStart), Clip(ms, SegStart(segs, j));
              Settled(ms, segs, pass, i) <==>
              row <= end && Shown(ms, row, end, pass) == [] && Settled(ms, segs, pass, j)
  {
  }

  /** What the spans from i on show of a version: all of it when settled, and less when not. */
  ghost predicate WalkAccount(ms: seq<Mark>, segs: seq<LineInfo>, pass: Pass, i: nat)
    requires i <= |segs|
  {
    var lo, hi := Clip(ms, SegStart(segs, i)), Clip(ms, SegStart(segs, |segs|));
    lo <= hi &&
    var all, shown := Shown(ms, lo, hi, pass), ShownBy(ms, pass, WalkFrom(segs, i));
    if Settled(ms, segs, pass, i) then shown == all else |shown| < |all|
  }

  lemma {:induction false} WalkShows(ms: seq<Mark>, segs: seq<LineInfo>, pass: Pass, i: nat)
    requires Segmented(ms, segs) && i <= |segs| && pass != NormalPass
    ensures WalkAccount(ms, segs, pass, i)
    decreases |segs| - i
  {
    if i == |segs| {
      ShownByNone(ms, pass);
    } else {
      SegmentAt(ms, segs, i);
      WalkUnfold(segs, i);
      var j := if Plain(segs[i]) then i + 1 else BlockEnd(segs, i + 1);
      WalkShows(ms, segs, pass, j);
      if Plain(segs[i]) {
        PlainShows(ms, segs, pass, i);
      } else {
        BlockShown(ms, segs, pass, i, j);
        BlockAccount(ms, segs, pass, i, j);
      }
    }
  }

  /** An account carries over a first part of which `shown` is shown, out of `shown` and `rest`. */
  lemma AccountFrom(ms: seq<Mark>, segs: seq<LineInfo>, pass: Pass, i: nat, j: nat, shown: seq<byte>, rest: seq<byte>)
    requires i <= j <= |segs| && WalkAccount(ms, segs, pass, j)
    requires Clip(ms, SegStart(segs, i)) <= Clip(ms, SegStart(segs, j))
    requires ShownBy(ms, pass, WalkFrom(segs, i)) == shown + ShownBy(ms, pass, WalkFrom(segs, j))
    requires Shown(ms, Clip(ms, SegStart(segs, i)), Clip(ms, SegStart(segs, j)), pass) == shown + rest
    requires Settled(ms, segs, pass, i) <==> rest == [] && Settled(ms, segs, pass, j)
    ensures WalkAccount(ms, segs, pass, i)
  {
    hide ShownBy, Shown, WalkFrom, Settled, SegStart;
    var lo, mid, hi := Clip(ms, SegStart(segs, i)), Clip(ms, SegStart(segs, j)), Clip(ms, SegStart(segs, |segs|));
    ShownSplits(ms, lo, mid, hi, pass);
    NilRight(shown);
  }

  lemma PlainShows(ms: seq<Mark>, segs: seq<LineInfo>, pass: Pass, i: nat)
    requires Segmented(ms, segs) && i < |segs| && pass != NormalPass && Plain(segs[i])
    requires WalkAccount(ms, segs, pass, i + 1)
    ensures WalkAccount(ms, segs, pass, i)
  {
    hide *;
    SegmentAt(ms, segs, i);
    WalkUnfold(segs, i);
    SettledUnfold(ms, segs, pass, i);
    PlainShown(ms, pass, segs[i]);
    var shown, sp := Shown(ms, segs[i].lo, segs[i].hi, pass), Span(segs[i].lo, segs[i].hi, NormalPass);
    ShownByAppend(ms, pass, [sp], WalkFrom(segs, i + 1));
    ShownNewline(ms, segs[i].lo, segs[i], pass);
    NilRight(shown);
    AccountFrom(ms, segs, pass, i, i + 1, shown, []);
  }

  lemma PlainShown(ms: seq<Mark>, pass: Pass, s: LineInfo)
    requires s.lo <= s.hi <= |ms|
    ensures ShownBy(ms, pass, [Span(s.lo, s.hi, NormalPass)]) == Shown(ms, s.lo, s.hi, pass)
  {
    hide ShownBy, Shown;
    ShownByOne(ms, pass, Span(s.lo, s.hi, NormalPass));
  }

  lemma BlockAccount(ms: seq<Mark>, segs: seq<LineInfo>, pass: Pass, i: nat, j: nat)
    requires Segmented(ms, segs) && i < |segs| && pass != NormalPass && !Plain(segs[i]) && j == BlockEnd(segs, i + 1)
    requires WalkAccount(ms, segs, pass, j)
    ensures WalkAccount(ms, segs, pass, i)
  {
    hide *;
    SegmentAt(ms, segs, i);
    WalkUnfold(segs, i);
    SettledUnfold(ms, segs, pass, i);
    BlockShown(ms, segs, pass, i, j);
    var r, n := GroupUpTo(RmPass, segs, i, j).spans, GroupUpTo(InPass, segs, i, j).spans;
    var lo, row, mid := SegStart(segs, i), Clip(ms, GroupUpTo(pass, segs, i, j).rowStart), Clip(ms, SegStart(segs, j));
    ShownByAppend(ms, pass, r + n, WalkFrom(segs, j));
    ShownSplits(ms, lo, row, mid, pass);
    AccountFrom(ms, segs, pass, i, j, Shown(ms, lo, row, pass), Shown(ms, row, mid, pass));
  }

  // ----- the main result on segments -----

  /** A byte string without its newlines. */
  ghost function Flattened(s: seq<byte>): seq<byte> {
    if s == [] then []
    else Flattened(s[..|s| - 1]) + if s[|s| - 1] == NEWLINE then [] else [s[|s| - 1]]
  }

  lemma FlattenedSnoc(s: seq<byte>, c: byte)
    ensures Flattened(s + [c]) == Flattened(s) + if c == NEWLINE then [] else [c]
  {
    AppendSnoc(s, [c]);
    NilRight(s);
  }

  /** What a pass shows of the whole text is its version, newlines dropped. */
  lemma {:induction false} ShownIsVersion(ms: seq<Mark>, n: nat)
    requires n <= |ms|
    ensures Shown(ms, 0, n, RmPass) == Flattened(OldText(ms[..n]))
    ensures Shown(ms, 0, n, InPass) == Flattened(NewText(ms[..n]))
  {
    if n > 0 {
      ShownIsVersion(ms, n - 1);
      TakeSnoc(ms, n - 1);
      var m := ms[n - 1];
      FlattenedSnoc(OldText(ms[..n - 1]), m.b);
      FlattenedSnoc(NewText(ms[..n - 1]), m.b);
      NilRight(OldText(ms[..n - 1]));
      NilRight(NewText(ms[..n - 1]));
      NilRight(Shown(ms, 0, n - 1, RmPass));
      NilRight(Shown(ms, 0, n - 1, InPass));
    }
  }

  /** The version of a text a pass shows. */
  ghost function Version(ms: seq<Mark>, pass: Pass): seq<byte> {
    if pass == RmPass then OldText(ms) else NewText(ms)
  }

  const LINEINFO_CAP: nat := 8192

  /** The segments the pager keeps. */
  ghost function Kept(ms: seq<Mark>): seq<LineInfo> {
    if |SegmentsOf(ms)| <= LINEINFO_CAP then SegmentsOf(ms) else SegmentsOf(ms)[..LINEINFO_CAP]
  }

  lemma KeptSegmented(ms: seq<Mark>)
    ensures Segmented(ms, Kept(ms)) && |Kept(ms)| <= LINEINFO_CAP
    ensures |SegmentsOf(ms)| <= LINEINFO_CAP ==> SegStart(Kept(ms), |Kept(ms)|) >= |ms|
  {
    SegmentsPartition(ms);
    var segs, kept := SegmentsOf(ms), Kept(ms);
    forall i | 0 <= i < |kept| ensures SegmentOf(ms, kept[i]) && kept[i].lo == SegStart(kept, i) {
      assert SegStart(kept, i) == SegStart(segs, i);
    }
  }

  /** Bytes of the version past the last segment kept; none when at most LINEINFO_CAP segments exist. */
  ghost function Beyond(ms: seq<Mark>, pass: Pass): seq<byte> {
    Shown(ms, Clip(ms, SegStart(Kept(ms), |Kept(ms)|)), |ms|, pass)
  }

  lemma NothingBeyond(ms: seq<Mark>, pass: Pass)
    requires |SegmentsOf(ms)| <= LINEINFO_CAP
    ensures Beyond(ms, pass) == []
  {
    KeptSegmented(ms);
  }

  /**
   * The spans of the pager, read in one pass, show the bytes of that version, all of them and in order,
   * exactly when no modified block has bytes of the version behind the last newline the pass sees, and
   * the version has no bytes past the last segment kept.
   */
  lemma PagerShowsVersion(ms: seq<Mark>, pass: Pass)
    requires pass != NormalPass
    ensures ShownBy(ms, pass, Walk(Kept(ms))) == Flattened(Version(ms, pass))
       <==> Settled(ms, Kept(ms), pass, 0) && Beyond(ms, pass) == []
  {
    hide ShownBy, Shown, WalkFrom, Segmented, Settled, Kept;
    KeptSegmented(ms);
    WalkShows(ms, Kept(ms), pass, 0);
    ShownIsVersion(ms, |ms|);
    assert ms[..|ms|] == ms;
    var end := Clip(ms, SegStart(Kept(ms), |Kept(ms)|));
    ShownSplits(ms, 0, end, |ms|, pass);
    NilRight(Shown(ms, 0, end, pass));
  }

  /** A removed byte before an inserted newline at the end of a block. */
  ghost function TailText(): seq<Mark> {
    [Mark(120, RM), Mark(NEWLINE, IN)]
  }

  /** That byte is shown in no row. */
  lemma ShownCanMiss()
    ensures ShownBy(TailText(), RmPass, Walk(Kept(TailText()))) != Flattened(OldText(TailText()))
  {
    var ms := TailText();
    var segs := [LineInfo(0, 1, 0, 1, 0, IN)];
    assert ScanUpTo(ms, 1) == Scan([], 0, 0, 1, 0);
    assert ScanUpTo(ms, 2) == Scan(segs, 2, 0, 0, 0);
    assert SegmentsOf(ms) == segs;
    assert BlockEnd(segs, 1) == 1;
    assert GroupUpTo(RmPass, segs, 0, 1) == GroupStep(RmPass, GroupUpTo(RmPass, segs, 0, 0), segs[0]);
    assert Shown(ms, 0, 1, RmPass) == Shown(ms, 0, 0, RmPass) + [120];
    assert Shown(ms, 0, 2, RmPass) == Shown(ms, 0, 1, RmPass) + [];
    PagerShowsVersion(ms, RmPass);
  }
}
