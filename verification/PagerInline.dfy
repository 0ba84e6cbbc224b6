/** Which stretches of a text the pager shows as they stand, told from the marked text alone (bro/BRO.c). */
module PagerInline {
  import opened Bytes
  import opened Tokens
  import opened PagerSegments

  /** A stretch between newlines or the ends of the text; an empty one has its newline behind it. */
  ghost predicate Stretch(ms: seq<Mark>, lo: nat, hi: nat) {
    && lo <= hi <= |ms| && lo < |ms| && NoNewline(ms, lo, hi)
    && (lo > 0 ==> ms[lo - 1].b == NEWLINE) && (hi < |ms| ==> ms[hi].b == NEWLINE)
  }

  /** No byte of it is changed, or fewer than a quarter are, and neither is the newline that ends it. */
  ghost predicate BarelyChanged(ms: seq<Mark>, lo: nat, hi: nat)
    requires lo <= hi <= |ms|
  {
    var changed := Count(ms, lo, hi, IN) + Count(ms, lo, hi, RM);
    (hi < |ms| ==> ms[hi].side == EQ) && (changed == 0 || changed * 4 < hi - lo)
  }

  lemma {:induction false} SidesSum(ms: seq<Mark>, lo: nat, hi: nat)
    requires lo <= hi <= |ms|
    ensures Count(ms, lo, hi, IN) + Count(ms, lo, hi, RM) + Count(ms, lo, hi, EQ) == hi - lo
  {
    if lo < hi {
      SidesSum(ms, lo, hi - 1);
    }
  }

  lemma PlainIff(ms: seq<Mark>, s: LineInfo)
    requires SegmentOf(ms, s)
    ensures Plain(s) <==> BarelyChanged(ms, s.lo, s.hi)
  {
    SidesSum(ms, s.lo, s.hi);
    hide Count;
  }

  /** How many newlines are in front of n. */
  ghost function Newlines(ms: seq<Mark>, n: nat): nat
    requires n <= |ms|
  {
    if n == 0 then 0 else Newlines(ms, n - 1) + if ms[n - 1].b == NEWLINE then 1 else 0
  }

  lemma {:induction false} NewlinesOver(ms: seq<Mark>, lo: nat, hi: nat)
    requires lo <= hi <= |ms| && NoNewline(ms, lo, hi)
    ensures Newlines(ms, hi) == Newlines(ms, lo)
  {
    if lo < hi {
      NewlinesOver(ms, lo, hi - 1);
    }
  }

  /** Segment i is a stretch with i newlines in front. */
  lemma {:induction false} SegmentIsStretch(ms: seq<Mark>, segs: seq<LineInfo>, i: nat)
    requires Segmented(ms, segs) && i < |segs|
    ensures SegmentOf(ms, segs[i]) && Stretch(ms, segs[i].lo, segs[i].hi) && Newlines(ms, segs[i].lo) == i
  {
    hide Segmented, Counts;
    SegmentAt(ms, segs, i);
    if i > 0 {
      SegmentIsStretch(ms, segs, i - 1);
      SegmentAt(ms, segs, i - 1);
      NewlinesOver(ms, segs[i - 1].lo, segs[i - 1].hi);
    }
  }

  /** A stretch starts where some segment does, and ends with it. */
  lemma {:induction false} StretchIsSegment(ms: seq<Mark>, segs: seq<LineInfo>, n: nat, lo: nat, hi: nat)
    returns (i: nat)
    requires Segmented(ms, segs) && Stretch(ms, lo, hi) && n <= |segs| && lo < SegStart(segs, n)
    ensures i < n && segs[i].lo == lo && segs[i].hi == hi
  {
    hide Segmented, Counts;
    SegmentAt(ms, segs, n - 1);
    if lo < segs[n - 1].lo {
      i := StretchIsSegment(ms, segs, n - 1, lo, hi);
    } else {
      i := n - 1;
    }
  }

  // ----- the walk's spans of the normal pass -----

  lemma {:induction false} GroupPass(pass: Pass, segs: seq<LineInfo>, i: nat, m: nat)
    requires i <= m <= |segs| && i < |segs|
    ensures forall sp :: sp in GroupUpTo(pass, segs, i, m).spans ==> sp.pass == pass
  {
    if i < m {
      GroupPass(pass, segs, i, m - 1);
    }
  }

  lemma {:induction false} BlockHasNoPlain(segs: seq<LineInfo>, j: nat)
    requires j <= |segs|
    ensures forall k :: j <= k < BlockEnd(segs, j) ==> !Plain(segs[k])
    decreases |segs| - j
  {
    if j < |segs| && !Plain(segs[j]) {
      BlockHasNoPlain(segs, j + 1);
    }
  }

  ghost predicate PlainFrom(segs: seq<LineInfo>, i: nat, lo: nat, hi: nat) {
    exists k :: i <= k < |segs| && Plain(segs[k]) && segs[k].lo == lo && segs[k].hi == hi
  }

  lemma PlainSkips(segs: seq<LineInfo>, i: nat, j: nat, lo: nat, hi: nat)
    requires i <= j && forall k :: i <= k < j && k < |segs| ==> !Plain(segs[k])
    ensures PlainFrom(segs, i, lo, hi) <==> PlainFrom(segs, j, lo, hi)
  {
    hide Plain;
  }

  lemma PlainFirst(segs: seq<LineInfo>, i: nat, lo: nat, hi: nat)
    requires i < |segs| && Plain(segs[i])
    ensures PlainFrom(segs, i, lo, hi) <==> (segs[i].lo == lo && segs[i].hi == hi) || PlainFrom(segs, i + 1, lo, hi)
  {
    hide Plain;
  }

  lemma InJoined(sp: Span, a: seq<Span>, b: seq<Span>)
    ensures sp in a + b <==> sp in a || sp in b
  {
  }

  lemma {:induction false} NormalSpans(segs: seq<LineInfo>, i: nat, lo: nat, hi: nat)
    requires i <= |segs|
    ensures Span(lo, hi, NormalPass) in WalkFrom(segs, i) <==> PlainFrom(segs, i, lo, hi)
    decreases |segs| - i
  {
    if i < |segs| {
      hide Plain, BlockEnd, WalkFrom, GroupUpTo, PlainFrom;
      WalkUnfold(segs, i);
      var sp := Span(lo, hi, NormalPass);
      if Plain(segs[i]) {
        NormalSpans(segs, i + 1, lo, hi);
        PlainFirst(segs, i, lo, hi);
        InJoined(sp, [Span(segs[i].lo, segs[i].hi, NormalPass)], WalkFrom(segs, i + 1));
      } else {
        var j := BlockEnd(segs, i + 1);
        BlockHasNoPlain(segs, i + 1);
        PlainSkips(segs, i, j, lo, hi);
        GroupPass(RmPass, segs, i, j);
        GroupPass(InPass, segs, i, j);
        NormalSpans(segs, j, lo, hi);
        var r, n := GroupUpTo(RmPass, segs, i, j).spans, GroupUpTo(InPass, segs, i, j).spans;
        InJoined(sp, r, n);
        InJoined(sp, r + n, WalkFrom(segs, j));
      }
    }
  }

  /** A stretch is among the segments kept when fewer newlines than that are in front of it. */
  lemma StretchKept(ms: seq<Mark>, lo: nat, hi: nat) returns (i: nat)
    requires Stretch(ms, lo, hi)
    ensures i < |SegmentsOf(ms)| && SegmentsOf(ms)[i].lo == lo && SegmentsOf(ms)[i].hi == hi
    ensures i == Newlines(ms, lo)
    ensures i < LINEINFO_CAP ==> i < |Kept(ms)| && Kept(ms)[i] == SegmentsOf(ms)[i]
  {
    hide SegmentsOf, SegmentOf, Segmented;
    SegmentsPartition(ms);
    i := StretchIsSegment(ms, SegmentsOf(ms), |SegmentsOf(ms)|, lo, hi);
    SegmentIsStretch(ms, SegmentsOf(ms), i);
  }

  /**
   * The walk hands a stretch over as it stands, in the normal pass, exactly when it is at most barely changed and it is
   * one of the first 8192; it hands over nothing else in that pass.
   */
  lemma InlineIff(ms: seq<Mark>, lo: nat, hi: nat)
    ensures Span(lo, hi, NormalPass) in Walk(Kept(ms)) <==>
      Stretch(ms, lo, hi) && BarelyChanged(ms, lo, hi) && Newlines(ms, lo) < LINEINFO_CAP
  {
    hide SegmentOf, Segmented, Plain, WalkFrom, BarelyChanged, Kept, Newlines, NoNewline;
    var segs := Kept(ms);
    KeptSegmented(ms);
    NormalSpans(segs, 0, lo, hi);
    if PlainFrom(segs, 0, lo, hi) {
      var k :| 0 <= k < |segs| && Plain(segs[k]) && segs[k].lo == lo && segs[k].hi == hi;
      SegmentIsStretch(ms, segs, k);
      PlainIff(ms, segs[k]);
    }
    if Stretch(ms, lo, hi) && BarelyChanged(ms, lo, hi) && Newlines(ms, lo) < LINEINFO_CAP {
      var i := StretchKept(ms, lo, hi);
      SegmentIsStretch(ms, segs, i);
      PlainIff(ms, segs[i]);
      assert Plain(segs[i]);
    }
  }

  // ----- no empty rows in a block -----

  ghost predicate ShowsBytes(ms: seq<Mark>, sp: Span) {
    sp.lo <= sp.end <= |ms| && Shown(ms, sp.lo, sp.end, sp.pass) != []
  }

  lemma GroupShowsStep(ms: seq<Mark>, pass: Pass, lo: nat, g: Group, s: LineInfo)
    requires pass != NormalPass && SegmentOf(ms, s) && lo <= s.lo && g.rowStart <= s.lo
    requires Accounts(ms, pass, lo, g, s.lo) && forall sp :: sp in g.spans ==> ShowsBytes(ms, sp)
    ensures forall sp :: sp in GroupStep(pass, g, s).spans ==> ShowsBytes(ms, sp)
  {
    hide ShownBy, Shown, Plain;
    ShownCount(ms, s.lo, s.hi, pass);
    ShownSplits(ms, g.rowStart, s.lo, s.hi, pass);
  }

  lemma {:induction false} GroupShows(ms: seq<Mark>, segs: seq<LineInfo>, pass: Pass, i: nat, m: nat)
    requires Segmented(ms, segs) && i <= m <= |segs| && i < |segs| && pass != NormalPass
    ensures forall sp :: sp in GroupUpTo(pass, segs, i, m).spans ==> ShowsBytes(ms, sp)
  {
    if i < m {
      hide *;
      GroupShows(ms, segs, pass, i, m - 1);
      BlockShows(ms, segs, pass, i, m - 1);
      GroupRowStart(ms, segs, pass, i, m - 1);
      SegmentAt(ms, segs, m - 1);
      SegmentAt(ms, segs, i);
      GroupUnfold(pass, segs, i, m);
      GroupShowsStep(ms, pass, segs[i].lo, GroupUpTo(pass, segs, i, m - 1), segs[m - 1]);
    }
  }

  /** Every row of an old or a new pass shows at least one byte. */
  lemma {:induction false} NoEmptyRows(ms: seq<Mark>, segs: seq<LineInfo>, i: nat)
    requires Segmented(ms, segs) && i <= |segs|
    ensures forall sp :: sp in WalkFrom(segs, i) && sp.pass != NormalPass ==> ShowsBytes(ms, sp)
    decreases |segs| - i
  {
    if i < |segs| {
      hide Plain, BlockEnd, WalkFrom, GroupUpTo, ShowsBytes, Segmented;
      WalkUnfold(segs, i);
      if Plain(segs[i]) {
        NoEmptyRows(ms, segs, i + 1);
      } else {
        var j := BlockEnd(segs, i + 1);
        GroupShows(ms, segs, RmPass, i, j);
        GroupShows(ms, segs, InPass, i, j);
        NoEmptyRows(ms, segs, j);
      }
    }
  }
}
