/** What the rendered body of a diff says about both versions, and the renderer itself (dog/HUNK.c). */
module BodyLaws {
  import opened Seqs
  import opened Bytes
  import opened Lines
  import opened Tokens
  import opened Pairing
  import opened BodyLines
  import opened Regions
  import opened RegionLaws
  import opened LineMachine

  ghost predicate FitsNew(trace: seq<Event>) {
    forall k :: 0 <= k < |trace| && trace[k].Region? ==> |CutOf(trace[k].dels, trace[k].adds).adds| <= REGION_MAX
  }

  ghost predicate FitsOld(trace: seq<Event>) {
    forall k :: 0 <= k < |trace| && trace[k].Region? ==> |CutOf(trace[k].dels, trace[k].adds).dels| <= REGION_MAX
  }

  /** In every region the paired '-' lines come first and in the order of their partners. */
  ghost predicate AllInOrder(trace: seq<Event>) {
    forall k :: 0 <= k < |trace| && trace[k].Region? ==>
                  InOrder(PairingOf(CutOf(trace[k].dels, trace[k].adds).dels,
                                    Capped(CutOf(trace[k].dels, trace[k].adds).adds)))
  }

  /** No '-' line is cut from the event, and its pairing moves '-' lines only to places of equal ones. */
  ghost predicate InPlace(e: Event) {
    e.Region? ==> var c := CutOf(e.dels, e.adds); |c.dels| <= REGION_MAX && MovesOnlyEqual(c.dels, Capped(c.adds))
  }

  ghost predicate AllInPlace(trace: seq<Event>) {
    forall k :: 0 <= k < |trace| ==> InPlace(trace[k])
  }

  lemma FitsStep(trace: seq<Event>, e: Event)
    ensures FitsNew(trace + [e]) <==>
            FitsNew(trace) && (e.Region? ==> |CutOf(e.dels, e.adds).adds| <= REGION_MAX)
    ensures FitsOld(trace + [e]) <==>
            FitsOld(trace) && (e.Region? ==> |CutOf(e.dels, e.adds).dels| <= REGION_MAX)
    ensures AllInPlace(trace + [e]) <==> AllInPlace(trace) && InPlace(e)
  {
    hide CutOf, InPlace;
    var t := trace + [e];
    assert t[|trace|] == e && forall k :: 0 <= k < |trace| ==> t[k] == trace[k];
  }

  lemma BodyMore(trace: seq<Event>, e: Event)
    ensures Body(trace + [e]) == Body(trace) + Emit(e)
  {
    FlatAppend(Emit, trace, [e]);
    FlatOne(Emit, e);
  }

  lemma EmitOld(e: Event)
    ensures e.Region? && |CutOf(e.dels, e.adds).dels| > REGION_MAX ==> |OldSide(Emit(e))| < |EventOld(e)|
    ensures e.Context? || |CutOf(e.dels, e.adds).dels| <= REGION_MAX ==>
              multiset(OldSide(Emit(e))) == multiset(EventOld(e)) && |OldSide(Emit(e))| == |EventOld(e)|
  {
    hide CutOf, OldSide, EmitRegion;
    if e.Region? {
      RegionOldSide(e.dels, e.adds);
    } else {
      SidesOne(BodyLine(SPACE, e.line));
    }
  }

  /** How many '+' lines of an event are cut. */
  ghost function LostBy(e: Event): nat {
    if e.Region? && |CutOf(e.dels, e.adds).adds| > REGION_MAX then |CutOf(e.dels, e.adds).adds| - REGION_MAX else 0
  }

  ghost function Lost(trace: seq<Event>): nat {
    if trace == [] then 0 else Lost(trace[..|trace| - 1]) + LostBy(trace[|trace| - 1])
  }

  /** Where among the new lines handed over the last event that loses any has its first cut line. */
  ghost function CutAt(trace: seq<Event>): nat {
    if trace == [] then 0
    else
      var t, e := trace[..|trace| - 1], trace[|trace| - 1];
      if LostBy(e) > 0 then |TraceNew(t)| + |CutOf(e.dels, e.adds).head| + REGION_MAX else CutAt(t)
  }

  ghost function Without<T>(s: seq<T>, k: nat): seq<T>
    requires k < |s|
  {
    s[..k] + s[k + 1..]
  }

  lemma WithoutIn<T>(a: seq<T>, b: seq<T>, k: nat)
    requires k < |a + b|
    ensures k < |a| ==> Without(a + b, k) == Without(a, k) + b
    ensures k >= |a| ==> Without(a + b, k) == a + Without(b, k - |a|)
  {
  }

  /** An event's new lines read back but for those that are cut. */
  lemma EmitNew(e: Event)
    ensures |NewSide(Emit(e))| + LostBy(e) == |EventNew(e)|
    ensures LostBy(e) == 0 ==> NewSide(Emit(e)) == EventNew(e)
    ensures LostBy(e) == 1 ==> var k := |CutOf(e.dels, e.adds).head| + REGION_MAX;
      k < |EventNew(e)| && NewSide(Emit(e)) == Without(EventNew(e), k)
  {
    hide CutOf, NewSide, EmitRegion;
    if e.Region? {
      var c := CutOf(e.dels, e.adds);
      RegionNew(e.dels, e.adds);
      CutJoins(e.dels, e.adds);
      if LostBy(e) == 1 {
        LastCut(c.head, c.adds, c.tail);
      }
    } else {
      SidesOne(BodyLine(SPACE, e.line));
    }
  }

  lemma LastCut(head: seq<Line>, adds: seq<Line>, tail: seq<Line>)
    requires |adds| == REGION_MAX + 1
    ensures head + Capped(adds) + tail == Without(head + adds + tail, |head| + REGION_MAX)
  {
    WithoutIn(head + adds, tail, |head| + REGION_MAX);
    WithoutIn(head, adds, |head| + REGION_MAX);
    NilRight(Capped(adds));
    assert adds[REGION_MAX + 1..] == [];
  }

  /** Reading the body keeps the new lines handed over but for those that are cut; if one is, CutAt says which. */
  ghost predicate KeepsNew(trace: seq<Event>) {
    && |NewSide(Body(trace))| + Lost(trace) == |TraceNew(trace)|
    && (FitsNew(trace) <==> Lost(trace) == 0)
    && (Lost(trace) == 0 ==> NewSide(Body(trace)) == TraceNew(trace))
    && (Lost(trace) == 1 ==>
         CutAt(trace) < |TraceNew(trace)| && NewSide(Body(trace)) == Without(TraceNew(trace), CutAt(trace)))
  }

  lemma {:induction false} BodyNew(trace: seq<Event>)
    ensures KeepsNew(trace)
  {
    if trace == [] {
      OnNothing();
    } else {
      hide KeepsNew;
      InitLast(trace);
      BodyNew(trace[..|trace| - 1]);
      BodyNewStep(trace[..|trace| - 1], trace[|trace| - 1]);
    }
  }

  lemma BodyNewStep(t: seq<Event>, e: Event)
    requires KeepsNew(t)
    ensures KeepsNew(t + [e])
  {
    hide CutOf, NewSide, OldSide, TraceNew, Body, FitsNew, Emit, EventNew, Without, Lost, LostBy, CutAt;
    LostStep(t, e);
    BodyMore(t, e);
    FitsStep(t, e);
    TraceMore(t, e);
    EmitNew(e);
    NewAppend(Body(t), Emit(e));
    if Lost(t + [e]) == 1 {
      WithoutIn(TraceNew(t), EventNew(e), CutAt(t + [e]));
    }
  }

  lemma LostStep(t: seq<Event>, e: Event)
    ensures Lost(t + [e]) == Lost(t) + LostBy(e)
    ensures CutAt(t + [e]) ==
      if LostBy(e) > 0 then |TraceNew(t)| + |CutOf(e.dels, e.adds).head| + REGION_MAX else CutAt(t)
    ensures LostBy(e) == 0 <==> (e.Region? ==> |CutOf(e.dels, e.adds).adds| <= REGION_MAX)
  {
    hide CutOf, TraceNew;
    AppendSnoc(t, [e]);
    NilRight(t);
  }

  /** Reading the body keeps the old lines handed over, each as often, unless a region was cut. */
  lemma {:induction false} BodyOld(trace: seq<Event>)
    ensures FitsOld(trace) ==> multiset(OldSide(Body(trace))) == multiset(TraceOld(trace))
    ensures |OldSide(Body(trace))| <= |TraceOld(trace)|
    ensures FitsOld(trace) <==> |OldSide(Body(trace))| == |TraceOld(trace)|
  {
    if trace != [] {
      hide CutOf, NewSide, OldSide, TraceOld, Body, FitsOld, Emit;
      var t, e := trace[..|trace| - 1], trace[|trace| - 1];
      InitLast(trace);
      BodyOld(t);
      BodyMore(t, e);
      FitsStep(t, e);
      TraceMore(t, e);
      EmitOld(e);
      OldAppend(Body(t), Emit(e));
    }
  }

  /** An event's old lines read back in order exactly when they are all in place. */
  lemma EmitOldOrder(e: Event)
    ensures OldSide(Emit(e)) == EventOld(e) <==> InPlace(e)
    ensures |OldSide(Emit(e))| <= |EventOld(e)|
  {
    hide OldSide, EmitRegion, MovesOnlyEqual, CutOf;
    if e.Region? {
      RegionOldOrder(e.dels, e.adds);
      RegionOldSide(e.dels, e.adds);
    } else {
      SidesOne(BodyLine(SPACE, e.line));
    }
  }

  /** The old lines handed over read back in order exactly when all of them are in place. */
  lemma {:induction false} BodyOldOrder(trace: seq<Event>)
    ensures OldSide(Body(trace)) == TraceOld(trace) <==> AllInPlace(trace)
  {
    if trace != [] {
      hide OldSide, TraceOld, Body, AllInPlace, InPlace, Emit;
      var t, e := trace[..|trace| - 1], trace[|trace| - 1];
      InitLast(trace);
      FitsStep(t, e);
      BodyOldOrder(t);
      BodyOld(t);
      BodyMore(t, e);
      TraceMore(t, e);
      OldAppend(Body(t), Emit(e));
      EmitOldOrder(e);
      SplitEqual(OldSide(Body(t)), OldSide(Emit(e)), TraceOld(t), EventOld(e));
    }
  }

  /** Two joined lists that are no longer part by part are equal exactly when their parts are. */
  lemma SplitEqual<T>(a: seq<T>, b: seq<T>, c: seq<T>, d: seq<T>)
    requires |a| <= |c| && |b| <= |d|
    ensures a + b == c + d <==> a == c && b == d
  {
    AppendParts(a, b);
    AppendParts(c, d);
    assert a + b == c + d ==> |a + b| == |c + d|;
  }

  /** In order is in place; when the '-' lines of every middle differ from each other, nothing else is. */
  lemma InOrderIsInPlace(trace: seq<Event>)
    ensures FitsOld(trace) && AllInOrder(trace) ==> AllInPlace(trace)
    ensures AllDistinct(trace) && AllInPlace(trace) ==> FitsOld(trace) && AllInOrder(trace)
  {
    hide CutOf, MovesOnlyEqual, InOrder, Distinct;
    forall k | 0 <= k < |trace| && trace[k].Region?
      ensures var c := CutOf(trace[k].dels, trace[k].adds);
        && (InOrder(PairingOf(c.dels, Capped(c.adds))) ==> MovesOnlyEqual(c.dels, Capped(c.adds)))
        && (Distinct(c.dels) && MovesOnlyEqual(c.dels, Capped(c.adds)) ==> InOrder(PairingOf(c.dels, Capped(c.adds))))
    {
      var c := CutOf(trace[k].dels, trace[k].adds);
      InOrderMovesNothing(c.dels, Capped(c.adds));
    }
    assert AllInPlace(trace) ==> forall k :: 0 <= k < |trace| ==> InPlace(trace[k]);
  }

  ghost predicate AllDistinct(trace: seq<Event>) {
    forall k :: 0 <= k < |trace| && trace[k].Region? ==> Distinct(CutOf(trace[k].dels, trace[k].adds).dels)
  }

  // ----- the body's lines hold no newline, so its bytes can be read back -----

  ghost predicate CleanEvent(e: Event) {
    match e
    case Region(dels, adds) => AllClean(dels) && AllClean(adds)
    case Context(line) => Clean(line)
  }

  ghost predicate CleanTrace(trace: seq<Event>) {
    forall k :: 0 <= k < |trace| ==> CleanEvent(trace[k])
  }

  ghost predicate CleanState(st: State) {
    && Clean(st.oldb) && Clean(st.newb) && AllClean(st.dels) && AllClean(st.adds) && CleanTrace(st.trace)
  }

  lemma CleanStep(st: State, m: Mark)
    requires CleanState(st)
    ensures CleanState(Step(st, m))
  {
  }

  lemma {:induction false} CleanRun(ms: seq<Mark>)
    ensures CleanState(Run(ms))
  {
    if ms != [] {
      CleanRun(ms[..|ms| - 1]);
      CleanStep(Run(ms[..|ms| - 1]), ms[|ms| - 1]);
    }
  }

  lemma {:induction false} CleanAdds(dl: seq<Line>, al: seq<Line>, m: Matching.Match, j: nat)
    requires Matching.Mutual(m, |dl|, |al|) && j <= |al| && AllClean(dl) && AllClean(al)
    ensures CleanBody(EmitAdds(dl, al, m, j))
  {
    if j > 0 {
      CleanAdds(dl, al, m, j - 1);
    }
  }

  lemma {:induction false} CleanUnpaired(dl: seq<Line>, m: Matching.Match, na: nat, i: nat)
    requires Matching.Mutual(m, |dl|, na) && i <= |dl| && AllClean(dl)
    ensures CleanBody(EmitUnpaired(dl, m, na, i))
  {
    if i > 0 {
      CleanUnpaired(dl, m, na, i - 1);
    }
  }

  lemma CleanRegion(dels: seq<Line>, adds: seq<Line>)
    requires AllClean(dels) && AllClean(adds)
    ensures CleanBody(EmitRegion(dels, adds))
  {
    CleanCut(dels, adds);
    hide CutOf, AllClean, EmitAdds, EmitUnpaired, Capped;
    var c := CutOf(dels, adds);
    var dl, al := Capped(c.dels), Capped(c.adds);
    CleanAdds(dl, al, PairingOf(dl, al), |al|);
    CleanUnpaired(dl, PairingOf(dl, al), |al|, |dl|);
  }

  lemma CleanCut(dels: seq<Line>, adds: seq<Line>)
    requires AllClean(dels) && AllClean(adds)
    ensures var c := CutOf(dels, adds);
      && AllClean(Capped(c.dels)) && AllClean(Capped(c.adds))
      && CleanBody(Tagged(SPACE, c.head)) && CleanBody(Tagged(SPACE, c.tail))
  {
    hide Similarity.CommonPrefix, Similarity.CommonSuffix, Clean, AllClean, CleanBody, Tagged;
    var p := Similarity.CommonPrefix(dels, adds);
    var n := Similarity.CommonSuffix(dels, adds, p);
    CleanSlice(dels, 0, p);
    CleanSlice(dels, p, |dels| - n);
    CleanSlice(adds, p, |adds| - n);
    CleanSlice(dels, |dels| - n, |dels|);
    CleanTagged(SPACE, CutOf(dels, adds).head);
    CleanTagged(SPACE, CutOf(dels, adds).tail);
    CleanCapped(CutOf(dels, adds).dels);
    CleanCapped(CutOf(dels, adds).adds);
  }

  lemma CleanSlice(ls: seq<Line>, i: nat, j: nat)
    requires AllClean(ls) && i <= j <= |ls|
    ensures AllClean(ls[i..j]) && (i == 0 ==> ls[i..j] == ls[..j]) && (j == |ls| ==> ls[i..j] == ls[i..])
  {
    hide Clean;
  }

  lemma CleanCapped(ls: seq<Line>)
    requires AllClean(ls)
    ensures AllClean(Capped(ls))
  {
    hide Clean;
  }

  lemma CleanTagged(p: byte, ls: seq<Line>)
    requires AllClean(ls) && p != NEWLINE
    ensures CleanBody(Tagged(p, ls))
  {
    hide Clean;
  }

  lemma {:induction false} CleanBodyOf(trace: seq<Event>)
    requires CleanTrace(trace)
    ensures CleanBody(Body(trace))
  {
    if trace != [] {
      hide Body, EmitRegion;
      var t, e := trace[..|trace| - 1], trace[|trace| - 1];
      InitLast(trace);
      CleanBodyOf(t);
      BodyMore(t, e);
      if e.Region? {
        CleanRegion(e.dels, e.adds);
      }
    } else {
      assert Body(trace) == [];
    }
  }

  /** The lines a reader of the body's bytes sees. */
  ghost function ReadBody(bytes: seq<byte>): seq<BodyLine> {
    Parsed(LinesOf(bytes))
  }

  lemma BodyReads(ms: seq<Mark>)
    ensures ReadBody(Render(Body(TraceOf(ms)))) == Body(TraceOf(ms))
  {
    CleanRun(ms);
    assert CleanTrace(TraceOf(ms));
    CleanBodyOf(TraceOf(ms));
    ParseRender(Body(TraceOf(ms)));
  }

  // ----- the main results -----

  /** Without the line that is cut, the lines handed over are those of the new version. */
  ghost predicate CutIsSpurious(ms: seq<Mark>) {
    var trace := TraceOf(ms);
    && Lost(trace) == 1 && CutAt(trace) < |TraceNew(trace)|
    && LinesOf(NewText(ms)) == Without(TraceNew(trace), CutAt(trace))
  }

  /**
   * One line is cut in all; the text ends in an old line beside which no new one is open; every new line before the cut
   * is shown as it is; and every one from the cut on is what is shown next.
   */
  ghost predicate CutsCancel(ms: seq<Mark>) {
    var k, ls, tail := CutAt(TraceOf(ms)), LinesOf(NewText(ms)), Rest(OldText(ms));
    var shown := ShownLines(ms) + [tail];
    && Lost(TraceOf(ms)) == 1
    && !OldTouched(ms) && !NewTouched(ms) && tail != [] && Rest(NewText(ms)) == []
    && k < |shown| == |ls| + 1
    && (forall j :: 0 <= j < k ==> ls[j] == shown[j])
    && (forall j :: k <= j < |ls| ==> ls[j] == shown[j + 1])
  }

  /**
   * Dropping the '-' lines of the body leaves exactly the lines of the new version, in order, if and only if either the
   * open lines agree at every unmarked newline and at the end, and no region's middle has more than REGION_MAX added
   * lines; or one line is cut, the last one shown is spurious, and the new lines in between repeat accordingly.
   */
  lemma NewVersionReadsBack(ms: seq<Mark>)
    ensures NewSide(ReadBody(Render(Body(TraceOf(ms))))) == LinesOf(NewText(ms))
       <==> (Agree(ms) && FitsNew(TraceOf(ms))) || CutsCancel(ms)
  {
    hide NewSide, ReadBody, Render, Body, TraceOf, TraceNew, Agree, FitsNew, LinesOf, Without, Lost, CutAt, CutsCancel;
    BodyReads(ms);
    BodyNew(TraceOf(ms));
    NewLinesTraced(ms);
    AtMostOneMore(ms);
    CutsCancelExactly(ms);
  }

  /** Only at the end can there be a line too many, and then it is an old line that no new one stands beside. */
  lemma AtMostOneMore(ms: seq<Mark>)
    ensures |TraceNew(TraceOf(ms))| <= |LinesOf(NewText(ms))| + 1
    ensures |TraceNew(TraceOf(ms))| == |LinesOf(NewText(ms))| + 1 <==>
      !OldTouched(ms) && !NewTouched(ms) && Rest(OldText(ms)) != [] && Rest(NewText(ms)) == []
  {
    hide OldSoFar, NewSoFar, Whole, Rest, OldText, NewText, OldTouched, NewTouched, TraceOld, TraceNew, Run;
    RunMirrors(ms);
    FinishTrace(Run(ms));
  }

  /** A cut line is made up for only where the text ends in such a line, and then the open lines do not agree. */
  lemma SpuriousAtTheEnd(ms: seq<Mark>)
    requires CutIsSpurious(ms)
    ensures !OldTouched(ms) && !NewTouched(ms) && Rest(OldText(ms)) != [] && Rest(NewText(ms)) == []
    ensures !Agree(ms) && !FitsNew(TraceOf(ms))
  {
    hide TraceOf, TraceNew, LinesOf, Rest, OldText, NewText, OldTouched, NewTouched, AgreeBefore, FitsNew, CutAt, Lost;
    AtMostOneMore(ms);
    BodyNew(TraceOf(ms));
  }

  /** The lines shown as new ones, told from the text: at an unmarked newline that ends no touched line, the old one. */
  ghost function ShownLines(ms: seq<Mark>): seq<Line> {
    if ms == [] then []
    else
      var t, m := ms[..|ms| - 1], ms[|ms| - 1];
      if m.b != NEWLINE || m.side == RM then ShownLines(t)
      else if m.side == EQ && !OldTouched(t) && !NewTouched(t) then ShownLines(t) + [Rest(OldText(t))]
      else ShownLines(t) + [Rest(NewText(t))]
  }

  lemma {:induction false} ShownAreHandedOver(ms: seq<Mark>)
    ensures NewSoFar(Run(ms)) == ShownLines(ms) && |ShownLines(ms)| == |Whole(NewText(ms))|
  {
    RunMirrors(ms);
    if ms == [] {
      OnNothing();
    } else {
      hide OldSoFar, NewSoFar, Whole, Rest, OldText, NewText, OldTouched, NewTouched, Run;
      var t, m := ms[..|ms| - 1], ms[|ms| - 1];
      InitLast(ms);
      ShownAreHandedOver(t);
      RunMirrors(t);
      ShownStep(t, m);
    }
  }

  lemma ShownStep(t: seq<Mark>, m: Mark)
    requires Mirrors(Run(t), t)
    ensures NewSoFar(Run(t + [m])) == NewSoFar(Run(t)) +
      if m.b != NEWLINE || m.side == RM then []
      else if m.side == EQ && !OldTouched(t) && !NewTouched(t) then [Rest(OldText(t))]
      else [Rest(NewText(t))]
  {
    hide OldSoFar, NewSoFar, Whole, Rest, OldText, NewText, OldTouched, NewTouched, AgreeBefore, Run;
    var st := Run(t);
    TextStep(t, m);
    NilRight(NewSoFar(st));
    SoFarOldLine(st);
    SoFarNewLine(st);
    SoFarNewLine(OldLine(st));
    SoFarContext(st);
    SoFarOpenLines(st);
    SoFarOpenLines(OldLine(st));
    SoFarOpenLines(NewLine(st));
    SoFarOpenLines(NewLine(OldLine(st)));
    SoFarOpenLines(ContextLine(st));
  }

  /** What it takes for cuts to cancel, told from the text. */
  lemma CutsCancelExactly(ms: seq<Mark>)
    ensures CutIsSpurious(ms) <==> CutsCancel(ms)
    ensures CutsCancel(ms) ==> !Agree(ms) && !FitsNew(TraceOf(ms))
  {
    hide TraceOf, TraceNew, Rest, Whole, OldText, NewText, OldTouched, NewTouched;
    hide CutAt, Lost, ShownLines, FitsNew, Agree;
    var k, tail := CutAt(TraceOf(ms)), Rest(OldText(ms));
    if !OldTouched(ms) && !NewTouched(ms) && tail != [] && Rest(NewText(ms)) == [] {
      TailHandedOver(ms);
      ShownAreHandedOver(ms);
      NilRight(Whole(NewText(ms)));
      if k <= |ShownLines(ms)| {
        WithoutIs(Whole(NewText(ms)), ShownLines(ms) + [tail], k);
      }
    }
    if CutIsSpurious(ms) {
      SpuriousAtTheEnd(ms);
    }
  }

  lemma WithoutIs<T>(s: seq<T>, t: seq<T>, k: nat)
    requires k < |t| == |s| + 1
    ensures s == Without(t, k) <==>
      (forall j :: 0 <= j < k ==> s[j] == t[j]) && (forall j :: k <= j < |s| ==> s[j] == t[j + 1])
  {
    var u := Without(t, k);
    assert forall j :: 0 <= j < k ==> u[j] == t[j];
    assert forall j :: k <= j < |s| ==> u[j] == t[j + 1];
  }

  /**
   * Where the open lines agree at every unmarked newline, cuts cancel exactly when one line is cut in all, the text
   * ends in an old line beside which no new one is open, and from the cut line on every new line is that old line.
   */
  lemma CutsCancelInTheText(ms: seq<Mark>)
    requires AgreeBefore(ms)
    ensures var k, ls, tail := CutAt(TraceOf(ms)), LinesOf(NewText(ms)), Rest(OldText(ms));
      CutsCancel(ms) <==>
        && Lost(TraceOf(ms)) == 1
        && !OldTouched(ms) && !NewTouched(ms) && tail != [] && Rest(NewText(ms)) == []
        && k <= |ls| && forall j :: k <= j < |ls| ==> ls[j] == tail
  {
    hide TraceOf, TraceNew, Rest, Whole, OldText, NewText, OldTouched, NewTouched, AgreeBefore, CutAt, Lost, CutsCancel;
    var k, tail := CutAt(TraceOf(ms)), Rest(OldText(ms));
    CutsCancelExactly(ms);
    if !OldTouched(ms) && !NewTouched(ms) && tail != [] && Rest(NewText(ms)) == [] {
      TailHandedOver(ms);
      NewLinesHandedOver(ms);
      NilRight(Whole(NewText(ms)));
      if k <= |Whole(NewText(ms))| {
        WithoutOne(Whole(NewText(ms)), tail, k);
      }
    } else if CutIsSpurious(ms) {
      SpuriousAtTheEnd(ms);
    }
  }

  lemma TailHandedOver(ms: seq<Mark>)
    requires !OldTouched(ms) && !NewTouched(ms) && Rest(OldText(ms)) != [] && Rest(NewText(ms)) == []
    ensures TraceNew(TraceOf(ms)) == NewSoFar(Run(ms)) + [Rest(OldText(ms))]
  {
    hide OldSoFar, NewSoFar, Whole, Rest, OldText, NewText;
    hide OldTouched, NewTouched, TraceOld, TraceNew, AgreeBefore, Run;
    RunMirrors(ms);
    FinishTrace(Run(ms));
  }

  /** Taking out element k leaves all but the last exactly when everything from k on equals the last. */
  lemma WithoutOne<T>(s: seq<T>, last: T, k: nat)
    requires k <= |s|
    ensures Without(s + [last], k) == s <==> forall j :: k <= j < |s| ==> s[j] == last
  {
    var t := Without(s + [last], k);
    assert forall j :: 0 <= j < k ==> t[j] == s[j];
    assert forall j :: k <= j < |s| ==> t[j] == (s + [last])[j + 1];
    if t == s {
      AllTheSame(s, last, k);
    }
  }

  lemma {:induction false} AllTheSame<T>(s: seq<T>, last: T, k: nat)
    requires k <= |s| && forall j :: k <= j < |s| ==> s[j] == (s + [last])[j + 1]
    ensures forall j :: k <= j < |s| ==> s[j] == last
    decreases |s| - k
  {
    if k < |s| {
      AllTheSame(s, last, k + 1);
      assert s[k] == (s + [last])[k + 1];
    }
  }

  /** Dropping the '+' lines leaves the lines of the old version, each as often, exactly when no '-' line is cut. */
  lemma OldVersionKept(ms: seq<Mark>)
    ensures multiset(OldSide(ReadBody(Render(Body(TraceOf(ms)))))) == multiset(LinesOf(OldText(ms)))
       <==> FitsOld(TraceOf(ms))
  {
    hide OldSide, ReadBody, Render, Body, TraceOf, TraceOld, FitsOld, LinesOf;
    BodyReads(ms);
    BodyOld(TraceOf(ms));
    OldLinesTraced(ms);
    var a, b := OldSide(Body(TraceOf(ms))), LinesOf(OldText(ms));
    assert |multiset(a)| == |a| && |multiset(b)| == |b|;
  }

  /**
   * Dropping the '+' lines leaves exactly the lines of the old version, in order, if and only if in every region no '-'
   * line is cut and the pairing moves '-' lines only to places of equal ones.
   */
  lemma OldVersionReadsBack(ms: seq<Mark>)
    ensures OldSide(ReadBody(Render(Body(TraceOf(ms))))) == LinesOf(OldText(ms)) <==> AllInPlace(TraceOf(ms))
  {
    hide OldSide, ReadBody, Render, Body, TraceOf, TraceOld, AllInPlace, LinesOf;
    BodyReads(ms);
    BodyOldOrder(TraceOf(ms));
    OldLinesTraced(ms);
  }

  /** Where the '-' lines of every middle differ, that is if and only if none is cut and every pairing is in order. */
  lemma OldVersionReadsBackInOrder(ms: seq<Mark>)
    requires AllDistinct(TraceOf(ms))
    ensures OldSide(ReadBody(Render(Body(TraceOf(ms))))) == LinesOf(OldText(ms))
       <==> FitsOld(TraceOf(ms)) && AllInOrder(TraceOf(ms))
  {
    hide *;
    OldVersionReadsBack(ms);
    InOrderIsInPlace(TraceOf(ms));
  }

  /** The counts of the header are the numbers of body lines of each side exactly when no line is cut. */
  lemma HeaderCounts(ms: seq<Mark>)
    ensures var out, f := ReadBody(Render(Body(TraceOf(ms)))), Finish(Run(ms));
      && (f.oldCount == |OldSide(out)| <==> FitsOld(TraceOf(ms)))
      && (f.newCount == |NewSide(out)| <==> FitsNew(TraceOf(ms)))
  {
    hide OldSide, NewSide, ReadBody, Render, Body, TraceOf, TraceOld, TraceNew, FitsOld, FitsNew, LinesOf, Finish, Run;
    BodyReads(ms);
    BodyNew(TraceOf(ms));
    BodyOld(TraceOf(ms));
    OldLinesTraced(ms);
  }

  // ----- old lines can come out in another order -----

  /** A line and its newline, all of one side. */
  ghost function Marked(l: Line, side: Side): seq<Mark> {
    if l == [] then [] else Marked(l[..|l| - 1], side) + [Mark(l[|l| - 1], side)]
  }

  lemma {:induction false} RunMarked(ms: seq<Mark>, l: Line)
    requires Clean(l) && Run(ms).oldb == [] && Run(ms).newb == []
    ensures Run(ms + Marked(l, RM)) == Run(ms).(oldb := l, oldDirty := l != [] || Run(ms).oldDirty)
    ensures Run(ms + Marked(l, IN)) == Run(ms).(newb := l, newDirty := l != [] || Run(ms).newDirty)
  {
    hide Run, AgreeBefore, OldTouched, NewTouched, OldText, NewText;
    if l == [] {
      NilRight(ms);
    } else {
      var n := |l| - 1;
      RunMarked(ms, l[..n]);
      InitLast(l);
      Assoc(ms, Marked(l[..n], RM), [Mark(l[n], RM)]);
      Assoc(ms, Marked(l[..n], IN), [Mark(l[n], IN)]);
      TextStep(ms + Marked(l[..n], RM), Mark(l[n], RM));
      TextStep(ms + Marked(l[..n], IN), Mark(l[n], IN));
    }
  }

  ghost function MarkedLine(l: Line, side: Side): seq<Mark> {
    Marked(l, side) + [Mark(NEWLINE, side)]
  }

  lemma RunMarkedLine(ms: seq<Mark>, l: Line)
    requires Clean(l) && Run(ms).oldb == [] && Run(ms).newb == [] && !Run(ms).oldDirty && !Run(ms).newDirty
    ensures Run(ms + MarkedLine(l, RM)) == OldLine(Run(ms).(oldb := l)).(oldb := [])
    ensures Run(ms + MarkedLine(l, IN)) == NewLine(Run(ms).(newb := l)).(newb := [])
  {
    hide Run, AgreeBefore, OldTouched, NewTouched, OldText, NewText;
    RunMarked(ms, l);
    Assoc(ms, Marked(l, RM), [Mark(NEWLINE, RM)]);
    Assoc(ms, Marked(l, IN), [Mark(NEWLINE, IN)]);
    TextStep(ms + Marked(l, RM), Mark(NEWLINE, RM));
    TextStep(ms + Marked(l, IN), Mark(NEWLINE, IN));
  }

  const X: Line := [120]
  const AAAB: Line := [97, 97, 97, 98]
  const AAAC: Line := [97, 97, 97, 99]

  /** Lines `x` and `aaab` removed, line `aaac` inserted. */
  ghost function SwappingText(): seq<Mark> {
    MarkedLine(X, RM) + MarkedLine(AAAB, RM) + MarkedLine(AAAC, IN)
  }

  lemma SwappingIsClean()
    ensures Clean(X) && Clean(AAAB) && Clean(AAAC)
  {
  }

  lemma SwappingRun()
    ensures Run(SwappingText()) == State([], [], false, false, [X] + [AAAB], [AAAC], [], 2, 1)
  {
    hide Run, MarkedLine, Clean, X, AAAB, AAAC, AgreeBefore, OldTouched;
    SwappingIsClean();
    OnNothing();
    var x, y := MarkedLine(X, RM), MarkedLine(AAAB, RM);
    RunMarkedLine([], X);
    NilLeft(x);
    NilLeft([X]);
    RunMarkedLine(x, AAAB);
    RunMarkedLine(x + y, AAAC);
    NilLeft([AAAC]);
  }

  lemma SwappingTrace()
    ensures TraceOf(SwappingText()) == [Region([X] + [AAAB], [AAAC])]
  {
    hide Run, X, AAAB, AAAC, SwappingText;
    SwappingRun();
    NilLeft([Region([X] + [AAAB], [AAAC])]);
  }

  /** The body cannot always be applied as a patch: here the removed line `aaab` is printed before `x`. */
  lemma OldOrderCanBreak()
    ensures FitsOld(TraceOf(SwappingText()))
    ensures OldSide(ReadBody(Render(Body(TraceOf(SwappingText()))))) != LinesOf(OldText(SwappingText()))
  {
    SwappingBreaks();
    hide *;
    OldVersionReadsBack(SwappingText());
  }

  lemma SwappingBreaks()
    ensures FitsOld(TraceOf(SwappingText())) && !AllInPlace(TraceOf(SwappingText()))
  {
    hide CutOf, MovesOnlyEqual, SwappingText, TraceOf, X, AAAB, AAAC, FitsOld, AllInPlace;
    SwappingTrace();
    SwappingLines();
    OneRegion([X] + [AAAB], [AAAC]);
  }

  lemma SwappingLines()
    ensures var dels, adds := [X] + [AAAB], [AAAC];
      |dels| == 2 && CutOf(dels, adds).dels == dels && CutOf(dels, adds).adds == adds && !MovesOnlyEqual(dels, adds)
  {
    hide CutOf, MovesOnlyEqual;
    SwappedLines();
    assert [X] + [AAAB] == [X, AAAB];
  }

  lemma OneRegion(dels: seq<Line>, adds: seq<Line>)
    ensures AllInPlace([Region(dels, adds)]) <==> InPlace(Region(dels, adds))
    ensures FitsOld([Region(dels, adds)]) <==> |CutOf(dels, adds).dels| <= REGION_MAX
  {
    hide CutOf, InPlace;
    assert [Region(dels, adds)][0] == Region(dels, adds);
  }

  // ----- new lines can get lost -----

  /** A text on which a new line is lost: `a`, a removed newline, `b`, a newline. */
  ghost function LostLineText(): seq<Mark> {
    [Mark(97, EQ)] + [Mark(NEWLINE, RM)] + [Mark(98, EQ)] + [Mark(NEWLINE, EQ)]
  }

  lemma RunStep(ms: seq<Mark>, m: Mark, next: State)
    requires Step(Run(ms), m) == next
    ensures Run(ms + [m]) == next
    ensures AgreeBefore(ms + [m]) ==> (m == Mark(NEWLINE, EQ) ==> OpenLinesAgree(ms))
  {
    TextStep(ms, m);
  }

  lemma LostLineRun()
    ensures Run([Mark(97, EQ)] + [Mark(NEWLINE, RM)] + [Mark(98, EQ)])
         == State([98], [97, 98], false, false, [[97]], [], [], 1, 0)
  {
    hide Run;
    var none: seq<Mark>, a: Line, noLines: seq<Line> := [], [97], [];
    assert Run(none) == INITIAL by { OnNothing(); }
    RunStep(none, Mark(97, EQ), State(a, a, false, false, [], [], [], 0, 0));
    NilLeft([Mark(97, EQ)]);
    NilLeft([a]);
    RunStep([Mark(97, EQ)], Mark(NEWLINE, RM), State([], a, false, false, [a], [], [], 1, 0));
    RunStep([Mark(97, EQ)] + [Mark(NEWLINE, RM)], Mark(98, EQ), State([98], [97, 98], false, false, [a], [], [], 1, 0));
  }

  lemma OnNothing()
    ensures Run([]) == INITIAL && AgreeBefore([]) && !OldTouched([])
    ensures TraceNew([]) == [] && Body([]) == [] && NewSide([]) == []
  {
  }

  lemma LostLineTrace()
    ensures TraceOf(LostLineText()) == [Region([[97]], []), Context([98]), Region([], [])]
    ensures !Agree(LostLineText())
  {
    hide Run, AgreeBefore, OldText, NewText, OldTouched, NewTouched, Rest;
    var ms := [Mark(97, EQ)] + [Mark(NEWLINE, RM)] + [Mark(98, EQ)];
    LostLineRun();
    RunMirrors(ms);
    assert !OpenLinesAgree(ms) by {
      assert Rest(OldText(ms))[0] != Rest(NewText(ms))[0];
    }
    var trace := [Region([[97]], [])] + [Context([98])];
    RunStep(ms, Mark(NEWLINE, EQ), State([], [], false, false, [], [], trace, 2, 1));
  }

  /** The side condition is needed: here the open lines differ at the end, and the new line `ab` is lost. */
  lemma NewLineCanBeLost()
    ensures FitsNew(TraceOf(LostLineText()))
    ensures NewSide(ReadBody(Render(Body(TraceOf(LostLineText()))))) != LinesOf(NewText(LostLineText()))
  {
    hide *;
    LostLineTrace();
    NewVersionReadsBack(LostLineText());
    LostLineFits();
    NothingCancels(LostLineText());
  }

  lemma NothingCancels(ms: seq<Mark>)
    ensures FitsNew(TraceOf(ms)) ==> !CutsCancel(ms)
  {
    hide TraceOf, FitsNew, CutAt, Lost;
    BodyNew(TraceOf(ms));
  }

  lemma LostLineFits()
    ensures FitsNew([Region([[97]], []), Context([98]), Region([], [])])
  {
    hide CutOf;
    OnlyRemoved([[97]]);
    OnlyRemoved([]);
  }

  lemma OnlyRemoved(dels: seq<Line>)
    ensures |CutOf(dels, []).adds| == 0
  {
  }

  // ----- both conditions can fail unnoticed -----

  /** n inserted lines `x`. */
  ghost function InsertedLines(n: nat): seq<Mark> {
    if n == 0 then [] else InsertedLines(n - 1) + [Mark(120, IN)] + [Mark(NEWLINE, IN)]
  }

  ghost function Copies(n: nat): seq<Line> {
    if n == 0 then [] else Copies(n - 1) + [[120]]
  }

  lemma {:induction false} CopiesAre(n: nat, k: nat)
    requires k <= n
    ensures |Copies(n)| == n && Copies(n)[..k] == Copies(k)
  {
    if k < n {
      CopiesAre(n - 1, k);
    } else if n > 0 {
      CopiesAre(n - 1, n - 1);
    }
  }

  lemma {:induction false} RunInserted(n: nat)
    ensures Run(InsertedLines(n)) == State([], [], false, false, [], Copies(n), [], 0, n)
    ensures AgreeBefore(InsertedLines(n)) && !OldTouched(InsertedLines(n))
  {
    hide Run, AgreeBefore, OldTouched, NewTouched, OldText, NewText;
    if n == 0 {
      assert Run([]) == INITIAL && AgreeBefore([]) && !OldTouched([]) by { OnNothing(); }
    } else {
      var before := InsertedLines(n - 1);
      RunInserted(n - 1);
      TextStep(before, Mark(120, IN));
      TextStep(before + [Mark(120, IN)], Mark(NEWLINE, IN));
      NilLeft([120]);
    }
  }

  /** One more inserted line than a region prints, then an unmarked `x` whose newline is inserted. */
  ghost function CancellingText(): seq<Mark> {
    InsertedLines(REGION_MAX) + [Mark(120, EQ)] + [Mark(NEWLINE, IN)]
  }

  lemma CancellingRun()
    ensures Run(CancellingText()) == State([120], [], false, false, [], Copies(REGION_MAX + 1), [], 0, REGION_MAX + 1)
    ensures AgreeBefore(CancellingText()) && !OldTouched(CancellingText()) && !NewTouched(CancellingText())
  {
    hide Run, AgreeBefore, OldTouched, NewTouched, OldText, NewText;
    var before := InsertedLines(REGION_MAX);
    RunInserted(REGION_MAX);
    TextStep(before, Mark(120, EQ));
    TextStep(before + [Mark(120, EQ)], Mark(NEWLINE, IN));
    NilLeft([120]);
    assert Copies(REGION_MAX) + [[120]] == Copies(REGION_MAX + 1);
  }

  lemma CancellingTrace()
    ensures TraceOf(CancellingText()) == [Region([], Copies(REGION_MAX + 1)), Context([120]), Region([], [])]
    ensures !Agree(CancellingText())
    ensures LinesOf(NewText(CancellingText())) == Copies(REGION_MAX + 1)
  {
    hide Run, AgreeBefore, OldText, NewText, OldTouched, NewTouched, Rest, Whole, TraceNew, Copies, CancellingText;
    var ms := CancellingText();
    CancellingRun();
    RunMirrors(ms);
    NewLinesHandedOver(ms);
    assert TraceNew([]) == [] by { OnNothing(); }
    NilLeft(Copies(REGION_MAX + 1));
    NilRight(Copies(REGION_MAX + 1));
  }

  lemma OnlyAdded(adds: seq<Line>)
    ensures CutOf([], adds).adds == adds
    ensures NewSide(EmitRegion([], adds)) == Capped(adds)
  {
    hide NewSide, EmitRegion, Capped;
    var c := CutOf([], adds);
    RegionNew([], adds);
    assert c.head == [] && c.tail == [] && c.adds == adds;
    hide CutOf;
    NilLeft(Capped(adds));
    NilRight(Capped(adds));
  }

  /** Cuts do cancel: here one line is cut and the last one is spurious, and the new version still reads back. */
  lemma FailuresCanCancel()
    ensures !Agree(CancellingText()) && !FitsNew(TraceOf(CancellingText()))
    ensures NewSide(ReadBody(Render(Body(TraceOf(CancellingText()))))) == LinesOf(NewText(CancellingText()))
  {
    hide NewSide, ReadBody, Render, Body, TraceOf, Agree, LinesOf, NewText, CancellingText, Copies, CutOf, EmitRegion;
    var ms, adds := CancellingText(), Copies(REGION_MAX + 1);
    var trace := [Region([], adds)] + [Context([120])] + [Region([], [])];
    CancellingTrace();
    CopiesAre(REGION_MAX + 1, REGION_MAX);
    OnlyAdded(adds);
    OnlyAdded([]);
    BodyReads(ms);
    assert TraceOf(ms) == trace && trace[0] == Region([], adds);
    CancellingSides(adds);
    assert Copies(REGION_MAX) + [[120]] == adds by { MoreCopies(REGION_MAX); }
  }

  lemma MoreCopies(n: nat)
    ensures Copies(n + 1) == Copies(n) + [[120]]
  {
  }

  lemma CancellingSides(adds: seq<Line>)
    ensures NewSide(Body([Region([], adds)] + [Context([120])] + [Region([], [])])) == Capped(adds) + [[120]]
  {
    hide NewSide, Body, EmitRegion, CutOf;
    var none: seq<Event>, noLines: seq<Line> := [], [];
    var a, b, c := Region([], adds), Context([120]), Region([], []);
    OnlyAdded(adds);
    OnlyAdded(noLines);
    assert Body(none) == [] && NewSide([]) == [] by { OnNothing(); }
    NilLeft([a]);
    BodyMore(none, a);
    NilLeft(Emit(a));
    BodyMore([a], b);
    BodyMore([a] + [b], c);
    NewAppend(Emit(a), Emit(b));
    NewAppend(Emit(a) + Emit(b), Emit(c));
    SidesOne(BodyLine(SPACE, [120]));
    NilRight(Capped(adds) + [[120]]);
  }
}
