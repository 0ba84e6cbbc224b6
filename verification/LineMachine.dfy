/** The line accumulator of the unified-diff renderer and what its output means (dog/HUNK.c). */
module LineMachine {
  import opened Seqs
  import opened Bytes
  import opened Lines
  import opened Tokens
  import opened BodyLines
  import opened Regions

  /** What the renderer has handed over for printing: a flushed region, or a context line. */
  datatype Event = Region(dels: seq<Line>, adds: seq<Line>) | Context(line: Line)

  ghost function Emit(e: Event): seq<BodyLine> {
    match e
    case Region(dels, adds) => EmitRegion(dels, adds)
    case Context(line) => [BodyLine(SPACE, line)]
  }

  ghost function Body(trace: seq<Event>): seq<BodyLine> {
    FlatMap(Emit, trace)
  }

  /** The open lines and their dirty flags, the pending region, what was printed, and the header counts. */
  datatype State = State(oldb: Line, newb: Line, oldDirty: bool, newDirty: bool,
                         dels: seq<Line>, adds: seq<Line>, trace: seq<Event>, oldCount: nat, newCount: nat)

  const INITIAL := State([], [], false, false, [], [], [], 0, 0)

  ghost function OldLine(st: State): State {
    st.(dels := st.dels + [st.oldb], oldCount := st.oldCount + 1)
  }

  ghost function NewLine(st: State): State {
    st.(adds := st.adds + [st.newb], newCount := st.newCount + 1)
  }

  ghost function ContextLine(st: State): State {
    st.(dels := [], adds := [], trace := st.trace + [Region(st.dels, st.adds)] + [Context(st.oldb)],
        oldCount := st.oldCount + 1, newCount := st.newCount + 1)
  }

  /** One byte of the text. */
  ghost function Step(st: State, m: Mark): State {
    match m.side
    case RM =>
      if m.b == NEWLINE then OldLine(st).(oldb := [], oldDirty := false)
      else st.(oldb := st.oldb + [m.b], oldDirty := true)
    case IN =>
      if m.b == NEWLINE then NewLine(st).(newb := [], newDirty := false)
      else st.(newb := st.newb + [m.b], newDirty := true)
    case EQ =>
      if m.b == NEWLINE then
        (if st.oldDirty || st.newDirty then NewLine(OldLine(st)) else ContextLine(st))
        .(oldb := [], newb := [], oldDirty := false, newDirty := false)
      else st.(oldb := st.oldb + [m.b], newb := st.newb + [m.b])
  }

  ghost function Run(ms: seq<Mark>): State {
    if ms == [] then INITIAL else Step(Run(ms[..|ms| - 1]), ms[|ms| - 1])
  }

  /** The end of the text: the trailing partial lines and the last flush. */
  ghost function Finish(st: State): State {
    var modified := st.oldDirty || st.newDirty;
    var st1 := if st.oldb == [] && !st.oldDirty then st else if modified then OldLine(st) else ContextLine(st);
    var st2 := if modified && st.newb != [] then NewLine(st1) else st1;
    st2.(dels := [], adds := [], trace := st2.trace + [Region(st2.dels, st2.adds)])
  }

  // ----- which old and new lines were handed over -----

  ghost function EventOld(e: Event): seq<Line> {
    match e
    case Region(dels, _) => dels
    case Context(line) => [line]
  }

  ghost function EventNew(e: Event): seq<Line> {
    match e
    case Region(_, adds) => adds
    case Context(line) => [line]
  }

  ghost function TraceOld(trace: seq<Event>): seq<Line> {
    FlatMap(EventOld, trace)
  }

  ghost function TraceNew(trace: seq<Event>): seq<Line> {
    FlatMap(EventNew, trace)
  }

  ghost function OldSoFar(st: State): seq<Line> {
    TraceOld(st.trace) + st.dels
  }

  ghost function NewSoFar(st: State): seq<Line> {
    TraceNew(st.trace) + st.adds
  }

  lemma SoFarOldLine(st: State)
    ensures OldSoFar(OldLine(st)) == OldSoFar(st) + [st.oldb]
    ensures NewSoFar(OldLine(st)) == NewSoFar(st)
  {
    hide TraceOld, TraceNew;
    Assoc(TraceOld(st.trace), st.dels, [st.oldb]);
  }

  lemma SoFarNewLine(st: State)
    ensures NewSoFar(NewLine(st)) == NewSoFar(st) + [st.newb]
    ensures OldSoFar(NewLine(st)) == OldSoFar(st)
  {
    hide TraceOld, TraceNew;
    Assoc(TraceNew(st.trace), st.adds, [st.newb]);
  }

  lemma TraceMore(trace: seq<Event>, e: Event)
    ensures TraceOld(trace + [e]) == TraceOld(trace) + EventOld(e)
    ensures TraceNew(trace + [e]) == TraceNew(trace) + EventNew(e)
  {
    FlatAppend(EventOld, trace, [e]);
    FlatAppend(EventNew, trace, [e]);
    FlatOne(EventOld, e);
    FlatOne(EventNew, e);
  }

  lemma SoFarFlush(st: State)
    ensures TraceOld(st.trace + [Region(st.dels, st.adds)]) == OldSoFar(st)
    ensures TraceNew(st.trace + [Region(st.dels, st.adds)]) == NewSoFar(st)
  {
    TraceMore(st.trace, Region(st.dels, st.adds));
  }

  lemma SoFarContext(st: State)
    ensures OldSoFar(ContextLine(st)) == OldSoFar(st) + [st.oldb]
    ensures NewSoFar(ContextLine(st)) == NewSoFar(st) + [st.oldb]
  {
    var trace := st.trace + [Region(st.dels, st.adds)];
    SoFarFlush(st);
    TraceMore(trace, Context(st.oldb));
    hide TraceOld, TraceNew;
    NilRight(TraceOld(trace + [Context(st.oldb)]));
    NilRight(TraceNew(trace + [Context(st.oldb)]));
  }

  // ----- the open lines, told from the marked text alone -----

  /** The open old line holds a removed byte. */
  ghost predicate OldTouched(ms: seq<Mark>) {
    ms != [] &&
    var m := ms[|ms| - 1];
    if m.side == RM then m.b != NEWLINE
    else !(m.side == EQ && m.b == NEWLINE) && OldTouched(ms[..|ms| - 1])
  }

  /** The open new line holds an inserted byte. */
  ghost predicate NewTouched(ms: seq<Mark>) {
    ms != [] &&
    var m := ms[|ms| - 1];
    if m.side == IN then m.b != NEWLINE
    else !(m.side == EQ && m.b == NEWLINE) && NewTouched(ms[..|ms| - 1])
  }

  /** If neither open line is touched, they are equal. */
  ghost predicate OpenLinesAgree(ms: seq<Mark>) {
    !OldTouched(ms) && !NewTouched(ms) ==> Rest(OldText(ms)) == Rest(NewText(ms))
  }

  /** The open lines agree at every unmarked newline. */
  ghost predicate AgreeBefore(ms: seq<Mark>) {
    ms == [] ||
    var t, m := ms[..|ms| - 1], ms[|ms| - 1];
    AgreeBefore(t) && (m.side == EQ && m.b == NEWLINE ==> OpenLinesAgree(t))
  }

  /** The open lines agree at every unmarked newline and at the end of the text. */
  ghost predicate Agree(ms: seq<Mark>) {
    AgreeBefore(ms) && OpenLinesAgree(ms)
  }

  // ----- what the state is, after any text -----

  /** The state mirrors the two versions of the text read so far. */
  ghost predicate Mirrors(st: State, ms: seq<Mark>) {
    && st.oldb == Rest(OldText(ms)) && st.newb == Rest(NewText(ms))
    && st.oldDirty == OldTouched(ms) && st.newDirty == NewTouched(ms)
    && (st.oldDirty ==> st.oldb != []) && (st.newDirty ==> st.newb != [])
    && OldSoFar(st) == Whole(OldText(ms))
    && |NewSoFar(st)| == |Whole(NewText(ms))|
    && st.oldCount == |OldSoFar(st)| && st.newCount == |NewSoFar(st)|
  }

  lemma TextStep(ms: seq<Mark>, m: Mark)
    ensures OldText(ms + [m]) == OldText(ms) + if m.side == IN then [] else [m.b]
    ensures NewText(ms + [m]) == NewText(ms) + if m.side == RM then [] else [m.b]
    ensures OldTouched(ms + [m]) ==
            if m.side == RM then m.b != NEWLINE else !(m.side == EQ && m.b == NEWLINE) && OldTouched(ms)
    ensures NewTouched(ms + [m]) ==
            if m.side == IN then m.b != NEWLINE else !(m.side == EQ && m.b == NEWLINE) && NewTouched(ms)
    ensures AgreeBefore(ms + [m]) <==>
            AgreeBefore(ms) && (m.side == EQ && m.b == NEWLINE ==> OpenLinesAgree(ms))
    ensures Run(ms + [m]) == Step(Run(ms), m)
  {
    AppendSnoc(ms, [m]);
    NilRight(ms);
  }

  lemma LineStep(s: seq<byte>, c: byte)
    ensures Whole(s + [c]) == if c == NEWLINE then Whole(s) + [Rest(s)] else Whole(s)
    ensures Rest(s + [c]) == if c == NEWLINE then [] else Rest(s) + [c]
  {
    AppendSnoc(s, [c]);
    NilRight(s);
  }

  lemma MirrorsStep(st: State, ms: seq<Mark>, m: Mark)
    requires Mirrors(st, ms)
    ensures Mirrors(Step(st, m), ms + [m])
  {
    hide OldSoFar, NewSoFar, Whole, Rest, OldText, NewText, OldTouched, NewTouched;
    TextStep(ms, m);
    LineStep(OldText(ms), m.b);
    LineStep(NewText(ms), m.b);
    NilRight(OldText(ms));
    NilRight(NewText(ms));
    SoFarOldLine(st);
    SoFarNewLine(st);
    SoFarNewLine(OldLine(st));
    SoFarContext(st);
    SoFarOpenLines(st);
    SoFarOpenLines(OldLine(st));
    SoFarOpenLines(NewLine(st));
    SoFarOpenLines(NewLine(OldLine(st)));
    SoFarOpenLines(ContextLine(st));
  }

  /** The open lines do not count as handed over. */
  lemma SoFarOpenLines(st: State)
    ensures forall o, n, od, nd :: OldSoFar(st.(oldb := o, newb := n, oldDirty := od, newDirty := nd)) == OldSoFar(st)
    ensures forall o, n, od, nd :: NewSoFar(st.(oldb := o, newb := n, oldDirty := od, newDirty := nd)) == NewSoFar(st)
  {
  }

  lemma {:induction false} RunMirrors(ms: seq<Mark>)
    ensures Mirrors(Run(ms), ms)
  {
    if ms == [] {
      assert TraceOld([]) == [] && TraceNew([]) == [];
    } else {
      RunMirrors(ms[..|ms| - 1]);
      MirrorsStep(Run(ms[..|ms| - 1]), ms[..|ms| - 1], ms[|ms| - 1]);
      InitLast(ms);
    }
  }

  lemma SnocEqual<T>(a: seq<T>, x: T, b: seq<T>, y: T)
    ensures a + [x] == b + [y] <==> a == b && x == y
  {
    AppendParts(a, [x]);
    AppendParts(b, [y]);
    if a + [x] == b + [y] {
      assert |a + [x]| == |b + [y]|;
      assert (a + [x])[|a|] == x && (b + [y])[|b|] == y;
    }
  }

  /** The new lines handed over are those of the new version exactly while the open lines have agreed. */
  lemma {:induction false} NewLinesHandedOver(ms: seq<Mark>)
    ensures NewSoFar(Run(ms)) == Whole(NewText(ms)) <==> AgreeBefore(ms)
  {
    if ms == [] {
      assert TraceNew([]) == [];
    } else {
      var t, m := ms[..|ms| - 1], ms[|ms| - 1];
      InitLast(ms);
      NewLinesHandedOver(t);
      RunMirrors(t);
      HandedOverStep(t, m);
    }
  }

  lemma HandedOverStep(t: seq<Mark>, m: Mark)
    requires Mirrors(Run(t), t)
    requires NewSoFar(Run(t)) == Whole(NewText(t)) <==> AgreeBefore(t)
    ensures NewSoFar(Run(t + [m])) == Whole(NewText(t + [m])) <==> AgreeBefore(t + [m])
  {
    hide OldSoFar, NewSoFar, Whole, Rest, OldText, NewText, OldTouched, NewTouched, AgreeBefore, Run;
    var st := Run(t);
    TextStep(t, m);
    LineStep(NewText(t), m.b);
    NilRight(NewText(t));
    SoFarOldLine(st);
    SoFarNewLine(st);
    SoFarNewLine(OldLine(st));
    SoFarContext(st);
    SoFarOpenLines(st);
    SoFarOpenLines(OldLine(st));
    SoFarOpenLines(NewLine(st));
    SoFarOpenLines(NewLine(OldLine(st)));
    SoFarOpenLines(ContextLine(st));
    SnocEqual(NewSoFar(st), st.newb, Whole(NewText(t)), Rest(NewText(t)));
    SnocEqual(NewSoFar(st), st.oldb, Whole(NewText(t)), Rest(NewText(t)));
  }

  // ----- the finished trace -----

  ghost function TraceOf(ms: seq<Mark>): seq<Event> {
    Finish(Run(ms)).trace
  }

  /** Every old line is handed over, in order, whatever the text. */
  lemma OldLinesTraced(ms: seq<Mark>)
    ensures TraceOld(TraceOf(ms)) == LinesOf(OldText(ms))
    ensures Finish(Run(ms)).oldCount == |TraceOld(TraceOf(ms))|
    ensures Finish(Run(ms)).newCount == |TraceNew(TraceOf(ms))|
  {
    hide OldSoFar, NewSoFar, Whole, Rest, OldText, NewText, OldTouched, NewTouched, TraceOld, TraceNew;
    var st := Run(ms);
    RunMirrors(ms);
    FinishTrace(st);
    NilRight(OldSoFar(st));
    hide Run;
  }

  /** The finished trace, case by case. */
  lemma FinishTrace(st: State)
    requires st.oldDirty ==> st.oldb != []
    ensures var modified, f := st.oldDirty || st.newDirty, Finish(st);
      && TraceOld(f.trace) == OldSoFar(st) + (if st.oldb == [] then [] else [st.oldb])
      && TraceNew(f.trace) == NewSoFar(st) + (if modified then if st.newb == [] then [] else [st.newb]
                                             else if st.oldb == [] then [] else [st.oldb])
      && f.oldCount == st.oldCount + (if st.oldb == [] then 0 else 1)
      && f.newCount == st.newCount + |TraceNew(f.trace)| - |NewSoFar(st)|
  {
    hide OldSoFar, NewSoFar, TraceOld, TraceNew;
    SoFarFlush(st);
    SoFarFlush(OldLine(st));
    SoFarFlush(NewLine(st));
    SoFarFlush(NewLine(OldLine(st)));
    SoFarFlush(ContextLine(st));
    SoFarOldLine(st);
    SoFarNewLine(st);
    SoFarNewLine(OldLine(st));
    SoFarContext(st);
    NilRight(OldSoFar(st));
    NilRight(NewSoFar(st));
  }

  /** Every new line is handed over, in order, exactly when the open lines agree throughout. */
  lemma NewLinesTraced(ms: seq<Mark>)
    ensures TraceNew(TraceOf(ms)) == LinesOf(NewText(ms)) <==> Agree(ms)
  {
    hide OldSoFar, NewSoFar, Whole, Rest, OldText, NewText, OldTouched, NewTouched, TraceOld, TraceNew, AgreeBefore;
    var st := Run(ms);
    RunMirrors(ms);
    NewLinesHandedOver(ms);
    FinishTrace(st);
    hide Run;
    var w, r := Whole(NewText(ms)), Rest(NewText(ms));
    NilRight(NewSoFar(st));
    NilRight(w);
    SnocEqual(NewSoFar(st), st.newb, w, r);
    SnocEqual(NewSoFar(st), st.oldb, w, r);
  }
}
