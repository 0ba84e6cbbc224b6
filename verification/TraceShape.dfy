/** The events of a text: one region before each context line and one at the end (dog/HUNK.c). */
module TraceShape {
  import opened Seqs
  import opened Bytes
  import opened Lines
  import opened Tokens
  import opened LineMachine

  /** The unmarked newline at n ends a line of which nothing is changed. */
  ghost predicate PlainEnd(ms: seq<Mark>, n: nat) {
    n < |ms| && ms[n] == Mark(NEWLINE, EQ) && !OldTouched(ms[..n]) && !NewTouched(ms[..n])
  }

  /** How many there are before n. */
  ghost function PlainEnds(ms: seq<Mark>, n: nat): nat
    requires n <= |ms|
  {
    if n == 0 then 0 else PlainEnds(ms, n - 1) + if PlainEnd(ms, n - 1) then 1 else 0
  }

  /** The text ends in an old line without newline, of which nothing is changed. */
  ghost predicate PlainRest(ms: seq<Mark>) {
    !OldTouched(ms) && !NewTouched(ms) && Rest(OldText(ms)) != []
  }

  /** Regions and context lines take turns. */
  ghost predicate Alternates(trace: seq<Event>) {
    forall k :: 0 <= k < |trace| ==> (trace[k].Region? <==> k % 2 == 0)
  }

  lemma RunAt(ms: seq<Mark>, n: nat)
    requires n < |ms|
    ensures Run(ms[..n + 1]) == Step(Run(ms[..n]), ms[n])
    ensures Mirrors(Run(ms[..n]), ms[..n])
  {
    TakeSnoc(ms, n);
    TextStep(ms[..n], ms[n]);
    RunMirrors(ms[..n]);
  }

  /** What a byte adds to the trace. */
  lemma TraceStep(ms: seq<Mark>, n: nat)
    requires n < |ms|
    ensures var st := Run(ms[..n]);
      Run(ms[..n + 1]).trace == if PlainEnd(ms, n) then st.trace + [Region(st.dels, st.adds)] + [Context(st.oldb)]
                                else st.trace
  {
    RunAt(ms, n);
    hide Run, OldTouched, NewTouched, OldSoFar, NewSoFar;
  }

  lemma AlternatesMore(trace: seq<Event>, dels: seq<Line>, adds: seq<Line>, l: Line)
    requires Alternates(trace) && |trace| % 2 == 0
    ensures Alternates(trace + [Region(dels, adds)])
    ensures Alternates(trace + [Region(dels, adds)] + [Context(l)])
  {
  }

  /** What the end of the text adds to the trace. */
  lemma FinishedTrace(st: State) returns (dels: seq<Line>, adds: seq<Line>)
    ensures Finish(st).trace ==
      (if !st.oldDirty && !st.newDirty && st.oldb != [] then
         st.trace + [Region(st.dels, st.adds)] + [Context(st.oldb)] else st.trace) + [Region(dels, adds)]
  {
    var last := Finish(st).trace[|Finish(st).trace| - 1];
    dels, adds := last.dels, last.adds;
  }

  lemma NothingRun(ms: seq<Mark>)
    ensures Run(ms[..0]).trace == [] && Alternates([])
  {
  }

  lemma {:induction false} RunAlternates(ms: seq<Mark>, n: nat)
    requires n <= |ms|
    ensures Alternates(Run(ms[..n]).trace) && |Run(ms[..n]).trace| == 2 * PlainEnds(ms, n)
  {
    hide Run, PlainEnd, Alternates;
    if n > 0 {
      RunAlternates(ms, n - 1);
      TraceStep(ms, n - 1);
      var st := Run(ms[..n - 1]);
      AlternatesMore(st.trace, st.dels, st.adds, st.oldb);
    } else {
      NothingRun(ms);
    }
  }

  /** The text ends in a plain line without newline if and only if the state says so. */
  lemma PlainRestIs(ms: seq<Mark>)
    ensures var st := Run(ms);
      PlainRest(ms) <==> !st.oldDirty && !st.newDirty && st.oldb != []
  {
    hide Run, OldTouched, NewTouched, Rest, Whole, OldSoFar, NewSoFar;
    RunMirrors(ms);
  }

  /** The finished trace: regions at its even places, a context line between any two, as many as plain lines. */
  lemma RegionsTakeTurns(ms: seq<Mark>)
    ensures Alternates(TraceOf(ms))
    ensures |TraceOf(ms)| == 2 * (PlainEnds(ms, |ms|) + if PlainRest(ms) then 1 else 0) + 1
  {
    hide Run, PlainEnds, PlainRest, Alternates, Finish;
    RunAlternates(ms, |ms|);
    assert ms[..|ms|] == ms;
    PlainRestIs(ms);
    var st := Run(ms);
    var dels, adds := FinishedTrace(st);
    AlternatesMore(st.trace, st.dels, st.adds, st.oldb);
    AlternatesMore(st.trace, dels, adds, []);
    if PlainRest(ms) {
      AlternatesMore(st.trace + [Region(st.dels, st.adds)] + [Context(st.oldb)], dels, adds, []);
    }
  }

  ghost predicate Prefix(a: seq<Event>, b: seq<Event>) {
    |a| <= |b| && b[..|a|] == a
  }

  lemma {:induction false} TraceGrows(ms: seq<Mark>, j: nat, n: nat)
    requires j <= n <= |ms|
    ensures Prefix(Run(ms[..j]).trace, Run(ms[..n]).trace)
    decreases n - j
  {
    hide Run, PlainEnd;
    if j < n {
      TraceGrows(ms, j, n - 1);
      TraceStep(ms, n - 1);
    }
  }

  lemma FinishGrows(ms: seq<Mark>)
    ensures Prefix(Run(ms).trace, TraceOf(ms))
  {
    hide Run;
  }

  /**
   * A line of which nothing is changed is a context line, behind exactly the old lines and as many new lines as are in
   * front of it in the text.
   */
  lemma PlainLinesAreContext(ms: seq<Mark>, n: nat)
    requires PlainEnd(ms, n)
    ensures var k := 2 * PlainEnds(ms, n) + 1;
      && k < |TraceOf(ms)| && TraceOf(ms)[k] == Context(Rest(OldText(ms[..n])))
      && TraceOld(TraceOf(ms)[..k]) == Whole(OldText(ms[..n]))
      && |TraceNew(TraceOf(ms)[..k])| == |Whole(NewText(ms[..n]))|
  {
    hide Run, TraceOf, TraceOld, TraceNew, Whole, Rest, OldTouched, NewTouched, Prefix, PlainEnds, OldText, NewText;
    var st, trace := Run(ms[..n]), Run(ms[..n + 1]).trace;
    RunAlternates(ms, n);
    TraceStep(ms, n);
    TraceGrows(ms, n + 1, |ms|);
    FinishGrows(ms);
    assert ms[..|ms|] == ms;
    ContextAt(st, trace, Run(ms).trace, TraceOf(ms));
    OpenLine(ms[..n]);
    LinesInFront(ms[..n]);
  }

  lemma OpenLine(ms: seq<Mark>)
    ensures Run(ms).oldb == Rest(OldText(ms))
  {
    hide Run, OldSoFar, NewSoFar;
    RunMirrors(ms);
  }

  lemma LinesInFront(ms: seq<Mark>)
    ensures var st := Run(ms);
      TraceOld(st.trace + [Region(st.dels, st.adds)]) == Whole(OldText(ms))
      && |TraceNew(st.trace + [Region(st.dels, st.adds)])| == |Whole(NewText(ms))|
  {
    hide Run, OldSoFar, NewSoFar, TraceOld, TraceNew;
    RunMirrors(ms);
    SoFarFlush(Run(ms));
  }

  lemma ContextAt(st: State, a: seq<Event>, b: seq<Event>, c: seq<Event>)
    requires a == st.trace + [Region(st.dels, st.adds)] + [Context(st.oldb)] && Prefix(a, b) && Prefix(b, c)
    ensures var k := |st.trace| + 1;
      k < |c| && c[k] == Context(st.oldb) && c[..k] == st.trace + [Region(st.dels, st.adds)]
  {
    var k := |st.trace| + 1;
    assert a[..k] == b[..k] == c[..k];
    assert a[k] == b[k] == c[k];
  }
}
