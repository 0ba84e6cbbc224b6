/** Body lines of a unified diff and the flush of one diff region (dog/HUNK.c, hunk_flush_region). */
module BodyLines {
  import opened Seqs
  import opened Bytes
  import opened Lines

  /** A body line: ' ', '-' or '+', then the text. */
  datatype BodyLine = BodyLine(prefix: byte, text: Line)

  ghost function Tagged(p: byte, ls: seq<Line>): seq<BodyLine> {
    seq(|ls|, k requires 0 <= k < |ls| => BodyLine(p, ls[k]))
  }

  ghost function Bytes1(o: BodyLine): seq<byte> {
    [o.prefix] + o.text + [NEWLINE]
  }

  ghost function Render(out: seq<BodyLine>): seq<byte> {
    FlatMap(Bytes1, out)
  }

  ghost function NewOf(o: BodyLine): seq<Line> {
    if o.prefix == MINUS then [] else [o.text]
  }

  ghost function OldOf(o: BodyLine): seq<Line> {
    if o.prefix == PLUS then [] else [o.text]
  }

  /** What a reader of the body keeps for the new version: every line but the '-' ones. */
  ghost function NewSide(out: seq<BodyLine>): seq<Line> {
    FlatMap(NewOf, out)
  }

  /** What a reader of the body keeps for the old version: every line but the '+' ones. */
  ghost function OldSide(out: seq<BodyLine>): seq<Line> {
    FlatMap(OldOf, out)
  }

  lemma RenderAppend(a: seq<BodyLine>, b: seq<BodyLine>)
    ensures Render(a + b) == Render(a) + Render(b)
  {
    FlatAppend(Bytes1, a, b);
  }

  lemma NewAppend(a: seq<BodyLine>, b: seq<BodyLine>)
    ensures NewSide(a + b) == NewSide(a) + NewSide(b)
  {
    FlatAppend(NewOf, a, b);
  }

  lemma OldAppend(a: seq<BodyLine>, b: seq<BodyLine>)
    ensures OldSide(a + b) == OldSide(a) + OldSide(b)
  {
    FlatAppend(OldOf, a, b);
  }

  lemma {:induction false} SidesTagged(p: byte, ls: seq<Line>)
    ensures NewSide(Tagged(p, ls)) == if p == MINUS then [] else ls
    ensures OldSide(Tagged(p, ls)) == if p == PLUS then [] else ls
  {
    if ls != [] {
      var ls', l := ls[..|ls| - 1], ls[|ls| - 1];
      SidesTagged(p, ls');
      InitLast(ls);
      assert Tagged(p, ls) == Tagged(p, ls') + [BodyLine(p, l)];
      NewAppend(Tagged(p, ls'), [BodyLine(p, l)]);
      OldAppend(Tagged(p, ls'), [BodyLine(p, l)]);
      SidesOne(BodyLine(p, l));
      NilRight(ls');
    }
  }

  lemma SidesOne(o: BodyLine)
    ensures NewSide([o]) == NewOf(o) && OldSide([o]) == OldOf(o)
  {
    FlatOne(NewOf, o);
    FlatOne(OldOf, o);
  }

  lemma TaggedAppend(p: byte, a: seq<Line>, b: seq<Line>)
    ensures Tagged(p, a + b) == Tagged(p, a) + Tagged(p, b)
    ensures Render(Tagged(p, a + b)) == Render(Tagged(p, a)) + Render(Tagged(p, b))
  {
    assert Tagged(p, a + b) == Tagged(p, a) + Tagged(p, b);
    RenderAppend(Tagged(p, a), Tagged(p, b));
  }

  /** The bytes of one tagged line. */
  lemma RenderOne(p: byte, l: Line)
    ensures Render(Tagged(p, [l])) == [p] + l + [NEWLINE]
    ensures Render([BodyLine(p, l)]) == [p] + l + [NEWLINE]
  {
    assert Tagged(p, [l]) == [BodyLine(p, l)];
    FlatOne(Bytes1, BodyLine(p, l));
  }

  /** s[lo..hi] holds exactly the given lines, each behind the prefix p. */
  ghost predicate Holds(s: seq<byte>, lo: int, hi: int, p: byte, ls: seq<Line>) {
    0 <= lo <= hi <= |s| && p != NEWLINE && AllClean(ls) && s[lo..hi] == Render(Tagged(p, ls))
  }

  /** The line l stands at s[at..], with nothing but its own newline in it. */
  ghost predicate LineAt(s: seq<byte>, at: int, p: byte, l: Line) {
    && 0 <= at && at + |l| + 2 <= |s|
    && s[at] == p && s[at + 1..at + 1 + |l|] == l && s[at + 1 + |l|] == NEWLINE
    && Lacks(s, at, at + 1 + |l|, NEWLINE)
  }

  lemma LineBytes(s: seq<byte>, at: nat, p: byte, l: Line)
    requires at + |l| + 2 <= |s| && s[at..at + |l| + 2] == [p] + l + [NEWLINE]
    requires Clean(l) && p != NEWLINE
    ensures LineAt(s, at, p, l)
  {
    var t := s[at..at + |l| + 2];
    forall k | 0 <= k < |t| ensures s[at + k] == t[k] {
    }
    assert t[0] == p && t[1 + |l|] == NEWLINE;
    assert t[1..1 + |l|] == l;
    assert s[at + 1..at + 1 + |l|] == t[1..1 + |l|];
    forall k | at <= k < at + 1 + |l| ensures s[k] != NEWLINE {
      assert s[k] == t[k - at];
    }
  }

  lemma HeadLine(s: seq<byte>, lo: nat, hi: nat, p: byte, ls: seq<Line>)
    requires Holds(s, lo, hi, p, ls) && ls != []
    ensures LineAt(s, lo, p, ls[0])
    ensures lo + |ls[0]| + 2 <= hi && Holds(s, lo + |ls[0]| + 2, hi, p, ls[1..])
  {
    hide Render;
    TaggedAppend(p, [ls[0]], ls[1..]);
    RenderOne(p, ls[0]);
    HeadTail(ls);
    SliceSplits(s, lo, hi, [p] + ls[0] + [NEWLINE], Render(Tagged(p, ls[1..])));
    LineBytes(s, lo, p, ls[0]);
  }

  lemma LastLine(s: seq<byte>, lo: nat, hi: nat, p: byte, ls: seq<Line>)
    requires Holds(s, lo, hi, p, ls) && ls != []
    ensures var l := ls[|ls| - 1];
      && lo <= hi - |l| - 2
      && LineAt(s, hi - |l| - 2, p, l)
      && Holds(s, lo, hi - |l| - 2, p, ls[..|ls| - 1])
  {
    hide Render, Tagged;
    var l, ls' := ls[|ls| - 1], ls[..|ls| - 1];
    TaggedAppend(p, ls', [l]);
    RenderOne(p, l);
    InitLast(ls);
    SliceSplits(s, lo, hi, Render(Tagged(p, ls')), [p] + l + [NEWLINE]);
    LineBytes(s, hi - |l| - 2, p, l);
  }

  lemma HoldsNothing(s: seq<byte>, lo: nat, hi: nat, p: byte, ls: seq<Line>)
    requires Holds(s, lo, hi, p, ls)
    ensures lo <= hi && (lo == hi <==> ls == [])
  {
    if ls != [] {
      HeadLine(s, lo, hi, p, ls);
    }
  }

  /** Reading a rendered body line by line gives the body lines back. */
  ghost function Parsed(ls: seq<Line>): seq<BodyLine> {
    seq(|ls|, k requires 0 <= k < |ls| => if ls[k] == [] then BodyLine(SPACE, []) else BodyLine(ls[k][0], ls[k][1..]))
  }

  ghost predicate CleanBody(out: seq<BodyLine>) {
    forall k :: 0 <= k < |out| ==> out[k].prefix != NEWLINE && Clean(out[k].text)
  }

  lemma {:induction false} RenderIsUnlines(out: seq<BodyLine>)
    ensures Render(out) == Unlines(seq(|out|, k requires 0 <= k < |out| => [out[k].prefix] + out[k].text))
  {
    var ls := seq(|out|, k requires 0 <= k < |out| => [out[k].prefix] + out[k].text);
    if out != [] {
      var out', o := out[..|out| - 1], out[|out| - 1];
      var ls' := seq(|out'|, k requires 0 <= k < |out'| => [out'[k].prefix] + out'[k].text);
      RenderIsUnlines(out');
      RenderAppend(out', [o]);
      assert out' + [o] == out;
      assert ls[..|ls| - 1] == ls';
      RenderOne(o.prefix, o.text);
    }
  }

  /** The body's bytes determine its lines: parsing undoes rendering. */
  lemma ParseRender(out: seq<BodyLine>)
    requires CleanBody(out)
    ensures Parsed(LinesOf(Render(out))) == out
  {
    var ls := seq(|out|, k requires 0 <= k < |out| => [out[k].prefix] + out[k].text);
    RenderIsUnlines(out);
    assert AllClean(ls);
    SplitUnlines(ls);
    assert LinesOf(Render(out)) == ls;
  }
}

/** What the flush of a region prints, and that its byte-level code prints exactly that. */
module Regions {
  import opened Seqs
  import opened Bytes
  import opened Lines
  import opened Similarity
  import opened Matching
  import opened Pairing
  import opened BodyLines

  const REGION_MAX: nat := 4096

  ghost function Capped(ls: seq<Line>): seq<Line> {
    if |ls| <= REGION_MAX then ls else ls[..REGION_MAX]
  }

  // ----- the region as lines -----

  /** The lines a region has in common at its start, at its end, and what lies between. */
  datatype Cut = Cut(head: seq<Line>, dels: seq<Line>, adds: seq<Line>, tail: seq<Line>)

  ghost function CutOf(dels: seq<Line>, adds: seq<Line>): Cut {
    var p := CommonPrefix(dels, adds);
    var n := CommonSuffix(dels, adds, p);
    Cut(dels[..p], dels[p..|dels| - n], adds[p..|adds| - n], dels[|dels| - n..])
  }

  lemma CutJoins(dels: seq<Line>, adds: seq<Line>)
    ensures var c := CutOf(dels, adds);
      dels == c.head + c.dels + c.tail && adds == c.head + c.adds + c.tail
  {
    var p := CommonPrefix(dels, adds);
    var n := CommonSuffix(dels, adds, p);
    CommonEnds(dels, adds);
    TakeMidDrop(dels, p, |dels| - n);
    TakeMidDrop(adds, p, |adds| - n);
  }

  /** The '-' line printed before added line j: the one paired with it, if any. */
  ghost function Partner(dl: seq<Line>, m: Match, na: nat, j: nat): seq<BodyLine>
    requires Mutual(m, |dl|, na) && j < na
  {
    if m.ofAdd[j] >= 0 then [BodyLine(MINUS, dl[m.ofAdd[j]])] else []
  }

  ghost function EmitAdds(dl: seq<Line>, al: seq<Line>, m: Match, j: nat): seq<BodyLine>
    requires Mutual(m, |dl|, |al|) && j <= |al|
  {
    if j == 0 then []
    else EmitAdds(dl, al, m, j - 1) + (Partner(dl, m, |al|, j - 1) + [BodyLine(PLUS, al[j - 1])])
  }

  /** The '-' line printed for removed line i after all added ones: itself, when unpaired. */
  ghost function Leftover(dl: seq<Line>, m: Match, na: nat, i: nat): seq<BodyLine>
    requires Mutual(m, |dl|, na) && i < |dl|
  {
    if m.ofDel[i] < 0 then [BodyLine(MINUS, dl[i])] else []
  }

  ghost function EmitUnpaired(dl: seq<Line>, m: Match, na: nat, i: nat): seq<BodyLine>
    requires Mutual(m, |dl|, na) && i <= |dl|
  {
    if i == 0 then [] else EmitUnpaired(dl, m, na, i - 1) + Leftover(dl, m, na, i - 1)
  }

  /** The middle of a region: '+' lines in order, each behind the '-' line paired with it, then the other '-' lines. */
  ghost function EmitMiddle(dl: seq<Line>, al: seq<Line>): seq<BodyLine> {
    var m := PairingOf(dl, al);
    EmitAdds(dl, al, m, |al|) + EmitUnpaired(dl, m, |al|, |dl|)
  }

  ghost function EmitRegion(dels: seq<Line>, adds: seq<Line>): seq<BodyLine> {
    var c := CutOf(dels, adds);
    Tagged(SPACE, c.head) + EmitMiddle(Capped(c.dels), Capped(c.adds)) + Tagged(SPACE, c.tail)
  }

  // ----- the region as bytes -----

  lemma NothingFed(before: seq<byte>, p: byte, ls: seq<Line>)
    requires ls == []
    ensures before + Render(Tagged(p, ls)) == before
  {
    NilRight(before);
  }

  lemma RenderNothing(before: seq<byte>)
    ensures before + Render([]) == before
  {
    NilRight(before);
  }

  lemma HoldsRange(s: seq<byte>, lo: int, hi: int, p: byte, ls: seq<Line>)
    requires Holds(s, lo, hi, p, ls)
    ensures 0 <= lo <= hi <= |s| && Holds(s, lo, hi, p, ls[0..])
  {
    assert ls[0..] == ls;
  }

  /** Memchr finds the end of line n, and what follows holds the lines after it. */
  lemma ReadLine(s: seq<byte>, lo: nat, hi: nat, k: nat, p: byte, ls: seq<Line>, n: nat)
    requires n <= |ls| && lo < hi && Holds(s, lo, hi, p, ls[n..])
    requires lo <= k <= hi && Lacks(s, lo, k, NEWLINE) && (k < hi ==> s[k] == NEWLINE)
    ensures n < |ls| && lo < k < hi && s[lo + 1..k] == ls[n] && s[lo + 1..k + 1] == ls[n] + [NEWLINE]
    ensures Holds(s, k + 1, hi, p, ls[n + 1..])
  {
    HoldsNothing(s, lo, hi, p, ls[n..]);
    HeadLine(s, lo, hi, p, ls[n..]);
    DropCons(ls, n);
    SliceSnoc(s, lo + 1, lo + 1 + |ls[n]|);
    assert k == lo + 1 + |ls[n]|;
  }

  /** Step 1: equal leading lines become context. */
  method MatchPrefix(body: Buffer, d: seq<byte>, a: seq<byte>, ghost dels: seq<Line>, ghost adds: seq<Line>)
    returns (dp: nat, ap: nat)
    requires Holds(d, 0, |d|, MINUS, dels) && Holds(a, 0, |a|, PLUS, adds)
    modifies body
    ensures var n := CommonPrefix(dels, adds);
      && body.data == old(body.data) + Render(Tagged(SPACE, dels[..n]))
      && Holds(d, dp, |d|, MINUS, dels[n..]) && Holds(a, ap, |a|, PLUS, adds[n..])
  {
    hide Holds, Render;
    HoldsRange(d, 0, |d|, MINUS, dels);
    HoldsRange(a, 0, |a|, PLUS, adds);
    NothingFed(body.data, SPACE, dels[..0]);
    dp, ap := 0, 0;
    ghost var n := 0;
    while dp < |d| && ap < |a|
      invariant n <= |dels| && n <= |adds| && CommonPrefix(dels, adds) == PrefixFrom(dels, adds, n)
      invariant body.data == old(body.data) + Render(Tagged(SPACE, dels[..n]))
      invariant Holds(d, dp, |d|, MINUS, dels[n..]) && Holds(a, ap, |a|, PLUS, adds[n..])
      decreases |d| - dp
    {
      var dnl := Memchr(d, dp, |d|, NEWLINE);
      var anl := Memchr(a, ap, |a|, NEWLINE);
      ReadLine(d, dp, |d|, dnl, MINUS, dels, n);
      ReadLine(a, ap, |a|, anl, PLUS, adds, n);
      if dnl - dp != anl - ap || d[dp + 1..dnl] != a[ap + 1..anl] {
        break;
      }
      ContextFed(dels, n, d[dp + 1..dnl + 1], body.data, old(body.data));
      body.Feed1(SPACE);
      body.Feed(d[dp + 1..dnl + 1]);
      dp, ap, n := dnl + 1, anl + 1, n + 1;
    }
    HoldsNothing(d, dp, |d|, MINUS, dels[n..]);
    HoldsNothing(a, ap, |a|, PLUS, adds[n..]);
  }

  /** Feeding ' ' and the bytes of line n extends the rendered context by that line. */
  lemma ContextFed(ls: seq<Line>, n: nat, bytes: seq<byte>, body: seq<byte>, before: seq<byte>)
    requires n < |ls| && bytes == ls[n] + [NEWLINE]
    requires body == before + Render(Tagged(SPACE, ls[..n]))
    ensures body + [SPACE] + bytes == before + Render(Tagged(SPACE, ls[..n + 1]))
  {
    TakeSnoc(ls, n);
    TaggedAppend(SPACE, ls[..n], [ls[n]]);
    RenderOne(SPACE, ls[n]);
    Assoc(body, [SPACE], bytes);
    Assoc([SPACE], ls[n], [NEWLINE]);
    Assoc(before, Render(Tagged(SPACE, ls[..n])), [SPACE] + bytes);
  }

  lemma HoldsJoin(s: seq<byte>, lo: nat, mid: nat, hi: nat, p: byte, x: seq<Line>, y: seq<Line>)
    requires Holds(s, lo, mid, p, x) && Holds(s, mid, hi, p, y)
    ensures Holds(s, lo, hi, p, x + y)
  {
    TaggedAppend(p, x, y);
    assert s[lo..hi] == s[lo..mid] + s[mid..hi];
  }

  lemma LastClean(s: seq<byte>, lo: nat, hi: nat, p: byte, ls: seq<Line>)
    requires Holds(s, lo, hi, p, ls)
    ensures p != NEWLINE && (ls != [] ==> Clean(ls[|ls| - 1]))
  {
  }

  /** The backward scan from the last newline stops at the start of the last line. */
  lemma ReadLast(s: seq<byte>, lo: nat, hi: nat, k: nat, p: byte, ls: seq<Line>)
    requires lo < hi && Holds(s, lo, hi, p, ls)
    requires lo <= k < hi && Lacks(s, k, hi - 1, NEWLINE) && (k > lo ==> s[k - 1] == NEWLINE)
    ensures ls != [] && lo <= k < hi - 1 && s[hi - 1] == NEWLINE && s[k + 1..hi - 1] == ls[|ls| - 1]
    ensures Holds(s, lo, k, p, ls[..|ls| - 1]) && Holds(s, k, hi, p, [ls[|ls| - 1]])
  {
    HoldsNothing(s, lo, hi, p, ls);
    LastClean(s, lo, hi, p, ls);
    LastLine(s, lo, hi, p, ls);
    hide Holds;
    var l, ls' := ls[|ls| - 1], ls[..|ls| - 1];
    var at := hi - |l| - 2;
    HoldsNothing(s, lo, at, p, ls');
    if ls' != [] {
      LastLine(s, lo, at, p, ls');
    }
    assert k == at;
    LineHolds(s, at, p, l);
  }

  lemma LineHolds(s: seq<byte>, at: nat, p: byte, l: Line)
    requires LineAt(s, at, p, l) && Clean(l) && p != NEWLINE
    ensures Holds(s, at, at + |l| + 2, p, [l])
  {
    hide Render;
    var hi := at + |l| + 2;
    RenderOne(p, l);
    SliceCons(s, at, hi);
    SliceSnoc(s, at + 1, hi - 1);
    Assoc([p], l, [NEWLINE]);
  }

  /** One step of the suffix scan: line i - 1 moves from the middle to the end. */
  lemma StepBack(s: seq<byte>, lo: nat, at: nat, k: nat, p: byte, ls: seq<Line>, q: nat, i: nat)
    requires q <= i <= |ls| && lo < at
    requires Holds(s, lo, at, p, ls[q..i]) && Holds(s, at, |s|, p, ls[i..])
    requires lo <= k < at && Lacks(s, k, at - 1, NEWLINE) && (k > lo ==> s[k - 1] == NEWLINE)
    ensures q < i && s[at - 1] == NEWLINE && k < at - 1 && s[k + 1..at - 1] == ls[i - 1]
    ensures Holds(s, lo, k, p, ls[q..i - 1]) && Holds(s, k, |s|, p, ls[i - 1..])
  {
    ReadLast(s, lo, at, k, p, ls[q..i]);
    SliceSnoc(ls, q, i - 1);
    AppendParts(ls[q..i - 1], [ls[i - 1]]);
    HoldsJoin(s, k, at, |s|, p, [ls[i - 1]], ls[i..]);
    DropCons(ls, i - 1);
  }

  lemma HoldsNone(s: seq<byte>, at: nat, p: byte, ls: seq<Line>)
    requires at <= |s| && p != NEWLINE && ls == []
    ensures Holds(s, at, at, p, ls)
  {
  }

  /** The start of the line that ends with the newline at hi - 1, by scanning back no further than lo. */
  method LineStart(s: seq<byte>, lo: nat, hi: nat) returns (k: nat)
    requires lo < hi <= |s|
    ensures lo <= k < hi && Lacks(s, k, hi - 1, NEWLINE) && (k > lo ==> s[k - 1] == NEWLINE)
  {
    var dline: int := hi - 2;
    while dline >= lo && s[dline] != NEWLINE
      invariant lo - 1 <= dline <= hi - 2
      invariant Lacks(s, dline + 1, hi - 1, NEWLINE)
    {
      dline := dline - 1;
    }
    k := dline + 1;
  }

  /** The last lines of both middles: where they start, and whether they are equal. */
  method CompareLast(d: seq<byte>, dp: nat, dEnd: nat, a: seq<byte>, ap: nat, aEnd: nat,
                     ghost dels: seq<Line>, ghost adds: seq<Line>, ghost p: nat, ghost i: nat, ghost j: nat)
    returns (dline: nat, aline: nat, same: bool)
    requires p <= i <= |dels| && p <= j <= |adds| && dp < dEnd && ap < aEnd
    requires Holds(d, dp, dEnd, MINUS, dels[p..i]) && Holds(d, dEnd, |d|, MINUS, dels[i..])
    requires Holds(a, ap, aEnd, PLUS, adds[p..j]) && Holds(a, aEnd, |a|, PLUS, adds[j..])
    ensures p < i && p < j && (same <==> dels[i - 1] == adds[j - 1]) && dline < dEnd
    ensures Holds(d, dp, dline, MINUS, dels[p..i - 1]) && Holds(d, dline, |d|, MINUS, dels[i - 1..])
    ensures Holds(a, ap, aline, PLUS, adds[p..j - 1]) && Holds(a, aline, |a|, PLUS, adds[j - 1..])
  {
    hide Holds;
    HoldsRange(d, dp, dEnd, MINUS, dels[p..i]);
    HoldsRange(a, ap, aEnd, PLUS, adds[p..j]);
    dline := LineStart(d, dp, dEnd);
    aline := LineStart(a, ap, aEnd);
    StepBack(d, dp, dEnd, dline, MINUS, dels, p, i);
    StepBack(a, ap, aEnd, aline, PLUS, adds, p, j);
    same := dEnd - dline == aEnd - aline && d[dline + 1..dEnd - 1] == a[aline + 1..aEnd - 1];
  }

  lemma CutSlices(dels: seq<Line>, adds: seq<Line>, p: nat, i: nat, j: nat)
    requires p == CommonPrefix(dels, adds)
    requires p <= i <= |dels| && p <= j <= |adds|
    requires |dels| - i == |adds| - j == CommonSuffix(dels, adds, p)
    ensures CutOf(dels, adds) == Cut(dels[..p], dels[p..i], adds[p..j], dels[i..])
  {
  }

  /** Step 2: equal trailing lines, left for later; only the ends of the middle move. */
  method MatchSuffix(d: seq<byte>, dp: nat, a: seq<byte>, ap: nat, ghost dels: seq<Line>, ghost adds: seq<Line>)
    returns (dEnd: nat, aEnd: nat)
    requires Holds(d, dp, |d|, MINUS, dels[CommonPrefix(dels, adds)..])
    requires Holds(a, ap, |a|, PLUS, adds[CommonPrefix(dels, adds)..])
    ensures Holds(d, dp, dEnd, MINUS, CutOf(dels, adds).dels)
    ensures Holds(d, dEnd, |d|, MINUS, CutOf(dels, adds).tail)
    ensures Holds(a, ap, aEnd, PLUS, CutOf(dels, adds).adds)
  {
    hide Holds, CutOf;
    ghost var p, i, j := CommonPrefix(dels, adds), |dels|, |adds|;
    HoldsRange(d, dp, |d|, MINUS, dels[p..]);
    HoldsRange(a, ap, |a|, PLUS, adds[p..]);
    dEnd, aEnd := |d|, |a|;
    assert dels[p..i] == dels[p..] && adds[p..j] == adds[p..];
    HoldsNone(d, |d|, MINUS, dels[i..]);
    HoldsNone(a, |a|, PLUS, adds[j..]);
    while dp < dEnd && ap < aEnd
      invariant p <= i <= |dels| && p <= j <= |adds| && |dels| - i == |adds| - j
      invariant CommonSuffix(dels, adds, p) == |dels| - i + SuffixDown(dels, i, adds, j, p)
      invariant Holds(d, dp, dEnd, MINUS, dels[p..i]) && Holds(d, dEnd, |d|, MINUS, dels[i..])
      invariant Holds(a, ap, aEnd, PLUS, adds[p..j]) && Holds(a, aEnd, |a|, PLUS, adds[j..])
    {
      var dline, aline, same := CompareLast(d, dp, dEnd, a, ap, aEnd, dels, adds, p, i, j);
      if !same {
        break;
      }
      dEnd, aEnd, i, j := dline, aline, i - 1, j - 1;
    }
    HoldsNothing(d, dp, dEnd, MINUS, dels[p..i]);
    HoldsNothing(a, ap, aEnd, PLUS, adds[p..j]);
    CutSlices(dels, adds, p, i, j);
  }

  /** Step 3, first half: the middle's lines as slices, at most REGION_MAX of them. */
  method TakeLines(s: seq<byte>, lo: nat, hi: nat, p: byte, ghost ls: seq<Line>) returns (out: seq<Line>)
    requires Holds(s, lo, hi, p, ls)
    ensures out == Capped(ls)
  {
    hide Holds;
    HoldsRange(s, lo, hi, p, ls);
    var cur: nat := lo;
    out := [];
    while |out| < REGION_MAX && cur < hi
      invariant |out| <= |ls| && |out| <= REGION_MAX && out == ls[..|out|]
      invariant cur <= hi <= |s| && Holds(s, cur, hi, p, ls[|out|..])
    {
      var nl := Memchr(s, cur, hi, NEWLINE);
      ReadLine(s, cur, hi, nl, p, ls, |out|);
      TakeSnoc(ls, |out|);
      out := out + [s[cur + 1..nl]];
      cur := nl + 1;
    }
    HoldsNothing(s, cur, hi, p, ls[|out|..]);
  }

  method EmitLine(body: Buffer, prefix: byte, ln: Line)
    modifies body
    ensures body.data == old(body.data) + Render([BodyLine(prefix, ln)])
  {
    body.Feed1(prefix);
    body.Feed(ln);
    body.Feed1(NEWLINE);
    RenderOne(prefix, ln);
    Assoc(old(body.data), [prefix], ln);
    Assoc(old(body.data), [prefix] + ln, [NEWLINE]);
  }

  /** Appending rendered lines to a body that already ends with rendered lines. */
  lemma RenderMore(body: seq<byte>, before: seq<byte>, out: seq<BodyLine>, more: seq<BodyLine>)
    requires body == before + Render(out)
    ensures body + Render(more) == before + Render(out + more)
  {
    RenderAppend(out, more);
    Assoc(before, Render(out), Render(more));
  }

  /** Step 3, second half: the middle in the order of its '+' lines, then the unpaired '-' lines. */
  method EmitPairs(body: Buffer, dl: seq<Line>, al: seq<Line>, pairD: array<int>, pairA: array<int>)
    requires Match(pairD[..], pairA[..]) == PairingOf(dl, al)
    modifies body
    ensures body.data == old(body.data) + Render(EmitMiddle(dl, al))
  {
    hide Render, Partner, Leftover;
    ghost var m, before := PairingOf(dl, al), body.data;
    RenderNothing(before);
    for j := 0 to |al|
      invariant body.data == before + Render(EmitAdds(dl, al, m, j))
      invariant Match(pairD[..], pairA[..]) == m
    {
      RenderMore(body.data, before, EmitAdds(dl, al, m, j), Partner(dl, m, |al|, j) + [BodyLine(PLUS, al[j])]);
      EmitAdded(body, dl, al, pairA[j], m, j);
    }
    ghost var adds := EmitAdds(dl, al, m, |al|);
    NilRight(adds);
    for i := 0 to |dl|
      invariant body.data == before + Render(adds + EmitUnpaired(dl, m, |al|, i))
      invariant Match(pairD[..], pairA[..]) == m
    {
      ghost var out, more := EmitUnpaired(dl, m, |al|, i), Leftover(dl, m, |al|, i);
      RenderMore(body.data, before, adds + out, more);
      Assoc(adds, out, more);
      EmitLeftover(body, dl, |al|, pairD[i], m, i);
    }
  }

  /** A '+' line, behind its '-' partner when it has one. */
  method EmitAdded(body: Buffer, dl: seq<Line>, al: seq<Line>, i: int, ghost m: Match, j: nat)
    requires Mutual(m, |dl|, |al|) && j < |al| && i == m.ofAdd[j]
    modifies body
    ensures body.data == old(body.data) + Render(Partner(dl, m, |al|, j) + [BodyLine(PLUS, al[j])])
  {
    hide Render;
    ghost var before := body.data;
    RenderNothing(before);
    if i >= 0 {
      EmitLine(body, MINUS, dl[i]);
    }
    RenderMore(body.data, before, Partner(dl, m, |al|, j), [BodyLine(PLUS, al[j])]);
    EmitLine(body, PLUS, al[j]);
  }

  /** A '-' line that no '+' line is paired with. */
  method EmitLeftover(body: Buffer, dl: seq<Line>, na: nat, j: int, ghost m: Match, i: nat)
    requires Mutual(m, |dl|, na) && i < |dl| && j == m.ofDel[i]
    modifies body
    ensures body.data == old(body.data) + Render(Leftover(dl, m, na, i))
  {
    hide Render;
    RenderNothing(body.data);
    if j < 0 {
      EmitLine(body, MINUS, dl[i]);
    }
  }

  /** The matched trailing lines become context. */
  method EmitTail(body: Buffer, d: seq<byte>, dEnd: nat, ghost tail: seq<Line>)
    requires Holds(d, dEnd, |d|, MINUS, tail)
    modifies body
    ensures body.data == old(body.data) + Render(Tagged(SPACE, tail))
  {
    hide Holds, Render;
    HoldsRange(d, dEnd, |d|, MINUS, tail);
    NothingFed(body.data, SPACE, tail[..0]);
    var sp := dEnd;
    ghost var n := 0;
    while sp < |d|
      invariant n <= |tail| && Holds(d, sp, |d|, MINUS, tail[n..])
      invariant body.data == old(body.data) + Render(Tagged(SPACE, tail[..n]))
      decreases |d| - sp
    {
      var snl := Memchr(d, sp, |d|, NEWLINE);
      ReadLine(d, sp, |d|, snl, MINUS, tail, n);
      ContextFed(tail, n, d[sp + 1..snl + 1], body.data, old(body.data));
      body.Feed1(SPACE);
      body.Feed(d[sp + 1..snl + 1]);
      sp, n := snl + 1, n + 1;
    }
    HoldsNothing(d, sp, |d|, MINUS, tail[n..]);
    assert n == |tail| && tail[..n] == tail;
  }

  /** Step 3: take the middle's lines, pair them, print them. */
  method FlushMiddle(body: Buffer, d: seq<byte>, dp: nat, dEnd: nat, a: seq<byte>, ap: nat, aEnd: nat,
                     ghost dl: seq<Line>, ghost al: seq<Line>)
    requires Holds(d, dp, dEnd, MINUS, dl) && Holds(a, ap, aEnd, PLUS, al)
    modifies body
    ensures body.data == old(body.data) + Render(EmitMiddle(Capped(dl), Capped(al)))
  {
    hide Holds, Render, EmitMiddle, Capped;
    var dls := TakeLines(d, dp, dEnd, MINUS, dl);
    var als := TakeLines(a, ap, aEnd, PLUS, al);
    var pairD, pairA := PairLines(dls, als);
    EmitPairs(body, dls, als, pairD, pairA);
  }

  lemma HoldsAll(s: seq<byte>, p: byte, ls: seq<Line>)
    requires p != NEWLINE && AllClean(ls) && s == Render(Tagged(p, ls))
    ensures Holds(s, 0, |s|, p, ls)
  {
    assert s[0..|s|] == s;
  }

  /** Flush a region: on buffers that hold its '-' and '+' lines, print EmitRegion and empty them. */
  method FlushRegion(body: Buffer, dels: Buffer, adds: Buffer, ghost dl: seq<Line>, ghost al: seq<Line>)
    requires body != dels && body != adds
    requires AllClean(dl) && dels.data == Render(Tagged(MINUS, dl))
    requires AllClean(al) && adds.data == Render(Tagged(PLUS, al))
    modifies body, dels, adds
    ensures body.data == old(body.data) + Render(EmitRegion(dl, al))
    ensures dels.data == [] && adds.data == []
  {
    hide Holds, Render, EmitMiddle;
    var d, a := dels.data, adds.data;
    HoldsAll(d, MINUS, dl);
    HoldsAll(a, PLUS, al);
    ghost var before, c := body.data, CutOf(dl, al);
    ghost var head, mid := Tagged(SPACE, c.head), EmitMiddle(Capped(c.dels), Capped(c.adds));
    var dp, ap := MatchPrefix(body, d, a, dl, al);
    var dEnd, aEnd := MatchSuffix(d, dp, a, ap, dl, al);
    RenderMore(body.data, before, head, mid);
    FlushMiddle(body, d, dp, dEnd, a, ap, aEnd, c.dels, c.adds);
    RenderMore(body.data, before, head + mid, Tagged(SPACE, c.tail));
    EmitTail(body, d, dEnd, c.tail);
    dels.Reset();
    adds.Reset();
  }
}
