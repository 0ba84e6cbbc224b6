/** JSONTLexer: the scanner over the tables. */
module Jsont {
  import opened Bytes
  import opened Ragel
  import opened JsontGrammar
  import opened JsontMachine
  import opened JsontTables
  import opened Tokens
  import Seqs

  // ---- What a scanner owes: the longest token each time ----

  /** A token as it is handed to the callback. */
  datatype Lexed = Lexed(tag: Tag, start: nat, end: nat)

  /** The bytes are a token, and no longer run of bytes from there is one. */
  ghost predicate Longest(w: seq<byte>, t: Lexed) {
    && t.start < t.end <= |w|
    && Lexeme(t.tag, w, t.start, t.end)
    && forall tag, e :: t.end < e <= |w| ==> !Lexeme(tag, w, t.start, e)
  }

  /** No token starts at i. */
  ghost predicate NoLexeme(w: seq<byte>, i: nat) {
    forall tag, e :: i <= e <= |w| ==> !Lexeme(tag, w, i, e)
  }

  /**
   * Up to j the bytes from i are the beginning of a token for all the automaton knows; the byte at j rules that out.
   */
  ghost predicate StuckAt(w: seq<byte>, i: nat, j: nat) {
    i <= j <= |w| && Reach(w, i, j) != 0 && (j < |w| ==> Reach(w, i, j + 1) == 0)
  }

  function EndOf(toks: seq<Lexed>): nat {
    if toks == [] then 0 else toks[|toks| - 1].end
  }

  /** Each token starts where the one before ended, the first at the first byte, and each is as long as it can be. */
  ghost predicate LongestTokens(w: seq<byte>, toks: seq<Lexed>) {
    && EndOf(toks) <= |w|
    && forall k :: 0 <= k < |toks| ==> Longest(w, toks[k]) && toks[k].start == EndOf(toks[..k])
  }

  // ---- The loop's moves ----

  /** Target and action where the automaton cannot go on. */
  function Fallback(cs: nat): (nat, nat) {
    if 8 <= cs <= 10 then (START, 8)
    else if cs == 21 then (START, 7)
    else if 22 <= cs <= 24 then (START, 6)
    else (0, 0)
  }

  /** Target and action on a byte, told by the automaton's step. */
  function Move(cs: nat, c: byte): (nat, nat) {
    var to := Step(cs, c);
    if to == STRING_DONE then (START, 3)
    else if to == KEYWORD_DONE then (START, 4)
    else if to == PUNCT_DONE then (START, 5)
    else if to == 22 || to == 23 then (to, 2)
    else if to != 0 then (to, 0)
    else Fallback(cs)
  }

  ghost predicate RowMoves(cs: nat, c: byte) {
    var row := RowOf(cs);
    Shaped(row) && Target(row, c) < 30 && Effect(Target(row, c)) == Move(cs, c)
  }

  lemma OpenMoves(c: byte)
    ensures RowMoves(1, c)
  {
    hide KeyIndex, RangeIndex, Position;
    ShortPosition(RowOf(1).singles, RowOf(1).ranges, c);
  }

  lemma EscapeShape(c: byte)
    ensures Increasing(SINGLES_2) && |SINGLES_2| == 9 && RangeChain([], c) == 0
    ensures KeyChain(SINGLES_2, c) ==
      if c == 34 then 0 else if c == 47 then 1 else if c == 92 then 2 else if c == 98 then 3 else if c == 102 then 4
      else if c == 110 then 5 else if c == 114 then 6 else if c == 116 then 7 else if c == 117 then 8 else 9
  {
  }

  lemma EscapeMoves(c: byte)
    ensures RowMoves(2, c)
  {
    hide KeyIndex, RangeIndex, Position, KeyChain, RangeChain, SINGLES_2;
    EscapeShape(c);
    ShortPosition(SINGLES_2, [], c);
  }

  lemma HexShape(c: byte)
    ensures Shaped(Row([], HEXES, [0, 0, 0, 0])) && |HEXES| == 6
    ensures RangeChain(HEXES, c) == if Digit(c) then 0 else if 65 <= c <= 70 then 1 else if 97 <= c <= 102 then 2 else 3
    ensures KeyChain([], c) == 0
  {
  }

  lemma HexMoves(cs: nat, c: byte)
    requires 3 <= cs <= 6
    ensures RowMoves(cs, c)
  {
    hide KeyIndex, RangeIndex, Position, KeyChain, RangeChain, HEXES;
    HexShape(c);
    ShortPosition([], HEXES, c);
  }

  lemma DigitMoves(cs: nat, c: byte)
    requires 7 <= cs <= 8 || cs == 10 || cs == 24
    ensures RowMoves(cs, c)
  {
    hide KeyIndex, RangeIndex, Position;
    ShortPosition(RowOf(cs).singles, RowOf(cs).ranges, c);
  }

  lemma SignMoves(c: byte)
    ensures RowMoves(9, c)
  {
    hide KeyIndex, RangeIndex, Position;
    ShortPosition(RowOf(9).singles, RowOf(9).ranges, c);
  }

  lemma WordMoves(cs: nat, c: byte)
    requires 11 <= cs <= 19
    ensures RowMoves(cs, c)
  {
    hide KeyIndex, RangeIndex, Position;
    ShortPosition(RowOf(cs).singles, RowOf(cs).ranges, c);
  }

  lemma StartIsShaped()
    ensures Shaped(RowOf(START))
  {
  }

  /** Where the start state's keys are: digits and control characters are its ranges. */
  lemma StartPosition(c: byte)
    ensures |SINGLES_20| == 12 && |RANGES_20| == 4
    ensures Position(SINGLES_20, RANGES_20, c) ==
      if c == 32 then 0 else if c == 34 then 1 else if c == 44 then 2 else if c == 45 then 3
      else if c == 58 then 4 else if c == 91 then 5 else if c == 93 then 6 else if c == 102 then 7
      else if c == 110 then 8 else if c == 116 then 9 else if c == 123 then 10 else if c == 125 then 11
      else if 9 <= c <= 13 then 12 else if Digit(c) then 13 else 14
  {
    hide KeyIndex, RangeIndex, Position;
    ShortPosition(SINGLES_20, RANGES_20, c);
  }

  function StartTrans(c: byte): nat {
    if White(c) then 20 else if c == QUOTE then 0 else if Punct(c) then 21 else if c == MINUS_SIGN then 22
    else if Digit(c) then 8 else if c == 102 then 23 else if c == 110 then 24 else if c == 116 then 25 else 3
  }

  lemma StartTarget(c: byte)
    requires Shaped(RowOf(START))
    ensures Target(RowOf(START), c) == StartTrans(c)
  {
    hide Position, Shaped, SINGLES_20, RANGES_20;
    StartPosition(c);
    KeyBounds(RowOf(START), c);
  }

  lemma StartEffect(c: byte)
    ensures Effect(StartTrans(c)) == Move(START, c)
  {
  }

  lemma StartMoves(c: byte)
    ensures RowMoves(START, c)
  {
    hide Position, Shaped, RowOf, Effect, Move, Target;
    StartIsShaped();
    StartTarget(c);
    StartEffect(c);
  }

  lemma SpaceMoves(c: byte)
    ensures RowMoves(21, c)
  {
    hide KeyIndex, RangeIndex, Position;
    ShortPosition(RowOf(21).singles, RowOf(21).ranges, c);
  }

  lemma IntegerMoves(c: byte)
    ensures RowMoves(22, c)
  {
    hide KeyIndex, RangeIndex, Position;
    ShortPosition(RowOf(22).singles, RowOf(22).ranges, c);
  }

  lemma FractionMoves(c: byte)
    ensures RowMoves(23, c)
  {
    hide KeyIndex, RangeIndex, Position;
    ShortPosition(RowOf(23).singles, RowOf(23).ranges, c);
  }

  lemma AllMoves(cs: nat, c: byte)
    requires 1 <= cs <= 24
    ensures RowMoves(cs, c)
  {
    hide RowMoves;
    if cs == 1 {
      OpenMoves(c);
    } else if cs == 2 {
      EscapeMoves(c);
    } else if cs <= 6 {
      HexMoves(cs, c);
    } else if cs == 9 {
      SignMoves(c);
    } else if cs <= 10 || cs == 24 {
      DigitMoves(cs, c);
    } else if cs <= 19 {
      WordMoves(cs, c);
    } else if cs == START {
      StartMoves(c);
    } else if cs == 21 {
      SpaceMoves(c);
    } else if cs == 22 {
      IntegerMoves(c);
    } else {
      FractionMoves(c);
    }
  }

  lemma EofMoves(cs: nat)
    requires 1 <= cs <= 24
    ensures EOF_TRANS[cs] == 0 <==> Fallback(cs) == (0, 0)
    ensures EOF_TRANS[cs] != 0 ==> EOF_TRANS[cs] <= 30 && Effect(EOF_TRANS[cs] - 1) == Fallback(cs)
  {
  }

  /** The loop's transition at p, and the one the end of the input makes, if any. */
  method NextTransition(w: seq<byte>, p: nat, cs: nat) returns (found: bool, to: nat, act: nat)
    requires p <= |w| && 1 <= cs <= 24
    ensures p < |w| ==> found && (to, act) == Move(cs, w[p])
    ensures p == |w| ==> found == (Fallback(cs) != (0, 0)) && (found ==> (to, act) == Fallback(cs))
  {
    hide Move, Fallback, Effect, TRANS_KEYS, INDICIES, RowOf;
    var t := 0;
    if p < |w| {
      AllMoves(cs, w[p]);
      AllTabulated(cs);
      hide Shaped, Holds, Target;
      t := Lookup(TRANS_KEYS, INDICIES, KEY_OFFSETS[cs], SINGLE_LENGTHS[cs], RANGE_LENGTHS[cs], INDEX_OFFSETS[cs],
                  w[p], RowOf(cs));
    } else {
      EofMoves(cs);
      if EOF_TRANS[cs] == 0 {
        return false, 0, 0;
      }
      t := EOF_TRANS[cs] - 1;
    }
    EffectIs(t);
    hide TRANS_TARGS, TRANS_ACTIONS, ACTIONS;
    return true, TRANS_TARGS[t], if TRANS_ACTIONS[t] == 0 then 0 else ACTIONS[TRANS_ACTIONS[t] + 1];
  }

  // ---- What the loop keeps ----

  predicate Final(cs: nat) {
    21 <= cs <= KEYWORD_DONE
  }

  ghost predicate NoneFinal(w: seq<byte>, i: nat, from: nat, to: nat)
    requires to <= |w|
  {
    forall e :: from < e <= to ==> !Final(Reach(w, i, e))
  }

  /** The token from start to te is read, and nothing longer up to p is. */
  ghost predicate LongestSoFar(w: seq<byte>, start: nat, te: nat, p: nat)
    requires p <= |w|
  {
    start < te <= p && Finishes(Reach(w, start, te), L) && NoneFinal(w, start, te, p)
  }

  /** The loop in state cs at p, in a token that began at start, the last full number behind te. */
  ghost predicate Scanning(w: seq<byte>, start: nat, p: nat, cs: nat, te: nat) {
    && start <= p <= |w| && 1 <= cs <= 24
    && Reach(w, start, p) == cs
    && (cs <= 7 || 11 <= cs <= START ==> NoneFinal(w, start, start, p))
    && (8 <= cs <= 10 || 22 <= cs <= 23 ==> LongestSoFar(w, start, te, p))
  }

  lemma StartOnlyAtStart(w: seq<byte>, i: nat, j: nat)
    requires j <= |w|
    ensures Reach(w, i, j) == START <==> j <= i
  {
    if i < j {
      IntoString(Reach(w, i, j - 1), w[j - 1]);
    }
  }

  /** Going on: no token ends, and the loop's te moves when a number could end here. */
  lemma GoesOn(w: seq<byte>, start: nat, p: nat, cs: nat, te: nat)
    requires Scanning(w, start, p, cs, te) && p < |w| && 1 <= Step(cs, w[p]) <= 24
    ensures var to := Step(cs, w[p]); Scanning(w, start, p + 1, to, if to == 22 || to == 23 then p + 1 else te)
  {
    hide Reach, Step, LongestSoFar;
    Unfold(w, start, p + 1);
    IntoNumber(cs, w[p]);
    IntoKeyword(cs, w[p]);
    IntoString(cs, w[p]);
    IntoSpace(cs, w[p]);
    var to := Step(cs, w[p]);
    if 22 <= to <= 23 {
      assert LongestSoFar(w, start, p + 1, p + 1) by { JustRead(w, start, p + 1); }
    } else if 8 <= to <= 10 {
      assert LongestSoFar(w, start, te, p) ==> LongestSoFar(w, start, te, p + 1) by { Prolongs(w, start, te, p); }
    }
  }

  lemma StepBound(cs: nat, c: byte)
    ensures Step(cs, c) <= KEYWORD_DONE
  {
  }

  lemma IntoSpace(cs: nat, c: byte)
    ensures Step(cs, c) == 21 ==> cs == START || cs == 21
  {
  }

  lemma JustRead(w: seq<byte>, start: nat, p: nat)
    requires start < p <= |w| && 22 <= Reach(w, start, p) <= 23
    ensures LongestSoFar(w, start, p, p)
  {
    hide Reach;
  }

  lemma Prolongs(w: seq<byte>, start: nat, te: nat, p: nat)
    requires p < |w| && LongestSoFar(w, start, te, p) && !Final(Reach(w, start, p + 1))
    ensures LongestSoFar(w, start, te, p + 1)
  {
    hide Reach;
  }

  /** Where no token is underway and none can go on, none has been read since start. */
  lemma Nothing(w: seq<byte>, start: nat, p: nat, cs: nat, te: nat)
    requires Scanning(w, start, p, cs, te) && Fallback(cs) == (0, 0)
    requires p < |w| ==> Step(cs, w[p]) == 0
    ensures NoLexeme(w, start)
  {
    forall tag, e | start <= e <= |w| ensures !Lexeme(tag, w, start, e) {
      FinishesExactly(tag, w, start, e);
      Ahead(w, start, p, e);
    }
  }

  lemma StuckHere(w: seq<byte>, start: nat, p: nat, cs: nat, te: nat)
    requires Scanning(w, start, p, cs, te) && (p < |w| ==> Step(cs, w[p]) == 0)
    ensures StuckAt(w, start, p)
  {
  }

  /** Past a dead end every state is dead. */
  lemma Ahead(w: seq<byte>, start: nat, p: nat, e: nat)
    requires start <= p < e <= |w| ==> Step(Reach(w, start, p), w[p]) == 0
    requires e <= |w|
    ensures start <= p < e ==> Reach(w, start, e) == 0
  {
    if start <= p < e {
      DeadStaysDead(w, start, p + 1, e);
    }
  }

  /** A full token that nothing prolongs is a longest one. */
  lemma IsLongest(w: seq<byte>, tag: Tag, start: nat, te: nat)
    requires start < te <= |w| && Finishes(Reach(w, start, te), tag) && NoneFinal(w, start, te, |w|)
    ensures Longest(w, Lexed(tag, start, te))
  {
    FinishesExactly(tag, w, start, te);
    forall t, e | te < e <= |w| ensures !Lexeme(t, w, start, e) {
      FinishesExactly(t, w, start, e);
    }
  }

  lemma Overstep(cs: nat, w: seq<byte>, p: nat)
    ensures cs > 24 && p < |w| ==> Step(cs, w[p]) == 0
  {
  }

  /** The byte at p completes a token that has no continuation. */
  lemma CompletesHere(w: seq<byte>, start: nat, p: nat, cs: nat, te: nat, tag: Tag)
    requires Scanning(w, start, p, cs, te) && p < |w| && Step(cs, w[p]) > 24 && Finishes(Step(cs, w[p]), tag)
    ensures Longest(w, Lexed(tag, start, p + 1))
  {
    hide Step, Reach;
    Unfold(w, start, p + 1);
    Overstep(Step(cs, w[p]), w, p + 1);
    forall e | p + 1 < e <= |w| ensures !Final(Reach(w, start, e)) {
      Ahead(w, start, p + 1, e);
    }
    IsLongest(w, tag, start, p + 1);
  }

  /** The token ends before p, where the automaton stops. */
  lemma StopsHere(w: seq<byte>, start: nat, p: nat, cs: nat, te: nat, tag: Tag)
    requires Scanning(w, start, p, cs, te) && cs >= 21 && Finishes(cs, tag)
    requires p < |w| ==> Step(cs, w[p]) == 0
    ensures Longest(w, Lexed(tag, start, p))
  {
    StartOnlyAtStart(w, start, p);
    forall e | p < e <= |w| ensures !Final(Reach(w, start, e)) {
      Ahead(w, start, p, e);
    }
    IsLongest(w, tag, start, p);
  }

  /** The number ended at te; what came after it is not part of one. */
  lemma FallsBack(w: seq<byte>, start: nat, p: nat, cs: nat, te: nat)
    requires Scanning(w, start, p, cs, te) && 8 <= cs <= 10
    requires p < |w| ==> Step(cs, w[p]) == 0
    ensures Longest(w, Lexed(L, start, te))
  {
    forall e | te < e <= |w| ensures !Final(Reach(w, start, e)) {
      Ahead(w, start, p, e);
    }
    IsLongest(w, L, start, te);
  }

  // ---- The loop ----

  datatype Outcome = OK | BAD | REFUSED

  function TagOf(act: nat): Tag {
    if act == 3 then G else if act == 4 then R else if act == 5 then P else if act == 7 then W else L
  }

  /** The longest token that starts at start, in a state that cannot go on or has just finished one. */
  lemma Emits(w: seq<byte>, start: nat, p: nat, cs: nat, te: nat, to: nat, act: nat)
    requires Scanning(w, start, p, cs, te) && (to, act) == (if p < |w| then Move(cs, w[p]) else Fallback(cs)) && act > 2
    ensures to == START && act <= 8 && (p < |w| || cs != START)
    ensures Longest(w, Lexed(TagOf(act), start, if act <= 5 then p + 1 else if act <= 7 then p else te))
  {
    hide Scanning, Longest, Step;
    if act <= 5 {
      CompletesHere(w, start, p, cs, te, TagOf(act));
    } else if act <= 7 {
      StopsHere(w, start, p, cs, te, TagOf(act));
    } else {
      FallsBack(w, start, p, cs, te);
    }
  }

  /** A move that ends no token goes on with it, or finds that none starts at start. */
  lemma NoToken(w: seq<byte>, start: nat, p: nat, cs: nat, te: nat, to: nat, act: nat)
    requires Scanning(w, start, p, cs, te) && start <= p <= |w| && 1 <= cs <= 24
    requires (to, act) == (if p < |w| then Move(cs, w[p]) else Fallback(cs)) && act <= 2
    ensures to == 0 ==> NoLexeme(w, start) && StuckAt(w, start, p)
    ensures p == |w| ==> to == 0 && act == 0 && cs <= START
    ensures to != 0 ==>
      && p < |w| && 1 <= to <= 24 && to != START
      && Scanning(w, start, p + 1, to, if act == 2 then p + 1 else te)
  {
    hide Scanning, NoLexeme, StuckAt, Step;
    if to == 0 {
      Nothing(w, start, p, cs, te);
      StuckHere(w, start, p, cs, te);
    } else {
      IntoString(cs, w[p]);
      StepBound(cs, w[p]);
      GoesOn(w, start, p, cs, te);
    }
  }

  lemma Appended(w: seq<byte>, toks: seq<Lexed>, t: Lexed)
    requires LongestTokens(w, toks) && Longest(w, t) && t.start == EndOf(toks)
    ensures LongestTokens(w, toks + [t]) && EndOf(toks + [t]) == t.end
  {
    hide Longest;
    var longer := toks + [t];
    forall k | 0 <= k < |longer| ensures Longest(w, longer[k]) && longer[k].start == EndOf(longer[..k]) {
      if k < |toks| {
        assert longer[..k] == toks[..k];
      } else {
        assert longer[..k] == toks;
      }
    }
    assert t.end <= |w| by { EndsInside(w, t); }
  }

  lemma EndsInside(w: seq<byte>, t: Lexed)
    requires Longest(w, t)
    ensures t.start < t.end <= |w|
  {
  }

  /** Every report but the last was accepted. */
  ghost predicate AllAccepted(accept: (seq<Lexed>, Lexed) -> bool, toks: seq<Lexed>, n: int) {
    forall k :: 0 <= k < n <= |toks| ==> accept(toks[..k], toks[k])
  }

  lemma AcceptedMore(accept: (seq<Lexed>, Lexed) -> bool, toks: seq<Lexed>, t: Lexed)
    requires AllAccepted(accept, toks, |toks|)
    ensures AllAccepted(accept, toks + [t], |toks|)
    ensures accept(toks, t) ==> AllAccepted(accept, toks + [t], |toks| + 1)
  {
    assert forall k :: 0 <= k < |toks| ==> (toks + [t])[..k] == toks[..k];
    assert (toks + [t])[..|toks|] == toks;
  }

  /** The tokens of w, reported to a callback that may refuse one and so end the scan. */
  method Lexer(w: seq<byte>, accept: (seq<Lexed>, Lexed) -> bool) returns (o: Outcome, rest: nat, toks: seq<Lexed>)
    ensures LongestTokens(w, toks) && EndOf(toks) <= rest <= |w|
    ensures o == OK ==> EndOf(toks) == rest == |w|
    ensures o == BAD ==> EndOf(toks) < |w| && NoLexeme(w, EndOf(toks)) && StuckAt(w, EndOf(toks), rest)
    ensures o != REFUSED ==> AllAccepted(accept, toks, |toks|)
    ensures o == REFUSED ==>
      && |toks| > 0 && AllAccepted(accept, toks, |toks| - 1) && !accept(toks[..|toks| - 1], toks[|toks| - 1])
      && rest == EndOf(toks)
  {
    hide Move, Fallback, Scanning, Longest, LongestTokens, NoLexeme, AllAccepted, StuckAt;
    var p: int, cs, ts, te := 0, START, 0, 0;
    toks := [];
    ghost var start := 0;
    Fresh(w, 0, 0);
    assert LongestTokens(w, toks) && AllAccepted(accept, toks, 0) by { NoTokens(w, accept); }
    while true
      invariant 0 <= start <= p <= |w| && 1 <= cs <= 24 && Scanning(w, start, p, cs, te)
      invariant start == EndOf(toks) && LongestTokens(w, toks) && AllAccepted(accept, toks, |toks|)
      invariant cs == START <==> p == start
      invariant cs != START ==> ts == start
      decreases |w| - start, |w| - p
    {
      if p < |w| && cs == START {
        ts := p;
      }
      var found, to, act := NextTransition(w, p, cs);
      if !found {
        NoToken(w, start, p, cs, te, 0, 0);
        break;
      }
      if act > 2 {
        Emits(w, start, p, cs, te, to, act);
        if act <= 5 {
          te := p + 1;
        } else if act <= 7 {
          te := p;
          p := p - 1;
        } else {
          p := te - 1;
        }
        var t := Lexed(TagOf(act), ts, te);
        EndsInside(w, t);
        Appended(w, toks, t);
        AcceptedMore(accept, toks, t);
        if !accept(toks, t) {
          return REFUSED, p + 1, toks + [t];
        }
        toks, start, cs := toks + [t], te, to;
        Fresh(w, te, te);
      } else {
        NoToken(w, start, p, cs, te, to, act);
        if act == 2 {
          te := p + 1;
        }
        cs := to;
        if cs == 0 {
          break;
        }
      }
      p := p + 1;
    }
    rest := p;
    o := if cs < START then BAD else OK;
  }

  lemma NoTokens(w: seq<byte>, accept: (seq<Lexed>, Lexed) -> bool)
    ensures LongestTokens(w, []) && AllAccepted(accept, [], 0)
  {
  }

  lemma Fresh(w: seq<byte>, start: nat, te: nat)
    requires start <= |w|
    ensures Scanning(w, start, start, START, te)
  {
  }

  // ---- What follows ----

  /** No run of bytes is two kinds of token. */
  lemma OneTag(w: seq<byte>, i: nat, j: nat, a: Tag, b: Tag)
    requires j <= |w| && Lexeme(a, w, i, j) && Lexeme(b, w, i, j)
    ensures a == b
  {
    FinishesExactly(a, w, i, j);
    FinishesExactly(b, w, i, j);
  }

  lemma LongestIsUnique(w: seq<byte>, a: Lexed, b: Lexed)
    requires Longest(w, a) && Longest(w, b) && a.start == b.start
    ensures a == b
  {
    OneTag(w, a.start, a.end, a.tag, if a.end == b.end then b.tag else a.tag);
  }

  /** There is one way to cut the input into longest tokens: of two, the shorter is where the longer begins. */
  lemma {:induction false} CutsAgree(w: seq<byte>, a: seq<Lexed>, b: seq<Lexed>)
    requires LongestTokens(w, a) && LongestTokens(w, b) && |a| <= |b|
    ensures a == b[..|a|]
  {
    hide Longest, LongestTokens;
    if a == [] {
      assert b[..0] == [];
    } else {
      var n := |a| - 1;
      CutStart(w, a, n);
      CutStart(w, b, n);
      CutPrefix(w, a, n);
      CutsAgree(w, a[..n], b);
      LongestIsUnique(w, a[n], b[n]);
      Seqs.InitLast(a);
      Seqs.TakeSnoc(b, n);
    }
  }

  lemma CutStart(w: seq<byte>, toks: seq<Lexed>, n: nat)
    requires LongestTokens(w, toks) && n < |toks|
    ensures Longest(w, toks[n]) && toks[n].start == EndOf(toks[..n]) && toks[n].end <= |w|
  {
  }

  lemma CutPrefix(w: seq<byte>, toks: seq<Lexed>, n: nat)
    requires LongestTokens(w, toks) && n <= |toks|
    ensures LongestTokens(w, toks[..n])
  {
    forall k | 0 <= k < n ensures toks[..n][..k] == toks[..k] {
    }
    if n > 0 {
      CutStart(w, toks, n - 1);
    }
  }

  /** An input that can be cut into longest tokens to its end is not one the scanner gets stuck on. */
  lemma CuttableIsNotStuck(w: seq<byte>, whole: seq<Lexed>, toks: seq<Lexed>)
    requires LongestTokens(w, whole) && EndOf(whole) == |w| && LongestTokens(w, toks) && EndOf(toks) < |w|
    ensures !NoLexeme(w, EndOf(toks))
  {
    if |whole| <= |toks| {
      CutsAgree(w, whole, toks);
      EndsGrow(w, toks, |whole|);
    } else {
      CutsAgree(w, toks, whole);
      CutStart(w, whole, |toks|);
    }
  }

  lemma {:induction false} EndsGrow(w: seq<byte>, toks: seq<Lexed>, n: nat)
    requires LongestTokens(w, toks) && n <= |toks|
    ensures EndOf(toks[..n]) <= EndOf(toks)
    decreases |toks| - n
  {
    if n < |toks| {
      CutStart(w, toks, n);
      EndsGrow(w, toks, n + 1);
    } else {
      assert toks[..n] == toks;
    }
  }

  function Letter(tag: Tag): char {
    match tag
    case G => 'G'
    case L => 'L'
    case R => 'R'
    case P => 'P'
    case W => 'W'
  }

  /** HUNKTokCB: each token is packed with the sum of the lengths so far as its end. */
  function Packed(toks: seq<Lexed>): seq<Token>
    requires forall k :: 0 <= k < |toks| ==> toks[k].start <= toks[k].end
  {
    if toks == [] then []
    else
      var n := |toks| - 1;
      var before := Packed(toks[..n]);
      before + [Token(Letter(toks[n].tag), EQ, Start(before, |before|) + (toks[n].end - toks[n].start))]
  }

  /**
   * Because the tokens are adjacent from the first byte on, the sums are the true offsets, and the packed tokens tile.
   */
  lemma {:induction false} PackedOffsetsAreTrue(w: seq<byte>, toks: seq<Lexed>)
    requires LongestTokens(w, toks)
    ensures forall k :: 0 <= k < |toks| ==> toks[k].start <= toks[k].end
    ensures |Packed(toks)| == |toks|
    ensures forall k :: 0 <= k < |toks| ==> Packed(toks)[k] == Token(Letter(toks[k].tag), EQ, toks[k].end)
    ensures Start(Packed(toks), |toks|) == EndOf(toks)
    ensures Tiles(Packed(toks), |w|)
  {
    forall k | 0 <= k < |toks| ensures toks[k].start <= toks[k].end {
      CutStart(w, toks, k);
    }
    if toks != [] {
      var n := |toks| - 1;
      CutPrefix(w, toks, n);
      CutStart(w, toks, n);
      PackedOffsetsAreTrue(w, toks[..n]);
      hide LongestTokens, Longest;
      LastIsBehind(Packed(toks[..n]), Packed(toks)[n], |w|);
    }
  }

  /** The letter packed with a token says what kind of lexeme its bytes are. */
  lemma LettersNameKinds(w: seq<byte>, toks: seq<Lexed>, k: nat)
    requires LongestTokens(w, toks) && k < |toks|
    ensures forall i :: 0 <= i < |toks| ==> toks[i].start <= toks[i].end
    ensures |Packed(toks)| == |toks|
    ensures var i, j, c := toks[k].start, toks[k].end, Packed(toks)[k].tag;
      && (c == 'G' <==> StringLexeme(w, i, j))
      && (c == 'L' <==> NumberLexeme(w, i, j))
      && (c == 'R' <==> KeywordLexeme(w, i, j))
      && (c == 'P' <==> i + 1 == j <= |w| && Punct(w[i]))
      && (c == 'W' <==> SpaceLexeme(w, i, j))
  {
    hide StringLexeme, NumberLexeme, KeywordLexeme, SpaceLexeme, Punct, Packed;
    PackedOffsetsAreTrue(w, toks);
    assert Longest(w, toks[k]);
    var i, j := toks[k].start, toks[k].end;
    forall tag ensures Lexeme(tag, w, i, j) <==> tag == toks[k].tag {
      if Lexeme(tag, w, i, j) {
        OneTag(w, i, j, tag, toks[k].tag);
      }
    }
    assert Lexeme(G, w, i, j) == StringLexeme(w, i, j) && Lexeme(L, w, i, j) == NumberLexeme(w, i, j);
    assert Lexeme(R, w, i, j) == KeywordLexeme(w, i, j) && Lexeme(W, w, i, j) == SpaceLexeme(w, i, j);
    assert Lexeme(P, w, i, j) == (i + 1 == j <= |w| && Punct(w[i]));
  }

  lemma LastIsBehind(before: seq<Token>, last: Token, length: nat)
    requires Tiles(before, length) && Start(before, |before|) <= last.end <= length
    ensures Tiles(before + [last], length)
  {
  }
}
