/** The path segment automaton (dog/DPATH.rl.c, dog/DPATH.h): which tree entry names are accepted. */
module DpathTables {
  import opened Bytes

  const KEY_OFFSETS: seq<nat> := [0, 0, 18, 20, 22, 24, 26, 28, 30, 32, 54, 71, 88, 107, 126]
  const SINGLE_LENGTHS: seq<nat> := [0, 8, 0, 0, 0, 0, 0, 0, 0, 12, 7, 7, 9, 9, 9]
  const RANGE_LENGTHS: seq<nat> := [0, 5, 1, 1, 1, 1, 1, 1, 1, 5, 5, 5, 5, 5, 5]
  const INDEX_OFFSETS: seq<nat> := [0, 0, 14, 16, 18, 20, 22, 24, 26, 28, 46, 59, 72, 87, 102]

  /** Keys, state by state: the single ones, and the ranges behind them. */
  const SINGLES_1: seq<byte> := [0, 46, 47, 92, 224, 237, 240, 244]
  const SINGLES_9: seq<byte> := [0, 46, 47, 66, 71, 92, 98, 103, 224, 237, 240, 244]
  const SINGLES_10: seq<byte> := [0, 47, 92, 224, 237, 240, 244]
  const SINGLES_11: seq<byte> := [0, 47, 92, 224, 237, 240, 244]
  const SINGLES_12: seq<byte> := [0, 47, 69, 92, 101, 224, 237, 240, 244]
  const SINGLES_13: seq<byte> := [0, 47, 73, 92, 105, 224, 237, 240, 244]
  const SINGLES_14: seq<byte> := [0, 47, 84, 92, 116, 224, 237, 240, 244]

  /** Ranges of bytes that start a character, or none; they are the same in every state between characters. */
  const LEADS: seq<byte> := [128, 193, 194, 223, 225, 239, 241, 243, 245, 255]
  const RANGES_2_TO_8: seq<byte> := [128, 191, 160, 191, 128, 191, 128, 159, 144, 191, 128, 191, 128, 143]

  const KEYS_1_TO_8: seq<byte> := SINGLES_1 + LEADS + RANGES_2_TO_8
  const KEYS_9_TO_10: seq<byte> := (SINGLES_9 + LEADS) + (SINGLES_10 + LEADS)
  const KEYS_11_TO_12: seq<byte> := (SINGLES_11 + LEADS) + (SINGLES_12 + LEADS)
  const KEYS_13_TO_14: seq<byte> := (SINGLES_13 + LEADS) + (SINGLES_14 + LEADS)
  const TRANS_KEYS: seq<byte> := (KEYS_1_TO_8 + KEYS_9_TO_10) + (KEYS_11_TO_12 + KEYS_13_TO_14) + [0]

  /** Targets, state by state, the default one last. */
  const TARGS_1: seq<nat> := [0, 9, 0, 0, 3, 5, 6, 8, 0, 2, 4, 7, 0, 11]
  const TARGS_2_TO_8: seq<nat> := [11, 0, 2, 0, 2, 0, 2, 0, 4, 0, 4, 0, 4, 0]
  const TARGS_9: seq<nat> := [0, 10, 0, 12, 13, 0, 12, 13, 3, 5, 6, 8, 0, 2, 4, 7, 0, 11]
  const TARGS_10: seq<nat> := [0, 0, 0, 3, 5, 6, 8, 0, 2, 4, 7, 0, 11]
  const TARGS_11: seq<nat> := [0, 0, 0, 3, 5, 6, 8, 0, 2, 4, 7, 0, 11]
  const TARGS_12: seq<nat> := [0, 0, 10, 0, 10, 3, 5, 6, 8, 0, 2, 4, 7, 0, 11]
  const TARGS_13: seq<nat> := [0, 0, 14, 0, 14, 3, 5, 6, 8, 0, 2, 4, 7, 0, 11]
  const TARGS_14: seq<nat> := [0, 0, 10, 0, 10, 3, 5, 6, 8, 0, 2, 4, 7, 0, 11]

  const TARGS_LOW: seq<nat> := (TARGS_1 + TARGS_2_TO_8) + (TARGS_9 + TARGS_10)
  const TARGS_HIGH: seq<nat> := (TARGS_11 + TARGS_12) + (TARGS_13 + TARGS_14)
  const TRANS_TARGS: seq<nat> := TARGS_LOW + TARGS_HIGH + [0]

  const START: nat := 1
  const FIRST_FINAL: nat := 11
}

/** What the tables say, state by state. */
module DpathMachine {
  import opened Bytes
  import opened Ragel
  import opened DpathTables

  /** States 2 to 8, inside a character, have one range of keys and one target besides 0. */
  function RowOf(cs: nat): Row {
    match cs
    case 1 => Row(SINGLES_1, LEADS, TARGS_1)
    case 9 => Row(SINGLES_9, LEADS, TARGS_9)
    case 10 => Row(SINGLES_10, LEADS, TARGS_10)
    case 11 => Row(SINGLES_11, LEADS, TARGS_11)
    case 12 => Row(SINGLES_12, LEADS, TARGS_12)
    case 13 => Row(SINGLES_13, LEADS, TARGS_13)
    case 14 => Row(SINGLES_14, LEADS, TARGS_14)
    case _ =>
      if 2 <= cs <= 8 then var t := InnerOf(cs); Row([], [t.low, t.high], [t.target, 0]) else Row([], [], [0])
  }

  datatype Inner = Inner(low: byte, high: byte, target: nat)

  function InnerOf(cs: nat): Inner {
    match cs
    case 2 => Inner(128, 191, 11)
    case 3 => Inner(160, 191, 2)
    case 4 => Inner(128, 191, 2)
    case 5 => Inner(128, 159, 2)
    case 6 => Inner(144, 191, 4)
    case 7 => Inner(128, 191, 4)
    case _ => Inner(128, 143, 4)
  }

  /** The tables hold these rows. */
  ghost predicate Tabulated(cs: nat)
    requires 1 <= cs <= 14
  {
    Holds(TRANS_KEYS, TRANS_TARGS, KEY_OFFSETS[cs], SINGLE_LENGTHS[cs], RANGE_LENGTHS[cs], INDEX_OFFSETS[cs], RowOf(cs))
  }

  lemma Lengths()
    ensures |SINGLES_1| == 8 && |SINGLES_9| == 12 && |SINGLES_10| == 7 && |SINGLES_11| == 7
    ensures |SINGLES_12| == 9 && |SINGLES_13| == 9 && |SINGLES_14| == 9 && |LEADS| == 10 && |RANGES_2_TO_8| == 14
    ensures |TARGS_1| == 14 && |TARGS_2_TO_8| == 14 && |TARGS_9| == 18 && |TARGS_10| == 13
    ensures |TARGS_11| == 13 && |TARGS_12| == 15 && |TARGS_13| == 15 && |TARGS_14| == 15
  {
  }

  lemma InnerPlace(j: nat)
    requires j < 14
    ensures |TRANS_KEYS| == 146 && TRANS_KEYS[18 + j] == RANGES_2_TO_8[j]
    ensures |TRANS_TARGS| == 118 && TRANS_TARGS[14 + j] == TARGS_2_TO_8[j]
  {
    hide SINGLES_1, SINGLES_9, SINGLES_10, SINGLES_11, SINGLES_12, SINGLES_13, SINGLES_14, LEADS, RANGES_2_TO_8;
    hide TARGS_1, TARGS_2_TO_8, TARGS_9, TARGS_10, TARGS_11, TARGS_12, TARGS_13, TARGS_14;
    Lengths();
  }

  lemma InnerValues(cs: nat)
    requires 2 <= cs <= 8
    ensures var i := 2 * (cs - 2);
      && RANGES_2_TO_8[i] == InnerOf(cs).low && RANGES_2_TO_8[i + 1] == InnerOf(cs).high
      && TARGS_2_TO_8[i] == InnerOf(cs).target && TARGS_2_TO_8[i + 1] == 0
  {
    if cs == 2 {
    } else if cs == 3 {
    } else if cs == 4 {
    } else if cs == 5 {
    } else if cs == 6 {
    } else if cs == 7 {
    } else {
      assert cs == 8;
    }
  }

  lemma InnerOffsets(cs: nat)
    requires 2 <= cs <= 8
    ensures KEY_OFFSETS[cs] == 14 + 2 * cs && INDEX_OFFSETS[cs] == 10 + 2 * cs
    ensures SINGLE_LENGTHS[cs] == 0 && RANGE_LENGTHS[cs] == 1
  {
  }

  lemma TabulatedInner(cs: nat)
    requires 2 <= cs <= 8
    ensures Tabulated(cs)
  {
    hide TRANS_KEYS, TRANS_TARGS, RANGES_2_TO_8, TARGS_2_TO_8;
    hide KEY_OFFSETS, INDEX_OFFSETS, SINGLE_LENGTHS, RANGE_LENGTHS;
    hide InnerOf;
    var i := 2 * (cs - 2);
    InnerOffsets(cs);
    InnerValues(cs);
    InnerPlace(i);
    InnerPlace(i + 1);
  }

  lemma KeyPlaces()
    ensures |TRANS_KEYS| == 146
    ensures TRANS_KEYS[0..8] == SINGLES_1 && TRANS_KEYS[8..18] == LEADS
    ensures TRANS_KEYS[32..44] == SINGLES_9 && TRANS_KEYS[44..54] == LEADS
    ensures TRANS_KEYS[54..61] == SINGLES_10 && TRANS_KEYS[61..71] == LEADS
    ensures TRANS_KEYS[71..78] == SINGLES_11 && TRANS_KEYS[78..88] == LEADS
    ensures TRANS_KEYS[88..97] == SINGLES_12 && TRANS_KEYS[97..107] == LEADS
    ensures TRANS_KEYS[107..116] == SINGLES_13 && TRANS_KEYS[116..126] == LEADS
    ensures TRANS_KEYS[126..135] == SINGLES_14 && TRANS_KEYS[135..145] == LEADS
  {
    hide SINGLES_1, SINGLES_9, SINGLES_10, SINGLES_11, SINGLES_12, SINGLES_13, SINGLES_14, LEADS, RANGES_2_TO_8;
    Lengths();
  }

  lemma TargPlaces()
    ensures |TRANS_TARGS| == 118
    ensures TRANS_TARGS[0..14] == TARGS_1 && TRANS_TARGS[28..46] == TARGS_9
    ensures TRANS_TARGS[46..59] == TARGS_10 && TRANS_TARGS[59..72] == TARGS_11
    ensures TRANS_TARGS[72..87] == TARGS_12 && TRANS_TARGS[87..102] == TARGS_13
    ensures TRANS_TARGS[102..117] == TARGS_14
  {
    hide SINGLES_1, SINGLES_9, SINGLES_10, SINGLES_11, SINGLES_12, SINGLES_13, SINGLES_14, LEADS, RANGES_2_TO_8;
    hide TARGS_1, TARGS_2_TO_8, TARGS_9, TARGS_10, TARGS_11, TARGS_12, TARGS_13, TARGS_14;
    Lengths();
  }

  lemma TabulatedText(cs: nat)
    requires cs == 1 || 9 <= cs <= 14
    ensures Tabulated(cs)
  {
    hide TRANS_KEYS, TRANS_TARGS, LEADS;
    hide SINGLES_1, SINGLES_9, SINGLES_10, SINGLES_11, SINGLES_12, SINGLES_13, SINGLES_14;
    hide TARGS_1, TARGS_9, TARGS_10, TARGS_11, TARGS_12, TARGS_13, TARGS_14;
    KeyPlaces();
    TargPlaces();
    Lengths();
  }

  lemma AllTabulated(cs: nat)
    requires 1 <= cs <= 14
    ensures Tabulated(cs)
  {
    if 2 <= cs <= 8 {
      TabulatedInner(cs);
    } else {
      TabulatedText(cs);
    }
    hide Tabulated;
  }
}

/** What a name has to look like, and that the automaton decides it. */
module Dpath {
  import opened Bytes
  import opened Ragel
  import opened DpathTables
  import opened DpathMachine

  const DOT: byte := 46
  const BACKSLASH: byte := 92

  // ---- What the header promises ----

  /** Unicode scalar values: code points without the surrogates. */
  predicate Scalar(cp: int) {
    0 <= cp < 0xD800 || 0xE000 <= cp < 0x11_0000
  }

  /** UTF-8, section 3 of RFC 3629. */
  function EncodePoint(cp: int): (r: seq<byte>)
    requires Scalar(cp)
    ensures 1 <= |r| <= 4
  {
    if cp < 0x80 then [cp]
    else if cp < 0x800 then [0xC0 + cp / 64, 0x80 + cp % 64]
    else if cp < 0x1_0000 then [0xE0 + cp / 4096, 0x80 + cp / 64 % 64, 0x80 + cp % 64]
    else [0xF0 + cp / 262144, 0x80 + cp / 4096 % 64, 0x80 + cp / 64 % 64, 0x80 + cp % 64]
  }

  predicate AllScalar(cps: seq<int>) {
    forall i :: 0 <= i < |cps| ==> Scalar(cps[i])
  }

  function Encode(cps: seq<int>): seq<byte>
    requires AllScalar(cps)
  {
    if cps == [] then [] else EncodePoint(cps[0]) + Encode(cps[1..])
  }

  /** The bytes spell some sequence of scalar values. */
  ghost predicate WellFormed(s: seq<byte>) {
    exists cps :: AllScalar(cps) && Encode(cps) == s
  }

  /** NUL and the two path separators. */
  predicate Forbidden(b: byte) {
    b == 0 || b == SLASH || b == BACKSLASH
  }

  predicate Clean(s: seq<byte>) {
    forall i :: 0 <= i < |s| ==> !Forbidden(s[i])
  }

  function Lower(b: byte): byte {
    if 65 <= b <= 90 then b + 32 else b
  }

  /** The letters of a word, in either case. */
  predicate Spells(s: seq<byte>, word: seq<byte>) {
    |s| == |word| && forall i :: 0 <= i < |s| ==> Lower(s[i]) == word[i]
  }

  /** ".", "..", and ".git" and ".be" in any mix of cases. */
  predicate Reserved(s: seq<byte>) {
    s == [DOT] || s == [DOT, DOT] || Spells(s, [46, 103, 105, 116]) || Spells(s, [46, 98, 101])
  }

  ghost predicate Acceptable(name: seq<byte>) {
    name != [] && WellFormed(name) && Clean(name) && !Reserved(name)
  }

  // ---- The automaton ----

  /** Where a byte that may start a character leads. */
  function Lead(c: byte): nat {
    if Forbidden(c) then 0
    else if c < 0x80 then 11
    else if c < 0xC2 then 0
    else if c <= 0xDF then 2
    else if c == 0xE0 then 3
    else if c == 0xED then 5
    else if c <= 0xEF then 4
    else if c == 0xF0 then 6
    else if c <= 0xF3 then 7
    else if c == 0xF4 then 8
    else 0
  }

  function Between(c: byte, lo: int, hi: int, target: nat): nat {
    if lo <= c <= hi then target else 0
  }

  /** One transition. */
  function Step(cs: nat, c: byte): nat {
    match cs
    case 2 => Between(c, 0x80, 0xBF, 11)
    case 3 => Between(c, 0xA0, 0xBF, 2)
    case 4 => Between(c, 0x80, 0xBF, 2)
    case 5 => Between(c, 0x80, 0x9F, 2)
    case 6 => Between(c, 0x90, 0xBF, 4)
    case 7 => Between(c, 0x80, 0xBF, 4)
    case 8 => Between(c, 0x80, 0x8F, 4)
    case _ =>
      if cs == 1 && c == DOT then 9
      else if cs == 9 && c == DOT then 10
      else if cs == 9 && Lower(c) == 98 then 12
      else if cs == 9 && Lower(c) == 103 then 13
      else if cs == 12 && Lower(c) == 101 then 10
      else if cs == 13 && Lower(c) == 105 then 14
      else if cs == 14 && Lower(c) == 116 then 10
      else Lead(c)
  }

  /** Every state's rows are sorted for the binary searches, and the row's entry is the clean step. */
  lemma LeadsAreSorted()
    ensures IncreasingRanges(LEADS) && |LEADS| == 10
  {
  }

  lemma DotIsSorted()
    ensures Increasing(RowOf(9).singles)
  {
  }

  lemma LettersAreSorted(cs: nat)
    requires 12 <= cs <= 14
    ensures Increasing(RowOf(cs).singles)
  {
  }

  lemma RowIsShaped(cs: nat)
    requires 1 <= cs <= 14
    ensures Shaped(RowOf(cs))
  {
    hide IncreasingRanges, LEADS;
    LeadsAreSorted();
    if 2 <= cs <= 8 {
      InnerIsSorted(cs);
    } else {
      assert RowOf(cs).ranges == LEADS;
      if cs == 9 {
        DotIsSorted();
      } else if cs >= 12 {
        LettersAreSorted(cs);
      }
    }
  }

  lemma InnerIsSorted(cs: nat)
    requires 2 <= cs <= 8
    ensures IncreasingRanges(RowOf(cs).ranges)
  {
  }

  ghost predicate RowSteps(cs: nat, c: byte) {
    && var row := RowOf(cs);
    && |row.ranges| % 2 == 0
    && Position(row.singles, row.ranges, c) < |row.targs|
    && row.targs[Position(row.singles, row.ranges, c)] == Step(cs, c)
  }

  lemma InnerRowSteps(cs: nat, c: byte)
    requires 2 <= cs <= 8
    ensures RowSteps(cs, c)
  {
    hide KeyIndex, RangeIndex, Position, InnerOf, Step;
    InnerStep(cs, c);
    ShortPosition(RowOf(cs).singles, RowOf(cs).ranges, c);
  }

  lemma InnerStep(cs: nat, c: byte)
    requires 2 <= cs <= 8
    ensures Step(cs, c) == Between(c, InnerOf(cs).low, InnerOf(cs).high, InnerOf(cs).target)
  {
  }

  /** Which of the ranges of LEADS holds c. */
  function LeadRange(c: byte): nat {
    if 128 <= c <= 193 then 0
    else if 194 <= c <= 223 then 1
    else if 225 <= c <= 239 then 2
    else if 241 <= c <= 243 then 3
    else if 245 <= c then 4
    else 5
  }

  lemma LeadPosition(singles: seq<byte>, c: byte)
    requires |singles| <= SHORT_SINGLES
    ensures |LEADS| == 10
    ensures Position(singles, LEADS, c) ==
      if KeyChain(singles, c) < |singles| then KeyChain(singles, c) else |singles| + LeadRange(c)
  {
    hide KeyIndex, RangeIndex, Position, KeyChain;
    ShortPosition(singles, LEADS, c);
  }

  lemma StartRowSteps(c: byte)
    ensures RowSteps(1, c)
  {
    hide KeyIndex, RangeIndex, Position, LEADS;
    LeadPosition(SINGLES_1, c);
  }

  lemma DotPosition(c: byte)
    ensures |SINGLES_9| == 12
    ensures KeyChain(SINGLES_9, c) ==
      if c == 0 then 0 else if c == DOT then 1 else if c == SLASH then 2 else if c == 66 then 3
      else if c == 71 then 4 else if c == BACKSLASH then 5 else if c == 98 then 6 else if c == 103 then 7
      else if c == 224 then 8 else if c == 237 then 9 else if c == 240 then 10 else if c == 244 then 11 else 12
  {
  }

  lemma DotRowSteps(c: byte)
    ensures RowSteps(9, c)
  {
    hide KeyIndex, RangeIndex, Position, LEADS, KeyChain, SINGLES_9;
    DotPosition(c);
    LeadPosition(SINGLES_9, c);
  }

  lemma PlainRowSteps(c: byte)
    ensures RowSteps(10, c) && RowSteps(11, c)
  {
    hide KeyIndex, RangeIndex, Position, LEADS;
    LeadPosition(SINGLES_10, c);
    LeadPosition(SINGLES_11, c);
  }

  /** In the states inside a reserved name one letter has a key in each of its cases. */
  function LetterKey(letter: byte, c: byte): nat {
    if c == 0 then 0 else if c == SLASH then 1 else if c == letter then 2 else if c == BACKSLASH then 3
    else if c == letter + 32 then 4 else if c == 224 then 5 else if c == 237 then 6 else if c == 240 then 7
    else if c == 244 then 8 else 9
  }

  lemma BePosition(c: byte)
    ensures |SINGLES_12| == 9 && KeyChain(SINGLES_12, c) == LetterKey(69, c)
  {
  }

  lemma BeRowSteps(c: byte)
    ensures RowSteps(12, c)
  {
    hide KeyIndex, RangeIndex, Position, LEADS, KeyChain, SINGLES_12;
    BePosition(c);
    LeadPosition(SINGLES_12, c);
  }

  lemma GiPosition(c: byte)
    ensures |SINGLES_13| == 9 && KeyChain(SINGLES_13, c) == LetterKey(73, c)
  {
  }

  lemma GiRowSteps(c: byte)
    ensures RowSteps(13, c)
  {
    hide KeyIndex, RangeIndex, Position, LEADS, KeyChain, SINGLES_13;
    GiPosition(c);
    LeadPosition(SINGLES_13, c);
  }

  lemma GitPosition(c: byte)
    ensures |SINGLES_14| == 9 && KeyChain(SINGLES_14, c) == LetterKey(84, c)
  {
  }

  lemma GitRowSteps(c: byte)
    ensures RowSteps(14, c)
  {
    hide KeyIndex, RangeIndex, Position, LEADS, KeyChain, SINGLES_14;
    GitPosition(c);
    LeadPosition(SINGLES_14, c);
  }

  /** The rest of w from i on is accepted out of state cs. */
  ghost predicate Accepts(cs: nat, w: seq<byte>, i: nat)
    requires i <= |w|
    decreases |w| - i
  {
    cs != 0 && if i == |w| then cs >= FIRST_FINAL else Accepts(Step(cs, w[i]), w, i + 1)
  }

  // ---- The two agree ----

  lemma StepOver(cs: nat, w: seq<byte>, i: nat)
    requires i < |w| && cs != 0
    ensures Accepts(cs, w, i) == Accepts(Step(cs, w[i]), w, i + 1)
  {
  }

  /** The encoding of cp stands at i. */
  ghost predicate PointAt(w: seq<byte>, i: nat, cp: int)
    requires Scalar(cp)
  {
    i + |EncodePoint(cp)| <= |w| && forall j :: 0 <= j < |EncodePoint(cp)| ==> w[i + j] == EncodePoint(cp)[j]
  }

  lemma TwoByte(b: int, c: int) returns (cp: int)
    requires 0xC2 <= b <= 0xDF && 0x80 <= c <= 0xBF
    ensures Scalar(cp) && EncodePoint(cp) == [b, c]
  {
    cp := (b - 0xC0) * 64 + (c - 0x80);
  }

  lemma ThreeByte(b: int, c: int, d: int) returns (cp: int)
    requires 0xE0 <= b <= 0xEF && 0x80 <= c <= 0xBF && 0x80 <= d <= 0xBF
    requires (b == 0xE0 ==> 0xA0 <= c) && (b == 0xED ==> c <= 0x9F)
    ensures Scalar(cp) && EncodePoint(cp) == [b, c, d]
  {
    var x, y, z := b - 0xE0, c - 0x80, d - 0x80;
    cp := x * 4096 + y * 64 + z;
    Sextets(0, x, y, z, cp);
    assert cp / 4096 == x;
    assert !(0xD800 <= cp < 0xE000) && 0x800 <= cp < 0x1_0000;
  }

  lemma FourByte(b: int, c: int, d: int, e: int) returns (cp: int)
    requires 0xF0 <= b <= 0xF4 && 0x80 <= c <= 0xBF && 0x80 <= d <= 0xBF && 0x80 <= e <= 0xBF
    requires (b == 0xF0 ==> 0x90 <= c) && (b == 0xF4 ==> c <= 0x8F)
    ensures Scalar(cp) && EncodePoint(cp) == [b, c, d, e]
  {
    var x, y, z, t := b - 0xF0, c - 0x80, d - 0x80, e - 0x80;
    cp := x * 262144 + y * 4096 + z * 64 + t;
    Sextets(x, y, z, t, cp);
    assert 0x1_0000 <= cp < 0x11_0000;
  }

  lemma Sextets(x: int, y: int, z: int, t: int, cp: int)
    requires 0 <= x < 64 && 0 <= y < 64 && 0 <= z < 64 && 0 <= t < 64
    requires cp == x * 262144 + y * 4096 + z * 64 + t
    ensures cp / 262144 == x && cp / 4096 == x * 64 + y && cp / 4096 % 64 == y && cp / 64 % 64 == z && cp % 64 == t
  {
    assert cp / 64 == x * 4096 + y * 64 + z;
    assert cp / 4096 == x * 64 + y;
  }

  predicate Follows(c: byte) {
    0x80 <= c <= 0xBF
  }

  lemma OneMore(w: seq<byte>, i: nat)
    requires i <= |w| && Accepts(2, w, i)
    ensures i < |w| && Follows(w[i]) && Accepts(11, w, i + 1)
  {
    StepOver(2, w, i);
    AcceptsNonzero(Step(2, w[i]), w, i + 1);
  }

  lemma TwoMore(cs: nat, w: seq<byte>, i: nat)
    requires i <= |w| && 3 <= cs <= 5 && Accepts(cs, w, i)
    ensures i + 1 < |w| && Follows(w[i]) && Follows(w[i + 1]) && Accepts(11, w, i + 2)
    ensures (cs == 3 ==> 0xA0 <= w[i]) && (cs == 5 ==> w[i] <= 0x9F)
  {
    StepOver(cs, w, i);
    AcceptsNonzero(Step(cs, w[i]), w, i + 1);
    OneMore(w, i + 1);
  }

  lemma ThreeMore(cs: nat, w: seq<byte>, i: nat)
    requires i <= |w| && 6 <= cs <= 8 && Accepts(cs, w, i)
    ensures i + 2 < |w| && Follows(w[i]) && Follows(w[i + 1]) && Follows(w[i + 2]) && Accepts(11, w, i + 3)
    ensures (cs == 6 ==> 0x90 <= w[i]) && (cs == 8 ==> w[i] <= 0x8F)
  {
    StepOver(cs, w, i);
    AcceptsNonzero(Step(cs, w[i]), w, i + 1);
    TwoMore(4, w, i + 1);
  }

  /** Which bytes lead where from a text state. */
  lemma LeadOf(c: byte)
    ensures Step(11, c) == 11 || Step(11, c) <= 8
    ensures Step(11, c) == 11 ==> c < 0x80 && !Forbidden(c)
    ensures 1 <= Step(11, c) <= 8 ==>
      && 0xC2 <= c <= 0xF4
      && (Step(11, c) == 2 <==> c <= 0xDF)
      && (3 <= Step(11, c) <= 5 <==> 0xE0 <= c <= 0xEF)
      && (6 <= Step(11, c) <==> 0xF0 <= c)
      && (c == 0xE0 ==> Step(11, c) == 3) && (c == 0xED ==> Step(11, c) == 5)
      && (c == 0xF0 ==> Step(11, c) == 6) && (c == 0xF4 ==> Step(11, c) == 8)
    ensures Step(11, c) != 1
  {
  }

  lemma HighIsClean(r: seq<byte>)
    requires forall j :: 0 <= j < |r| ==> 0x80 <= r[j]
    ensures Clean(r)
  {
  }

  /** What the automaton reads from a text state back to a text state is the encoding of one scalar value. */
  lemma ReadPoint(w: seq<byte>, i: nat) returns (cp: int)
    requires i < |w| && Accepts(11, w, i)
    ensures Scalar(cp) && PointAt(w, i, cp) && Clean(EncodePoint(cp)) && Accepts(11, w, i + |EncodePoint(cp)|)
  {
    hide Accepts, EncodePoint, Step, Clean, Scalar;
    var s1 := Step(11, w[i]);
    StepOver(11, w, i);
    AcceptsNonzero(s1, w, i + 1);
    LeadOf(w[i]);
    if s1 == 11 {
      cp := w[i];
      Ascii(cp);
    } else if s1 == 2 {
      OneMore(w, i + 1);
      cp := TwoByte(w[i], w[i + 1]);
      HighIsClean(EncodePoint(cp));
    } else if s1 <= 5 {
      TwoMore(s1, w, i + 1);
      cp := ThreeByte(w[i], w[i + 1], w[i + 2]);
      HighIsClean(EncodePoint(cp));
    } else {
      ThreeMore(s1, w, i + 1);
      cp := FourByte(w[i], w[i + 1], w[i + 2], w[i + 3]);
      HighIsClean(EncodePoint(cp));
    }
  }

  lemma Ascii(cp: int)
    requires 0 <= cp < 0x80
    ensures Scalar(cp) && EncodePoint(cp) == [cp]
    ensures !Forbidden(cp) ==> Clean(EncodePoint(cp))
  {
  }

  lemma AcceptsNonzero(cs: nat, w: seq<byte>, i: nat)
    requires i <= |w| && Accepts(cs, w, i)
    ensures cs != 0
  {
  }

  lemma WritePoint(w: seq<byte>, i: nat, cp: int)
    requires Scalar(cp) && PointAt(w, i, cp) && Clean(EncodePoint(cp))
    ensures Accepts(11, w, i) == Accepts(11, w, i + |EncodePoint(cp)|)
  {
    hide Accepts, Step;
    var r := EncodePoint(cp);
    LeadsOn(cp);
    assert forall j :: 0 <= j < |r| ==> w[i + j] == r[j];
    StepOver(11, w, i);
    if |r| > 1 {
      StepOver(Step(11, r[0]), w, i + 1);
    }
    if |r| > 2 {
      StepOver(Step(Step(11, r[0]), r[1]), w, i + 2);
    }
    if |r| > 3 {
      StepOver(Step(Step(Step(11, r[0]), r[1]), r[2]), w, i + 3);
    }
  }

  /** How the bytes of an encoded scalar value are limited. */
  lemma PointBytes(cp: int)
    requires Scalar(cp)
    ensures var r := EncodePoint(cp);
      && (|r| == 1 ==> r[0] < 0x80)
      && (|r| == 2 ==> 0xC2 <= r[0] <= 0xDF && Follows(r[1]))
      && (|r| == 3 ==> 0xE0 <= r[0] <= 0xEF && Follows(r[1]) && Follows(r[2])
                       && (r[0] == 0xE0 ==> 0xA0 <= r[1]) && (r[0] == 0xED ==> r[1] <= 0x9F))
      && (|r| == 4 ==> 0xF0 <= r[0] <= 0xF4 && Follows(r[1]) && Follows(r[2]) && Follows(r[3])
                       && (r[0] == 0xF0 ==> 0x90 <= r[1]) && (r[0] == 0xF4 ==> r[1] <= 0x8F))
  {
    if 0x800 <= cp < 0x1_0000 {
      SecondOfThree(cp);
    } else if 0x1_0000 <= cp {
      SecondOfFour(cp);
    }
  }

  lemma SecondOfThree(cp: int)
    requires 0x800 <= cp < 0x1_0000 && Scalar(cp)
    ensures 0 <= cp / 4096 <= 15
    ensures (cp / 4096 == 0 ==> 32 <= cp / 64 % 64) && (cp / 4096 == 13 ==> cp / 64 % 64 <= 31)
  {
    assert cp / 64 == 64 * (cp / 4096) + cp / 64 % 64;
  }

  lemma SecondOfFour(cp: int)
    requires 0x1_0000 <= cp && Scalar(cp)
    ensures 0 <= cp / 262144 <= 4
    ensures (cp / 262144 == 0 ==> 16 <= cp / 4096 % 64) && (cp / 262144 == 4 ==> cp / 4096 % 64 <= 15)
  {
    assert cp / 4096 == 64 * (cp / 262144) + cp / 4096 % 64;
  }

  /** The bytes of an encoded scalar value lead from a text state to one. */
  lemma LeadsOn(cp: int)
    requires Scalar(cp) && Clean(EncodePoint(cp))
    ensures var r := EncodePoint(cp);
      && (|r| == 1 ==> Step(11, r[0]) == 11)
      && (|r| > 1 ==> Step(11, r[0]) != 0)
      && (|r| == 2 ==> Step(Step(11, r[0]), r[1]) == 11)
      && (|r| > 2 ==> Step(Step(11, r[0]), r[1]) != 0)
      && (|r| == 3 ==> Step(Step(Step(11, r[0]), r[1]), r[2]) == 11)
      && (|r| > 3 ==> Step(Step(Step(11, r[0]), r[1]), r[2]) != 0)
      && (|r| == 4 ==> Step(Step(Step(Step(11, r[0]), r[1]), r[2]), r[3]) == 11)
  {
    hide EncodePoint;
    PointBytes(cp);
    var r := EncodePoint(cp);
    assert !Forbidden(r[0]);
    if |r| == 3 {
      assert Step(11, r[0]) == if r[0] == 0xE0 then 3 else if r[0] == 0xED then 5 else 4;
    } else if |r| == 4 {
      assert Step(11, r[0]) == if r[0] == 0xF0 then 6 else if r[0] == 0xF4 then 8 else 7;
    }
  }

  /** A text state reads on to the end exactly when the rest is UTF-8 without forbidden bytes. */
  lemma {:induction false} TextIsUtf8(w: seq<byte>, i: nat)
    requires i <= |w|
    ensures Accepts(11, w, i) <==> WellFormed(w[i..]) && Clean(w[i..])
    decreases |w| - i
  {
    if Accepts(11, w, i) {
      TextDecodes(w, i);
    }
    if WellFormed(w[i..]) && Clean(w[i..]) {
      var cps :| AllScalar(cps) && Encode(cps) == w[i..];
      TextEncodes(w, i, cps);
    }
  }

  lemma {:induction false} TextDecodes(w: seq<byte>, i: nat)
    requires i <= |w| && Accepts(11, w, i)
    ensures WellFormed(w[i..]) && Clean(w[i..])
    decreases |w| - i
  {
    if i == |w| {
      assert Encode([]) == w[i..];
    } else {
      var cp := ReadPoint(w, i);
      var n := i + |EncodePoint(cp)|;
      TextDecodes(w, n);
      var cps :| AllScalar(cps) && Encode(cps) == w[n..];
      PointThenRest(w, i, cp);
      EncodeCons(cp, cps);
      forall j | 0 <= j < |w[i..]| ensures !Forbidden(w[i..][j]) {
        if i + j < n {
          assert w[i + j] == EncodePoint(cp)[j];
        } else {
          assert w[i + j] == w[n..][i + j - n];
        }
      }
    }
  }

  lemma PointThenRest(w: seq<byte>, i: nat, cp: int)
    requires Scalar(cp) && PointAt(w, i, cp)
    ensures w[i..] == EncodePoint(cp) + w[i + |EncodePoint(cp)|..]
  {
  }

  lemma EncodeCons(cp: int, cps: seq<int>)
    requires Scalar(cp) && AllScalar(cps)
    ensures AllScalar([cp] + cps) && Encode([cp] + cps) == EncodePoint(cp) + Encode(cps)
  {
    assert ([cp] + cps)[1..] == cps;
  }

  lemma {:induction false} TextEncodes(w: seq<byte>, i: nat, cps: seq<int>)
    requires i <= |w| && AllScalar(cps) && Encode(cps) == w[i..] && Clean(w[i..])
    ensures Accepts(11, w, i)
    decreases |cps|
  {
    if cps == [] {
      assert |w[i..]| == 0;
    } else {
      SplitPoint(w, i, cps);
      hide Accepts, PointAt, Clean, EncodePoint;
      TextEncodes(w, i + |EncodePoint(cps[0])|, cps[1..]);
      WritePoint(w, i, cps[0]);
    }
  }

  lemma SplitPoint(w: seq<byte>, i: nat, cps: seq<int>)
    requires i <= |w| && AllScalar(cps) && cps != [] && Encode(cps) == w[i..] && Clean(w[i..])
    ensures PointAt(w, i, cps[0]) && Clean(EncodePoint(cps[0]))
    ensures Encode(cps[1..]) == w[i + |EncodePoint(cps[0])|..] && Clean(w[i + |EncodePoint(cps[0])|..])
  {
    hide EncodePoint;
    var r := EncodePoint(cps[0]);
    var n := i + |r|;
    assert forall j :: 0 <= j < |r| ==> w[i..][j] == w[i + j] == r[j];
    assert w[i..][|r|..] == w[n..];
    assert Clean(w[n..]) by {
      assert forall j :: 0 <= j < |w[n..]| ==> w[n..][j] == w[i..][j + |r|];
    }
  }

  /** A state in a prefix of a reserved name accepts what plain text accepts, but for the rest of that name. */
  lemma PrefixStates(w: seq<byte>, i: nat)
    requires i <= |w|
    ensures Accepts(10, w, i) <==> i < |w| && Accepts(11, w, i)
    ensures Accepts(14, w, i) <==> Accepts(11, w, i) && !Spells(w[i..], [116])
    ensures Accepts(12, w, i) <==> Accepts(11, w, i) && !Spells(w[i..], [101])
  {
  }

  lemma GitPrefix(w: seq<byte>, i: nat)
    requires i <= |w|
    ensures Accepts(13, w, i) <==> Accepts(11, w, i) && !Spells(w[i..], [105, 116])
  {
    if i < |w| {
      PrefixStates(w, i + 1);
    }
  }

  lemma DotPrefix(w: seq<byte>, i: nat)
    requires i <= |w|
    ensures Accepts(9, w, i) <==>
      i < |w| && Accepts(11, w, i) && w[i..] != [DOT] && !Spells(w[i..], [103, 105, 116]) && !Spells(w[i..], [98, 101])
  {
    if i < |w| {
      PrefixStates(w, i + 1);
      GitPrefix(w, i + 1);
    }
  }

  /** The automaton accepts exactly the names the header describes. */
  lemma AcceptsExactly(w: seq<byte>)
    ensures Accepts(START, w, 0) <==> Acceptable(w)
  {
    if w != [] {
      TextIsUtf8(w, 0);
      DotPrefix(w, 1);
      assert w[0..] == w;
    }
  }

  // ---- DPATHu8sDrainSeg and DPATHVerify ----

  datatype Verdict = OK | FAIL | BAD

  lemma Entry(cs: nat, c: byte)
    requires 1 <= cs <= 14
    ensures RowSteps(cs, c)
  {
    if cs == 1 {
      StartRowSteps(c);
    } else if cs <= 8 {
      InnerRowSteps(cs, c);
    } else if cs == 9 {
      DotRowSteps(c);
    } else if cs <= 11 {
      PlainRowSteps(c);
    } else if cs == 12 {
      BeRowSteps(c);
    } else if cs == 13 {
      GiRowSteps(c);
    } else {
      GitRowSteps(c);
    }
  }

  lemma StateBound(cs: nat, c: byte)
    ensures Step(cs, c) <= 14
  {
  }

  /** One pass of the loop body: the tables searched as the generated code searches them. */
  method Transition(cs: nat, c: byte) returns (to: nat)
    requires 1 <= cs <= 14
    ensures to == Step(cs, c)
  {
    hide Step, RowOf, Shaped, TRANS_KEYS, TRANS_TARGS, Position, Holds;
    AllTabulated(cs);
    RowIsShaped(cs);
    Entry(cs, c);
    to := Lookup(TRANS_KEYS, TRANS_TARGS, KEY_OFFSETS[cs], SINGLE_LENGTHS[cs], RANGE_LENGTHS[cs], INDEX_OFFSETS[cs],
                 c, RowOf(cs));
  }

  /** Takes a whole name off the input when it is acceptable; an empty or unacceptable input is left alone. */
  method DrainSeg(input: seq<byte>) returns (o: Verdict, seg: seq<byte>, rest: seq<byte>)
    ensures o == FAIL <==> input == []
    ensures o == OK <==> Acceptable(input)
    ensures o == OK ==> seg == input && rest == []
    ensures o != OK ==> seg == [] && rest == input
  {
    if input == [] {
      return FAIL, [], input;
    }
    AcceptsExactly(input);
    hide Acceptable, Step;
    var p, cs := 0, START;
    while p < |input|
      invariant 0 <= p <= |input| && 1 <= cs <= 14
      invariant Accepts(START, input, 0) == Accepts(cs, input, p)
    {
      StepOver(cs, input, p);
      StateBound(cs, input[p]);
      cs := Transition(cs, input[p]);
      if cs == 0 {
        break;
      }
      p := p + 1;
    }
    if cs < FIRST_FINAL {
      return BAD, [], input;
    }
    return OK, input[..p], input[p..];
  }

  /** A tree entry name is verified exactly when it is acceptable. */
  method Verify(name: seq<byte>) returns (o: Verdict)
    ensures o == OK <==> Acceptable(name)
    ensures o == FAIL <==> name == []
  {
    if name == [] {
      return FAIL;
    }
    var seg, tmp;
    o, seg, tmp := DrainSeg(name);
    if o == OK && tmp != [] {
      o := BAD;
    }
  }
}
