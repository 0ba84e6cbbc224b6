/** The generated tables. */
module JsontTables {
  import opened Bytes
  import opened Ragel

  const KEY_OFFSETS: seq<nat> := [
    0, 0, 2, 11, 17, 23, 29, 35, 37, 39, 43, 45, 46, 47, 48, 49, 50, 51, 52, 53, 54, 70, 73, 78, 82
  ]
  const SINGLE_LENGTHS: seq<nat> := [0, 2, 9, 0, 0, 0, 0, 0, 0, 2, 0, 1, 1, 1, 1, 1, 1, 1, 1, 1, 12, 1, 3, 2, 0]
  const RANGE_LENGTHS: seq<nat> := [0, 0, 0, 3, 3, 3, 3, 1, 1, 1, 1, 0, 0, 0, 0, 0, 0, 0, 0, 0, 2, 1, 1, 1, 1]
  const INDEX_OFFSETS: seq<nat> := [
    0, 0, 3, 13, 17, 21, 25, 29, 31, 33, 37, 39, 41, 43, 45, 47, 49, 51, 53, 55, 57, 72, 75, 80, 84
  ]

  /** Keys, state by state: the single ones, and the ranges behind them. */
  const SINGLES_1: seq<byte> := [34, 92]
  const SINGLES_2: seq<byte> := [34, 47, 92, 98, 102, 110, 114, 116, 117]
  const SINGLES_9: seq<byte> := [43, 45]
  const SINGLES_20: seq<byte> := [32, 34, 44, 45, 58, 91, 93, 102, 110, 116, 123, 125]
  const SINGLES_21: seq<byte> := [32]
  const SINGLES_22: seq<byte> := [46, 69, 101]
  const SINGLES_23: seq<byte> := [69, 101]
  const HEXES: seq<byte> := [48, 57, 65, 70, 97, 102]
  const DIGITS: seq<byte> := [48, 57]
  const LETTERS: seq<byte> := [97, 108, 115, 101, 117, 108, 108, 114, 117]
  const RANGES_20: seq<byte> := [9, 13, 48, 57]
  const RANGES_21: seq<byte> := [9, 13]

  const KEYS_1_TO_6: seq<byte> := SINGLES_1 + SINGLES_2 + ((HEXES + HEXES) + (HEXES + HEXES))
  const KEYS_7_TO_10: seq<byte> := (DIGITS + DIGITS) + ((SINGLES_9 + DIGITS) + DIGITS)
  const KEYS_20_TO_21: seq<byte> := (SINGLES_20 + RANGES_20) + (SINGLES_21 + RANGES_21)
  const KEYS_22_TO_24: seq<byte> := (SINGLES_22 + DIGITS) + (SINGLES_23 + DIGITS) + DIGITS
  const TRANS_KEYS: seq<byte> := (KEYS_1_TO_6 + KEYS_7_TO_10) + LETTERS + (KEYS_20_TO_21 + KEYS_22_TO_24) + [0]

  /** Transitions, state by state, the default one last. */
  const TRANS_1: seq<nat> := [1, 2, 0]
  const TRANS_2: seq<nat> := [0, 0, 0, 0, 0, 0, 0, 0, 4, 3]
  const TRANS_3: seq<nat> := [5, 5, 5, 3]
  const TRANS_4: seq<nat> := [6, 6, 6, 3]
  const TRANS_5: seq<nat> := [7, 7, 7, 3]
  const TRANS_6: seq<nat> := [0, 0, 0, 3]
  const TRANS_7: seq<nat> := [8, 3]
  const TRANS_8: seq<nat> := [10, 9]
  const TRANS_9: seq<nat> := [11, 11, 12, 9]
  const TRANS_10: seq<nat> := [12, 9]
  const TRANS_11: seq<nat> := [13, 3]
  const TRANS_12: seq<nat> := [14, 3]
  const TRANS_13: seq<nat> := [15, 3]
  const TRANS_14: seq<nat> := [16, 3]
  const TRANS_15: seq<nat> := [17, 3]
  const TRANS_16: seq<nat> := [18, 3]
  const TRANS_17: seq<nat> := [16, 3]
  const TRANS_18: seq<nat> := [19, 3]
  const TRANS_19: seq<nat> := [15, 3]
  const TRANS_20: seq<nat> := [20, 0, 21, 22, 21, 21, 21, 23, 24, 25, 21, 21, 20, 8, 3]
  const TRANS_21: seq<nat> := [20, 20, 26]
  const TRANS_22: seq<nat> := [28, 29, 29, 8, 27]
  const TRANS_23: seq<nat> := [29, 29, 10, 27]
  const TRANS_24: seq<nat> := [12, 27]
  const TRANS_1_TO_6: seq<nat> := (TRANS_1 + TRANS_2 + TRANS_3) + (TRANS_4 + TRANS_5 + TRANS_6)
  const TRANS_7_TO_12: seq<nat> := (TRANS_7 + TRANS_8 + TRANS_9) + (TRANS_10 + TRANS_11 + TRANS_12)
  const TRANS_13_TO_18: seq<nat> := (TRANS_13 + TRANS_14 + TRANS_15) + (TRANS_16 + TRANS_17 + TRANS_18)
  const TRANS_19_TO_24: seq<nat> := (TRANS_19 + TRANS_20 + TRANS_21) + (TRANS_22 + TRANS_23 + TRANS_24)
  const INDICIES: seq<nat> := (TRANS_1_TO_6 + TRANS_7_TO_12) + (TRANS_13_TO_18 + TRANS_19_TO_24) + [0]

  const TRANS_TARGS: seq<nat> := [
    1, 20, 2, 0, 3, 4, 5, 6, 22, 20, 23, 10, 24, 12, 13, 14, 20, 16, 17, 19, 21, 20, 7, 11, 15, 18, 20, 20, 8, 9
  ]
  const TRANS_ACTIONS: seq<nat> := [
    0, 7, 0, 0, 0, 0, 0, 0, 5, 17, 5, 0, 0, 0, 0, 0, 9, 0, 0, 0, 0, 11, 0, 0, 0, 0, 15, 13, 0, 0
  ]
  const ACTIONS: seq<nat> := [0, 1, 0, 1, 1, 1, 2, 1, 3, 1, 4, 1, 5, 1, 6, 1, 7, 1, 8]
  const EOF_TRANS: seq<nat> := [0, 0, 0, 0, 0, 0, 0, 0, 10, 10, 10, 0, 0, 0, 0, 0, 0, 0, 0, 0, 0, 27, 28, 28, 28]

  /** The target of a transition, and the one action on its action list, 0 for an empty list. */
  function Effect(t: nat): (nat, nat) {
    match t
    case 0 => (1, 0)
    case 1 => (20, 3)
    case 2 => (2, 0)
    case 3 => (0, 0)
    case 4 => (3, 0)
    case 5 => (4, 0)
    case 6 => (5, 0)
    case 7 => (6, 0)
    case 8 => (22, 2)
    case 9 => (20, 8)
    case 10 => (23, 2)
    case 11 => (10, 0)
    case 12 => (24, 0)
    case 13 => (12, 0)
    case 14 => (13, 0)
    case 15 => (14, 0)
    case 16 => (20, 4)
    case 17 => (16, 0)
    case 18 => (17, 0)
    case 19 => (19, 0)
    case 20 => (21, 0)
    case 21 => (20, 5)
    case 22 => (7, 0)
    case 23 => (11, 0)
    case 24 => (15, 0)
    case 25 => (18, 0)
    case 26 => (20, 7)
    case 27 => (20, 6)
    case 28 => (8, 0)
    case 29 => (9, 0)
    case _ => (0, 0)
  }

  lemma EffectIs(t: nat)
    requires t < 30
    ensures TRANS_TARGS[t] == Effect(t).0 && TRANS_ACTIONS[t] < 18
    ensures TRANS_ACTIONS[t] == 0 ==> ACTIONS[0] == 0 && Effect(t).1 == 0
    ensures TRANS_ACTIONS[t] != 0 ==>
      ACTIONS[TRANS_ACTIONS[t]] == 1 && ACTIONS[TRANS_ACTIONS[t] + 1] == Effect(t).1 != 0
  {
  }

  function RowOf(cs: nat): Row {
    match cs
    case 1 => Row(SINGLES_1, [], TRANS_1)
    case 2 => Row(SINGLES_2, [], TRANS_2)
    case 3 => Row([], HEXES, TRANS_3)
    case 4 => Row([], HEXES, TRANS_4)
    case 5 => Row([], HEXES, TRANS_5)
    case 6 => Row([], HEXES, TRANS_6)
    case 7 => Row([], DIGITS, TRANS_7)
    case 8 => Row([], DIGITS, TRANS_8)
    case 9 => Row(SINGLES_9, DIGITS, TRANS_9)
    case 10 => Row([], DIGITS, TRANS_10)
    case 11 => Row([LETTERS[0]], [], TRANS_11)
    case 12 => Row([LETTERS[1]], [], TRANS_12)
    case 13 => Row([LETTERS[2]], [], TRANS_13)
    case 14 => Row([LETTERS[3]], [], TRANS_14)
    case 15 => Row([LETTERS[4]], [], TRANS_15)
    case 16 => Row([LETTERS[5]], [], TRANS_16)
    case 17 => Row([LETTERS[6]], [], TRANS_17)
    case 18 => Row([LETTERS[7]], [], TRANS_18)
    case 19 => Row([LETTERS[8]], [], TRANS_19)
    case 20 => Row(SINGLES_20, RANGES_20, TRANS_20)
    case 21 => Row(SINGLES_21, RANGES_21, TRANS_21)
    case 22 => Row(SINGLES_22, DIGITS, TRANS_22)
    case 23 => Row(SINGLES_23, DIGITS, TRANS_23)
    case 24 => Row([], DIGITS, TRANS_24)
    case _ => Row([], [], [0])
  }

  /** The tables hold these rows. */
  ghost predicate Tabulated(cs: nat)
    requires 1 <= cs <= 24
  {
    Holds(TRANS_KEYS, INDICIES, KEY_OFFSETS[cs], SINGLE_LENGTHS[cs], RANGE_LENGTHS[cs], INDEX_OFFSETS[cs], RowOf(cs))
  }

  lemma KeyLengths()
    ensures |SINGLES_1| == 2 && |SINGLES_2| == 9 && |SINGLES_9| == 2 && |SINGLES_20| == 12
    ensures |SINGLES_21| == 1 && |SINGLES_22| == 3 && |SINGLES_23| == 2
    ensures |HEXES| == 6 && |DIGITS| == 2 && |LETTERS| == 9 && |RANGES_20| == 4 && |RANGES_21| == 2
  {
  }

  lemma TransLengths()
    ensures |TRANS_1| == 3 && |TRANS_2| == 10 && |TRANS_3| == 4 && |TRANS_4| == 4 && |TRANS_5| == 4 && |TRANS_6| == 4
    ensures |TRANS_7| == 2 && |TRANS_8| == 2 && |TRANS_9| == 4 && |TRANS_10| == 2 && |TRANS_11| == 2 && |TRANS_12| == 2
    ensures |TRANS_13| == 2 && |TRANS_14| == 2 && |TRANS_15| == 2 && |TRANS_16| == 2 && |TRANS_17| == 2 &&
      |TRANS_18| == 2
    ensures |TRANS_19| == 2 && |TRANS_20| == 15 && |TRANS_21| == 3 && |TRANS_22| == 5 && |TRANS_23| == 4 &&
      |TRANS_24| == 2
  {
  }

  /** Where the keys of each state stand. */
  lemma KeysOfStates()
    ensures |TRANS_KEYS| == 85
    ensures TRANS_KEYS[0..2] == SINGLES_1
    ensures TRANS_KEYS[2..11] == SINGLES_2
    ensures TRANS_KEYS[11..17] == HEXES
    ensures TRANS_KEYS[17..23] == HEXES
    ensures TRANS_KEYS[23..29] == HEXES
    ensures TRANS_KEYS[29..35] == HEXES
    ensures TRANS_KEYS[35..37] == DIGITS
    ensures TRANS_KEYS[37..39] == DIGITS
    ensures TRANS_KEYS[39..41] == SINGLES_9 && TRANS_KEYS[41..43] == DIGITS
    ensures TRANS_KEYS[43..45] == DIGITS
    ensures TRANS_KEYS[54..66] == SINGLES_20 && TRANS_KEYS[66..70] == RANGES_20
    ensures TRANS_KEYS[70..71] == SINGLES_21 && TRANS_KEYS[71..73] == RANGES_21
    ensures TRANS_KEYS[73..76] == SINGLES_22 && TRANS_KEYS[76..78] == DIGITS
    ensures TRANS_KEYS[78..80] == SINGLES_23 && TRANS_KEYS[80..82] == DIGITS
    ensures TRANS_KEYS[82..84] == DIGITS
  {
    hide SINGLES_1, SINGLES_2, SINGLES_9, SINGLES_20, SINGLES_21, SINGLES_22, SINGLES_23;
    hide HEXES, DIGITS, LETTERS, RANGES_20, RANGES_21;
    KeyLengths();
  }

  lemma KeysOfWords(cs: nat)
    requires 11 <= cs <= 19
    ensures |TRANS_KEYS| == 85 && |LETTERS| == 9
    ensures TRANS_KEYS[34 + cs] == LETTERS[cs - 11] && TRANS_KEYS[34 + cs..35 + cs] == [LETTERS[cs - 11]]
  {
    hide SINGLES_1, SINGLES_2, SINGLES_9, SINGLES_20, SINGLES_21, SINGLES_22, SINGLES_23;
    hide HEXES, DIGITS, LETTERS, RANGES_20, RANGES_21;
    KeyLengths();
  }

  /** Where the transitions of each state stand. */
  lemma TransOfStates()
    ensures |INDICIES| == 87
    ensures INDICIES[0..3] == TRANS_1
    ensures INDICIES[3..13] == TRANS_2
    ensures INDICIES[13..17] == TRANS_3
    ensures INDICIES[17..21] == TRANS_4
    ensures INDICIES[21..25] == TRANS_5
    ensures INDICIES[25..29] == TRANS_6
    ensures INDICIES[29..31] == TRANS_7
    ensures INDICIES[31..33] == TRANS_8
    ensures INDICIES[33..37] == TRANS_9
    ensures INDICIES[37..39] == TRANS_10
    ensures INDICIES[39..41] == TRANS_11
    ensures INDICIES[41..43] == TRANS_12
    ensures INDICIES[43..45] == TRANS_13
    ensures INDICIES[45..47] == TRANS_14
    ensures INDICIES[47..49] == TRANS_15
    ensures INDICIES[49..51] == TRANS_16
    ensures INDICIES[51..53] == TRANS_17
    ensures INDICIES[53..55] == TRANS_18
    ensures INDICIES[55..57] == TRANS_19
    ensures INDICIES[57..72] == TRANS_20
    ensures INDICIES[72..75] == TRANS_21
    ensures INDICIES[75..80] == TRANS_22
    ensures INDICIES[80..84] == TRANS_23
    ensures INDICIES[84..86] == TRANS_24
  {
    hide TRANS_1, TRANS_2, TRANS_3, TRANS_4, TRANS_5, TRANS_6, TRANS_7, TRANS_8, TRANS_9, TRANS_10, TRANS_11, TRANS_12;
    hide TRANS_13, TRANS_14, TRANS_15, TRANS_16, TRANS_17, TRANS_18;
    hide TRANS_19, TRANS_20, TRANS_21, TRANS_22, TRANS_23, TRANS_24;
    TransLengths();
  }

  lemma TabulatedStrings(cs: nat)
    requires 1 <= cs <= 6
    ensures Tabulated(cs)
  {
    hide TRANS_KEYS, INDICIES, LETTERS, HEXES, DIGITS;
    KeysOfStates();
    TransOfStates();
  }

  lemma TabulatedNumbers(cs: nat)
    requires 7 <= cs <= 10
    ensures Tabulated(cs)
  {
    hide TRANS_KEYS, INDICIES, LETTERS, HEXES, DIGITS;
    KeysOfStates();
    TransOfStates();
  }

  lemma TabulatedWords(cs: nat)
    requires 11 <= cs <= 19
    ensures Tabulated(cs)
  {
    hide TRANS_KEYS, INDICIES, LETTERS, HEXES, DIGITS;
    KeysOfWords(cs);
    TransOfStates();
  }

  lemma TabulatedStart(cs: nat)
    requires 20 <= cs <= 21
    ensures Tabulated(cs)
  {
    hide TRANS_KEYS, INDICIES, LETTERS, HEXES, DIGITS;
    KeysOfStates();
    TransOfStates();
  }

  lemma TabulatedEnds(cs: nat)
    requires 22 <= cs <= 24
    ensures Tabulated(cs)
  {
    hide TRANS_KEYS, INDICIES, LETTERS, HEXES, DIGITS;
    KeysOfStates();
    TransOfStates();
  }

  lemma AllTabulated(cs: nat)
    requires 1 <= cs <= 24
    ensures Tabulated(cs)
  {
    hide Tabulated;
    if cs <= 6 {
      TabulatedStrings(cs);
    } else if cs <= 10 {
      TabulatedNumbers(cs);
    } else if cs <= 19 {
      TabulatedWords(cs);
    } else if cs <= 21 {
      TabulatedStart(cs);
    } else {
      TabulatedEnds(cs);
    }
  }
}
