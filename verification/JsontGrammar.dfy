/** The JSON tokens of dog/JSONT.c.rl, as its grammar defines them. */
module JsontGrammar {
  import opened Bytes

  const QUOTE: byte := 34
  const PLUS_SIGN: byte := 43
  const COMMA: byte := 44
  const MINUS_SIGN: byte := 45
  const POINT: byte := 46
  const COLON: byte := 58
  const BACKSLASH: byte := 92

  /** The tag a token is reported with. */
  datatype Tag = G | L | R | P | W

  predicate Digit(b: byte) {
    48 <= b <= 57
  }

  predicate Hex(b: byte) {
    Digit(b) || 65 <= b <= 70 || 97 <= b <= 102
  }

  predicate White(b: byte) {
    b == 32 || 9 <= b <= 13
  }

  predicate Punct(b: byte) {
    b == COMMA || b == COLON || b == 91 || b == 93 || b == 123 || b == 125
  }

  predicate ExpSign(b: byte) {
    b == 69 || b == 101
  }

  /** What may follow a backslash: one of "\/bfnrt, or a u and four hexadecimal digits. */
  predicate Escaped(b: byte) {
    b == QUOTE || b == 47 || b == BACKSLASH || b == 98 || b == 102 || b == 110 || b == 114 || b == 116
  }

  predicate UnicodeEscape(w: seq<byte>, i: nat)
    requires i + 6 <= |w|
  {
    w[i] == BACKSLASH && w[i + 1] == 117 && Hex(w[i + 2]) && Hex(w[i + 3]) && Hex(w[i + 4]) && Hex(w[i + 5])
  }

  /** Between the quotes of a string: any number of escapes and of bytes other than quotes and backslashes. */
  predicate StringBody(w: seq<byte>, i: nat, j: nat)
    requires j <= |w|
    decreases j
  {
    || i == j
    || (i < j && w[j - 1] != QUOTE && w[j - 1] != BACKSLASH && StringBody(w, i, j - 1))
    || (i + 2 <= j && w[j - 2] == BACKSLASH && Escaped(w[j - 1]) && StringBody(w, i, j - 2))
    || (i + 6 <= j && UnicodeEscape(w, j - 6) && StringBody(w, i, j - 6))
  }

  predicate StringLexeme(w: seq<byte>, i: nat, j: nat) {
    i + 2 <= j <= |w| && w[i] == QUOTE && w[j - 1] == QUOTE && StringBody(w, i + 1, j - 1)
  }

  predicate Digits(w: seq<byte>, i: nat, j: nat) {
    i < j <= |w| && forall k :: i <= k < j ==> Digit(w[k])
  }

  predicate Integer(w: seq<byte>, i: nat, j: nat) {
    j <= |w| && (Digits(w, i, j) || (i < j && w[i] == MINUS_SIGN && Digits(w, i + 1, j)))
  }

  predicate Fraction(w: seq<byte>, i: nat, j: nat) {
    i < j <= |w| && w[i] == POINT && Digits(w, i + 1, j)
  }

  predicate Exponent(w: seq<byte>, i: nat, j: nat) {
    && i < j <= |w| && ExpSign(w[i])
    && (Digits(w, i + 1, j) || (i + 1 < j && (w[i + 1] == PLUS_SIGN || w[i + 1] == MINUS_SIGN) && Digits(w, i + 2, j)))
  }

  /** An integer with a fraction behind it. */
  predicate Decimal(w: seq<byte>, i: nat, j: nat) {
    exists a :: i <= a <= j && Integer(w, i, a) && Fraction(w, a, j)
  }

  predicate Mantissa(w: seq<byte>, i: nat, j: nat) {
    Integer(w, i, j) || Decimal(w, i, j)
  }

  predicate Scientific(w: seq<byte>, i: nat, j: nat) {
    exists a :: i <= a <= j && Mantissa(w, i, a) && Exponent(w, a, j)
  }

  predicate NumberLexeme(w: seq<byte>, i: nat, j: nat) {
    Mantissa(w, i, j) || Scientific(w, i, j)
  }

  predicate Spelled(w: seq<byte>, i: nat, j: nat, word: seq<byte>) {
    i + |word| == j <= |w| && forall k :: 0 <= k < |word| ==> w[i + k] == word[k]
  }

  predicate KeywordLexeme(w: seq<byte>, i: nat, j: nat) {
    || Spelled(w, i, j, [116, 114, 117, 101])
    || Spelled(w, i, j, [102, 97, 108, 115, 101])
    || Spelled(w, i, j, [110, 117, 108, 108])
  }

  predicate SpaceLexeme(w: seq<byte>, i: nat, j: nat) {
    i < j <= |w| && forall k :: i <= k < j ==> White(w[k])
  }

  /** The bytes from i to j are a token with this tag. */
  predicate Lexeme(tag: Tag, w: seq<byte>, i: nat, j: nat) {
    match tag
    case G => StringLexeme(w, i, j)
    case L => NumberLexeme(w, i, j)
    case R => KeywordLexeme(w, i, j)
    case P => i + 1 == j <= |w| && Punct(w[i])
    case W => SpaceLexeme(w, i, j)
  }
}

/** The automaton under the scanner, with a state of its own for every finished token. */
module JsontMachine {
  import opened Bytes
  import opened JsontGrammar

  const START: nat := 20
  const STRING_DONE: nat := 25
  const PUNCT_DONE: nat := 26
  const KEYWORD_DONE: nat := 27

  function If(b: bool, target: nat): nat {
    if b then target else 0
  }

  /** One transition; 0 is the error state. */
  function Step(cs: nat, c: byte): nat {
    match cs
    case 20 =>
      if White(c) then 21
      else if c == QUOTE then 1
      else if Punct(c) then PUNCT_DONE
      else if c == MINUS_SIGN then 7
      else if Digit(c) then 22
      else if c == 102 then 11
      else if c == 110 then 15
      else If(c == 116, 18)
    case 1 => if c == QUOTE then STRING_DONE else if c == BACKSLASH then 2 else 1
    case 2 => if Escaped(c) then 1 else If(c == 117, 3)
    case 3 => If(Hex(c), 4)
    case 4 => If(Hex(c), 5)
    case 5 => If(Hex(c), 6)
    case 6 => If(Hex(c), 1)
    case 7 => If(Digit(c), 22)
    case 8 => If(Digit(c), 23)
    case 9 => if Digit(c) then 24 else If(c == PLUS_SIGN || c == MINUS_SIGN, 10)
    case 10 => If(Digit(c), 24)
    case 11 => If(c == 97, 12)
    case 12 => If(c == 108, 13)
    case 13 => If(c == 115, 14)
    case 14 => If(c == 101, KEYWORD_DONE)
    case 15 => If(c == 117, 16)
    case 16 => If(c == 108, 17)
    case 17 => If(c == 108, KEYWORD_DONE)
    case 18 => If(c == 114, 19)
    case 19 => If(c == 117, 14)
    case 21 => If(White(c), 21)
    case 22 => if Digit(c) then 22 else if c == POINT then 8 else If(ExpSign(c), 9)
    case 23 => if Digit(c) then 23 else If(ExpSign(c), 9)
    case 24 => If(Digit(c), 24)
    case _ => 0
  }

  /** The state after the bytes from i to j. */
  function Reach(w: seq<byte>, i: nat, j: nat): nat
    requires j <= |w|
    decreases j
  {
    if j <= i then START else Step(Reach(w, i, j - 1), w[j - 1])
  }

  /** What has been read in full when the automaton is in this state, if anything. */
  predicate Finishes(cs: nat, tag: Tag) {
    match tag
    case G => cs == STRING_DONE
    case L => 22 <= cs <= 24
    case R => cs == KEYWORD_DONE
    case P => cs == PUNCT_DONE
    case W => cs == 21
  }

  lemma {:induction false} DeadStaysDead(w: seq<byte>, i: nat, j: nat, k: nat)
    requires i < j <= k <= |w| && Reach(w, i, j) == 0
    ensures Reach(w, i, k) == 0
    decreases k
  {
    if j < k {
      DeadStaysDead(w, i, j, k - 1);
    }
  }

  // ---- Spaces and punctuation ----

  lemma IntoWhite(cs: nat, c: byte)
    ensures Step(cs, c) == 21 <==> (cs == START || cs == 21) && White(c)
    ensures Step(cs, c) == PUNCT_DONE <==> cs == START && Punct(c)
  {
  }

  lemma {:induction false} Spaces(w: seq<byte>, i: nat, j: nat)
    requires i < j <= |w|
    ensures Reach(w, i, j) == 21 <==> SpaceLexeme(w, i, j)
    decreases j
  {
    hide Step, Reach, White;
    Unfold(w, i, j);
    IntoWhite(Reach(w, i, j - 1), w[j - 1]);
    if j > i + 1 {
      Spaces(w, i, j - 1);
    }
  }

  lemma Puncts(w: seq<byte>, i: nat, j: nat)
    requires i < j <= |w|
    ensures Reach(w, i, j) == PUNCT_DONE <==> Lexeme(P, w, i, j)
  {
    hide Step, Reach, Punct;
    Unfold(w, i, j);
    IntoWhite(Reach(w, i, j - 1), w[j - 1]);
  }

  // ---- Strings ----

  /** The ways into each state of a string. */
  lemma IntoString(cs: nat, c: byte)
    ensures Step(cs, c) == 1 <==>
      || (cs == START && c == QUOTE)
      || (cs == 1 && c != QUOTE && c != BACKSLASH)
      || (cs == 2 && Escaped(c))
      || (cs == 6 && Hex(c))
    ensures Step(cs, c) == 2 <==> cs == 1 && c == BACKSLASH
    ensures Step(cs, c) == 3 <==> cs == 2 && c == 117
    ensures Step(cs, c) == 4 <==> cs == 3 && Hex(c)
    ensures Step(cs, c) == 5 <==> cs == 4 && Hex(c)
    ensures Step(cs, c) == 6 <==> cs == 5 && Hex(c)
    ensures Step(cs, c) == STRING_DONE <==> cs == 1 && c == QUOTE
    ensures Step(cs, c) != START
  {
  }

  lemma Unfold(w: seq<byte>, i: nat, j: nat)
    requires i < j <= |w|
    ensures Reach(w, i, j) == Step(Reach(w, i, j - 1), w[j - 1])
    ensures Reach(w, i, j - 1) == START <==> j == i + 1
  {
  }

  lemma AfterBackslash(w: seq<byte>, i: nat, j: nat)
    requires i < j <= |w|
    ensures Reach(w, i, j) == 2 <==> i + 1 < j && w[j - 1] == BACKSLASH && Reach(w, i, j - 1) == 1
  {
    Unfold(w, i, j);
    IntoString(Reach(w, i, j - 1), w[j - 1]);
  }

  lemma AfterUnicode(w: seq<byte>, i: nat, j: nat)
    requires i < j < |w|
    ensures Reach(w, i, j) == 6 && Hex(w[j]) <==> i + 6 < j + 1 && UnicodeEscape(w, j - 5) && Reach(w, i, j - 5) == 1
  {
    hide Step, Reach;
    StepBack(w, i, j, 6);
    if i + 1 < j {
      StepBack(w, i, j - 1, 5);
    }
    if i + 2 < j {
      StepBack(w, i, j - 2, 4);
    }
    if i + 3 < j {
      AfterU(w, i, j - 3);
    }
    if i + 4 < j {
      AfterBackslash(w, i, j - 4);
    }
  }

  lemma StepBack(w: seq<byte>, i: nat, j: nat, k: nat)
    requires i < j <= |w| && 4 <= k <= 6
    ensures Reach(w, i, j) == k <==> i + 1 < j && Hex(w[j - 1]) && Reach(w, i, j - 1) == k - 1
  {
    Unfold(w, i, j);
    IntoString(Reach(w, i, j - 1), w[j - 1]);
  }

  lemma AfterU(w: seq<byte>, i: nat, j: nat)
    requires i < j <= |w|
    ensures Reach(w, i, j) == 3 <==> i + 1 < j && w[j - 1] == 117 && Reach(w, i, j - 1) == 2
  {
    Unfold(w, i, j);
    IntoString(Reach(w, i, j - 1), w[j - 1]);
  }

  lemma {:induction false} Opened(w: seq<byte>, i: nat, j: nat)
    requires i < j <= |w|
    ensures Reach(w, i, j) == 1 <==> w[i] == QUOTE && StringBody(w, i + 1, j)
    decreases j
  {
    hide Step, Reach, Escaped, UnicodeEscape;
    OpenedSteps(w, i, j);
    if j > i + 1 {
      Opened(w, i, j - 1);
    }
    if j > i + 2 {
      Opened(w, i, j - 2);
    }
    if j > i + 6 {
      Opened(w, i, j - 6);
    }
  }

  /** A string is open after its quote, after another byte, and after an escape. */
  lemma OpenedSteps(w: seq<byte>, i: nat, j: nat)
    requires i < j <= |w|
    ensures Reach(w, i, j) == 1 <==>
      || (j == i + 1 && w[i] == QUOTE)
      || (j > i + 1 && w[j - 1] != QUOTE && w[j - 1] != BACKSLASH && Reach(w, i, j - 1) == 1)
      || (j > i + 2 && w[j - 2] == BACKSLASH && Escaped(w[j - 1]) && Reach(w, i, j - 2) == 1)
      || (j > i + 6 && UnicodeEscape(w, j - 6) && Reach(w, i, j - 6) == 1)
  {
    hide Step, Reach, Escaped, Hex;
    Unfold(w, i, j);
    IntoString(Reach(w, i, j - 1), w[j - 1]);
    if j > i + 1 {
      AfterBackslash(w, i, j - 1);
      AfterUnicode(w, i, j - 1);
    }
  }

  lemma Strings(w: seq<byte>, i: nat, j: nat)
    requires i < j <= |w|
    ensures Reach(w, i, j) == STRING_DONE <==> StringLexeme(w, i, j)
  {
    hide Step, Reach;
    Unfold(w, i, j);
    IntoString(Reach(w, i, j - 1), w[j - 1]);
    if j > i + 1 {
      Opened(w, i, j - 1);
    }
    hide StringBody;
  }

  // ---- Numbers ----

  lemma IntoNumber(cs: nat, c: byte)
    ensures Step(cs, c) == 7 <==> cs == START && c == MINUS_SIGN
    ensures Step(cs, c) == 22 <==> (cs == START || cs == 7 || cs == 22) && Digit(c)
    ensures Step(cs, c) == 8 <==> cs == 22 && c == POINT
    ensures Step(cs, c) == 23 <==> (cs == 8 || cs == 23) && Digit(c)
    ensures Step(cs, c) == 9 <==> (cs == 22 || cs == 23) && ExpSign(c)
    ensures Step(cs, c) == 10 <==> cs == 9 && (c == PLUS_SIGN || c == MINUS_SIGN)
    ensures Step(cs, c) == 24 <==> (cs == 9 || cs == 10 || cs == 24) && Digit(c)
  {
  }

  lemma {:induction false} Integers(w: seq<byte>, i: nat, j: nat)
    requires i < j <= |w|
    ensures Reach(w, i, j) == 22 <==> Integer(w, i, j)
    ensures Reach(w, i, j) == 7 <==> j == i + 1 && w[i] == MINUS_SIGN
    decreases j
  {
    hide Step, Reach;
    Unfold(w, i, j);
    IntoNumber(Reach(w, i, j - 1), w[j - 1]);
    if j > i + 1 {
      Integers(w, i, j - 1);
    }
  }

  /** One more digit behind a run of digits, or the first one. */
  lemma MoreDigits(w: seq<byte>, i: nat, j: nat)
    requires i < j <= |w|
    ensures Digits(w, i, j) <==> Digit(w[j - 1]) && (i == j - 1 || Digits(w, i, j - 1))
  {
  }

  lemma {:induction false} Decimals(w: seq<byte>, i: nat, j: nat)
    requires i < j <= |w|
    ensures Reach(w, i, j) == 23 <==> Decimal(w, i, j)
    decreases j
  {
    hide Step, Reach, Digit, Decimal, Integer;
    Unfold(w, i, j);
    IntoNumber(Reach(w, i, j - 1), w[j - 1]);
    if j > i + 1 {
      Decimals(w, i, j - 1);
      Pointed(w, i, j - 1);
    }
    DecimalSteps(w, i, j);
    NothingIsShort(w, i);
  }

  lemma Pointed(w: seq<byte>, i: nat, j: nat)
    requires i < j <= |w|
    ensures Reach(w, i, j) == 8 <==> i + 1 < j && w[j - 1] == POINT && Integer(w, i, j - 1)
  {
    hide Step, Reach, Integer;
    Unfold(w, i, j);
    IntoNumber(Reach(w, i, j - 1), w[j - 1]);
    if i + 1 < j {
      Integers(w, i, j - 1);
    }
  }

  lemma DecimalSteps(w: seq<byte>, i: nat, j: nat)
    requires i < j <= |w|
    ensures Decimal(w, i, j) <==>
      Digit(w[j - 1]) && (Decimal(w, i, j - 1) || (i + 2 < j && w[j - 2] == POINT && Integer(w, i, j - 2)))
  {
    if Decimal(w, i, j) {
      var a :| i <= a <= j && Integer(w, i, a) && Fraction(w, a, j);
      if a + 2 < j {
        assert Fraction(w, a, j - 1);
      }
    }
    if Digit(w[j - 1]) && Decimal(w, i, j - 1) {
      var a :| i <= a <= j - 1 && Integer(w, i, a) && Fraction(w, a, j - 1);
      assert Fraction(w, a, j);
    }
    if Digit(w[j - 1]) && i + 2 < j && w[j - 2] == POINT && Integer(w, i, j - 2) {
      assert Fraction(w, j - 2, j);
    }
  }

  lemma Mantissas(w: seq<byte>, i: nat, j: nat)
    requires i < j <= |w|
    ensures Reach(w, i, j) == 22 || Reach(w, i, j) == 23 <==> Mantissa(w, i, j)
  {
    Integers(w, i, j);
    Decimals(w, i, j);
  }

  lemma ExponentOpened(w: seq<byte>, i: nat, j: nat)
    requires i < j <= |w|
    ensures Reach(w, i, j) == 9 <==> i + 1 < j && ExpSign(w[j - 1]) && Mantissa(w, i, j - 1)
  {
    hide Step, Reach, Mantissa;
    Unfold(w, i, j);
    IntoNumber(Reach(w, i, j - 1), w[j - 1]);
    if i + 1 < j {
      Mantissas(w, i, j - 1);
    }
  }

  lemma ExponentSigned(w: seq<byte>, i: nat, j: nat)
    requires i < j <= |w|
    ensures Reach(w, i, j) == 10 <==>
      && i + 2 < j && (w[j - 1] == PLUS_SIGN || w[j - 1] == MINUS_SIGN) && ExpSign(w[j - 2]) && Mantissa(w, i, j - 2)
  {
    hide Step, Reach, Mantissa;
    Unfold(w, i, j);
    IntoNumber(Reach(w, i, j - 1), w[j - 1]);
    if i + 1 < j {
      ExponentOpened(w, i, j - 1);
    }
  }

  lemma {:induction false} Scientifics(w: seq<byte>, i: nat, j: nat)
    requires i < j <= |w|
    ensures Reach(w, i, j) == 24 <==> Scientific(w, i, j)
    decreases j
  {
    hide Step, Reach, Digit, Mantissa, Scientific, ExpSign;
    Unfold(w, i, j);
    IntoNumber(Reach(w, i, j - 1), w[j - 1]);
    if j > i + 1 {
      Scientifics(w, i, j - 1);
      ExponentOpened(w, i, j - 1);
      ExponentSigned(w, i, j - 1);
    }
    ScientificSteps(w, i, j);
    NothingIsShort(w, i);
  }

  lemma NothingIsShort(w: seq<byte>, i: nat)
    requires i <= |w|
    ensures !Integer(w, i, i) && !Mantissa(w, i, i) && !Decimal(w, i, i) && !Scientific(w, i, i)
  {
  }

  /** What one more digit makes a number with an exponent. */
  predicate ScientificBefore(w: seq<byte>, i: nat, j: nat)
    requires i <= j <= |w|
  {
    || Scientific(w, i, j)
    || (i + 1 < j && ExpSign(w[j - 1]) && Mantissa(w, i, j - 1))
    || (i + 2 < j && (w[j - 1] == PLUS_SIGN || w[j - 1] == MINUS_SIGN) && ExpSign(w[j - 2]) && Mantissa(w, i, j - 2))
  }

  lemma ScientificSteps(w: seq<byte>, i: nat, j: nat)
    requires i < j <= |w|
    ensures Scientific(w, i, j) <==> Digit(w[j - 1]) && ScientificBefore(w, i, j - 1)
  {
    NothingIsShort(w, i);
    hide Mantissa;
    if Scientific(w, i, j) {
      var a :| i <= a <= j && Mantissa(w, i, a) && Exponent(w, a, j);
      ExponentSteps(w, a, j);
      if Exponent(w, a, j - 1) {
        assert Scientific(w, i, j - 1);
      }
    }
    if Digit(w[j - 1]) && Scientific(w, i, j - 1) {
      var a :| i <= a <= j - 1 && Mantissa(w, i, a) && Exponent(w, a, j - 1);
      ExponentSteps(w, a, j);
      assert Scientific(w, i, j);
    } else if Digit(w[j - 1]) && ScientificBefore(w, i, j - 1) {
      var a := if ExpSign(w[j - 2]) then j - 2 else j - 3;
      ExponentSteps(w, a, j);
      assert Exponent(w, a, j);
    }
  }

  lemma ExponentSteps(w: seq<byte>, a: nat, j: nat)
    requires a < j <= |w|
    ensures Exponent(w, a, j) <==>
      && Digit(w[j - 1])
      && (|| Exponent(w, a, j - 1)
          || (a == j - 2 && ExpSign(w[a]))
          || (a == j - 3 && ExpSign(w[a]) && (w[j - 2] == PLUS_SIGN || w[j - 2] == MINUS_SIGN)))
  {
    MoreDigits(w, a, j);
    if a + 1 < j {
      MoreDigits(w, a + 1, j);
    }
    if a + 2 < j {
      MoreDigits(w, a + 2, j);
    }
  }

  lemma Numbers(w: seq<byte>, i: nat, j: nat)
    requires i < j <= |w|
    ensures Finishes(Reach(w, i, j), L) <==> NumberLexeme(w, i, j)
  {
    Mantissas(w, i, j);
    Scientifics(w, i, j);
  }

  // ---- Keywords ----

  lemma MoreLetters(w: seq<byte>, i: nat, j: nat, word: seq<byte>, c: byte)
    requires i < j <= |w|
    ensures Spelled(w, i, j, word + [c]) <==> Spelled(w, i, j - 1, word) && w[j - 1] == c
  {
    var longer := word + [c];
    assert forall k :: 0 <= k < |word| ==> longer[k] == word[k];
    assert longer[|word|] == c;
  }

  /** Into a state with one way in, from the start or from a state reached by one word only. */
  lemma OneWay(w: seq<byte>, i: nat, j: nat, word: seq<byte>, c: byte, from: nat, to: nat)
    requires i < j <= |w| && from != to
    requires j > i + 1 ==> (Reach(w, i, j - 1) == from <==> Spelled(w, i, j - 1, word))
    requires (from == START) == (word == [])
    requires Step(Reach(w, i, j - 1), w[j - 1]) == to <==> Reach(w, i, j - 1) == from && w[j - 1] == c
    ensures Reach(w, i, j) == to <==> Spelled(w, i, j, word + [c])
  {
    Unfold(w, i, j);
    MoreLetters(w, i, j, word, c);
    hide Step, Reach;
  }

  lemma IntoKeyword(cs: nat, c: byte)
    ensures Step(cs, c) == 11 <==> cs == START && c == 102
    ensures Step(cs, c) == 12 <==> cs == 11 && c == 97
    ensures Step(cs, c) == 13 <==> cs == 12 && c == 108
    ensures Step(cs, c) == 15 <==> cs == START && c == 110
    ensures Step(cs, c) == 16 <==> cs == 15 && c == 117
    ensures Step(cs, c) == 17 <==> cs == 16 && c == 108
    ensures Step(cs, c) == 18 <==> cs == START && c == 116
    ensures Step(cs, c) == 19 <==> cs == 18 && c == 114
    ensures Step(cs, c) == 14 <==> (cs == 13 && c == 115) || (cs == 19 && c == 117)
    ensures Step(cs, c) == KEYWORD_DONE <==> (cs == 14 && c == 101) || (cs == 17 && c == 108)
  {
  }

  lemma {:induction false} Letters(w: seq<byte>, i: nat, j: nat)
    requires i < j <= |w|
    ensures Reach(w, i, j) == 18 <==> Spelled(w, i, j, [116])
    ensures Reach(w, i, j) == 19 <==> Spelled(w, i, j, [116] + [114])
    ensures Reach(w, i, j) == 11 <==> Spelled(w, i, j, [102])
    ensures Reach(w, i, j) == 12 <==> Spelled(w, i, j, [102] + [97])
    ensures Reach(w, i, j) == 13 <==> Spelled(w, i, j, [102] + [97] + [108])
    ensures Reach(w, i, j) == 15 <==> Spelled(w, i, j, [110])
    ensures Reach(w, i, j) == 16 <==> Spelled(w, i, j, [110] + [117])
    ensures Reach(w, i, j) == 17 <==> Spelled(w, i, j, [110] + [117] + [108])
    decreases j
  {
    hide Step, Reach;
    IntoKeyword(Reach(w, i, j - 1), w[j - 1]);
    if j > i + 1 {
      Letters(w, i, j - 1);
    }
    Unfold(w, i, j);
    hide Spelled;
    assert forall x: seq<byte> :: [] + x == x;
    OneWay(w, i, j, [], 116, START, 18);
    OneWay(w, i, j, [116], 114, 18, 19);
    OneWay(w, i, j, [], 102, START, 11);
    OneWay(w, i, j, [102], 97, 11, 12);
    OneWay(w, i, j, [102] + [97], 108, 12, 13);
    OneWay(w, i, j, [], 110, START, 15);
    OneWay(w, i, j, [110], 117, 15, 16);
    OneWay(w, i, j, [110] + [117], 108, 16, 17);
  }

  lemma Fourteen(w: seq<byte>, i: nat, j: nat)
    requires i < j <= |w|
    ensures Reach(w, i, j) == 14 <==>
      Spelled(w, i, j, [116] + [114] + [117]) || Spelled(w, i, j, [102] + [97] + [108] + [115])
  {
    hide Step, Reach;
    Unfold(w, i, j);
    IntoKeyword(Reach(w, i, j - 1), w[j - 1]);
    if j > i + 1 {
      Letters(w, i, j - 1);
    }
    hide Spelled;
    MoreLetters(w, i, j, [116] + [114], 117);
    MoreLetters(w, i, j, [102] + [97] + [108], 115);
    NotYet(w, i, j - 1, [116] + [114]);
    NotYet(w, i, j - 1, [102] + [97] + [108]);
  }

  lemma NotYet(w: seq<byte>, i: nat, j: nat, word: seq<byte>)
    requires j <= |w| && word != []
    ensures Spelled(w, i, j, word) ==> i < j
  {
  }

  lemma Keywords(w: seq<byte>, i: nat, j: nat)
    requires i < j <= |w|
    ensures Reach(w, i, j) == KEYWORD_DONE <==> KeywordLexeme(w, i, j)
  {
    hide Step, Reach;
    Unfold(w, i, j);
    IntoKeyword(Reach(w, i, j - 1), w[j - 1]);
    if j > i + 1 {
      Letters(w, i, j - 1);
      Fourteen(w, i, j - 1);
    }
    assert KeywordLexeme(w, i, j) <==>
      || Spelled(w, i, j, [116] + [114] + [117] + [101])
      || Spelled(w, i, j, [102] + [97] + [108] + [115] + [101])
      || Spelled(w, i, j, [110] + [117] + [108] + [108]) by { Words(); }
    hide Spelled, KeywordLexeme;
    MoreLetters(w, i, j, [116] + [114] + [117], 101);
    MoreLetters(w, i, j, [102] + [97] + [108] + [115], 101);
    MoreLetters(w, i, j, [110] + [117] + [108], 108);
    NotYet(w, i, j - 1, [116] + [114] + [117]);
    NotYet(w, i, j - 1, [102] + [97] + [108] + [115]);
    NotYet(w, i, j - 1, [110] + [117] + [108]);
  }

  lemma Words()
    ensures [116] + [114] + [117] + [101] == [116, 114, 117, 101]
    ensures [102] + [97] + [108] + [115] + [101] == [102, 97, 108, 115, 101]
    ensures [110] + [117] + [108] + [108] == [110, 117, 108, 108]
  {
  }

  /** The automaton has read a token exactly when the grammar says the bytes are one. */
  lemma FinishesExactly(tag: Tag, w: seq<byte>, i: nat, j: nat)
    requires j <= |w|
    ensures i < j && Finishes(Reach(w, i, j), tag) <==> Lexeme(tag, w, i, j)
  {
    hide Step, Reach;
    if i >= j {
      hide StringBody;
      assert !Mantissa(w, i, j) && !Scientific(w, i, j);
    } else {
      match tag
      case G => Strings(w, i, j);
      case L => Numbers(w, i, j);
      case R => Keywords(w, i, j);
      case P => Puncts(w, i, j);
      case W => Spaces(w, i, j);
    }
  }
}
