/** Reading the renderer's output as a patch program does, knowing nothing of how it was written. */
module PatchReader {
  import opened Bytes
  import opened Lines

  datatype Number = NoNumber | Number(value: nat, rest: seq<byte>)

  /** What a range line says: where the old and the new lines start, and how many there are. */
  datatype Range = NoRange | Range(oldStart: nat, oldCount: nat, newStart: nat, newCount: nat)

  /** The lines in front of the range line, what it says, and the bytes behind it. */
  datatype Patch = NoPatch | Patch(names: seq<Line>, range: Range, body: seq<byte>)

  predicate IsDigit(b: byte) {
    48 <= b <= 57
  }

  /** How many digits s starts with. */
  function DigitRun(s: seq<byte>): (k: nat)
    ensures k <= |s|
  {
    if s == [] || !IsDigit(s[0]) then 0 else 1 + DigitRun(s[1..])
  }

  /** The number some digits stand for. */
  function Value(s: seq<byte>): int {
    if s == [] then 0 else Value(s[..|s| - 1]) * 10 + (s[|s| - 1] as int - 48)
  }

  lemma {:induction false} ValueIsNat(s: seq<byte>)
    requires forall i :: 0 <= i < |s| ==> IsDigit(s[i])
    ensures Value(s) >= 0
  {
    if s != [] {
      ValueIsNat(s[..|s| - 1]);
    }
  }

  lemma {:induction false} RunIsDigits(s: seq<byte>)
    ensures forall i :: 0 <= i < DigitRun(s) ==> IsDigit(s[i])
  {
    if s != [] && IsDigit(s[0]) {
      RunIsDigits(s[1..]);
      assert forall i :: 0 < i < DigitRun(s) ==> s[i] == s[1..][i - 1];
    }
  }

  /** The number s starts with. */
  function ReadNumber(s: seq<byte>): Number {
    var k := DigitRun(s);
    RunIsDigits(s);
    ValueIsNat(s[..k]);
    if k == 0 then NoNumber else Number(Value(s[..k]), s[k..])
  }

  predicate Starts(s: seq<byte>, sign: seq<byte>) {
    |sign| <= |s| && s[..|sign|] == sign
  }

  /** `@@ -` */
  const OPENING: seq<byte> := [64, 64, 32, 45]
  const COMMA: seq<byte> := [44]
  /** ` +` */
  const SECOND: seq<byte> := [32, 43]
  /** ` @@` */
  const CLOSING: seq<byte> := [32, 64, 64]

  /** `@@ -start,count +start,count @@` */
  function ReadRange(l: Line): Range {
    if !Starts(l, OPENING) then NoRange
    else
      var a := ReadNumber(l[|OPENING|..]);
      if a.NoNumber? || !Starts(a.rest, COMMA) then NoRange
      else
        var b := ReadNumber(a.rest[|COMMA|..]);
        if b.NoNumber? || !Starts(b.rest, SECOND) then NoRange
        else
          var c := ReadNumber(b.rest[|SECOND|..]);
          if c.NoNumber? || !Starts(c.rest, COMMA) then NoRange
          else
            var d := ReadNumber(c.rest[|COMMA|..]);
            if d.NoNumber? || d.rest != CLOSING then NoRange
            else Range(a.value, b.value, c.value, d.value)
  }

  /** How many bytes the first line has. */
  function LineEnd(s: seq<byte>): (k: nat)
    ensures k <= |s|
  {
    if s == [] || s[0] == NEWLINE then 0 else 1 + LineEnd(s[1..])
  }

  /** Line by line down to the first that opens a range. */
  function ReadPatch(s: seq<byte>): Patch
    decreases |s|
  {
    var k := LineEnd(s);
    var l := s[..k];
    if k == |s| then NoPatch
    else if Starts(l, OPENING) then Patch([], ReadRange(l), s[k + 1..])
    else
      match ReadPatch(s[k + 1..])
      case NoPatch => NoPatch
      case Patch(names, range, body) => Patch([l] + names, range, body)
  }

  /** `--- ` */
  const DASHES: seq<byte> := [45, 45, 45, 32]

  /** What stands between the dashes of a title line, and the bytes behind it. */
  function ReadTitle(s: seq<byte>): (seq<byte>, seq<byte>) {
    var k := LineEnd(s);
    if k == |s| || k < 8 || !Starts(s, DASHES) then ([], s) else (s[4..k - 4], s[k + 1..])
  }

  // ----- reading what was joined -----

  lemma {:induction false} RunOf(digits: seq<byte>, rest: seq<byte>)
    requires forall i :: 0 <= i < |digits| ==> IsDigit(digits[i])
    requires rest != [] ==> !IsDigit(rest[0])
    ensures DigitRun(digits + rest) == |digits|
  {
    if digits == [] {
      assert digits + rest == rest;
    } else {
      assert (digits + rest)[1..] == digits[1..] + rest;
      RunOf(digits[1..], rest);
    }
  }

  lemma ReadsNumber(digits: seq<byte>, rest: seq<byte>)
    requires digits != [] && forall i :: 0 <= i < |digits| ==> IsDigit(digits[i])
    requires rest != [] ==> !IsDigit(rest[0])
    ensures Value(digits) >= 0 && ReadNumber(digits + rest) == Number(Value(digits), rest)
  {
    ValueIsNat(digits);
    RunOf(digits, rest);
    assert (digits + rest)[..|digits|] == digits && (digits + rest)[|digits|..] == rest;
  }

  lemma StartsWith(sign: seq<byte>, rest: seq<byte>)
    ensures Starts(sign + rest, sign) && (sign + rest)[|sign|..] == rest
  {
  }

  lemma {:induction false} LineEndOf(l: Line, rest: seq<byte>)
    requires Clean(l)
    ensures LineEnd(l + [NEWLINE] + rest) == |l|
  {
    var s := l + [NEWLINE] + rest;
    if l != [] {
      assert l[0] in l;
      assert s[1..] == l[1..] + [NEWLINE] + rest;
      assert forall b :: b in l[1..] ==> b in l;
      LineEndOf(l[1..], rest);
    }
  }

  /** A line in front of a patch is one of its names, unless it opens a range. */
  lemma ReadsLine(l: Line, rest: seq<byte>)
    requires Clean(l)
    ensures Starts(l, OPENING) ==> ReadPatch(l + [NEWLINE] + rest) == Patch([], ReadRange(l), rest)
    ensures !Starts(l, OPENING) && ReadPatch(rest).Patch? ==>
      ReadPatch(l + [NEWLINE] + rest) == ReadPatch(rest).(names := [l] + ReadPatch(rest).names)
  {
    var s := l + [NEWLINE] + rest;
    LineEndOf(l, rest);
    assert s[..|l|] == l && s[|l| + 1..] == rest;
  }

  /** A range line written from four runs of digits reads as their numbers. */
  lemma ReadsRange(a: seq<byte>, b: seq<byte>, c: seq<byte>, d: seq<byte>)
    requires a != [] && b != [] && c != [] && d != []
    requires forall i :: 0 <= i < |a| ==> IsDigit(a[i])
    requires forall i :: 0 <= i < |b| ==> IsDigit(b[i])
    requires forall i :: 0 <= i < |c| ==> IsDigit(c[i])
    requires forall i :: 0 <= i < |d| ==> IsDigit(d[i])
    ensures Value(a) >= 0 && Value(b) >= 0 && Value(c) >= 0 && Value(d) >= 0
    ensures ReadRange(OPENING + (a + (COMMA + (b + (SECOND + (c + (COMMA + (d + CLOSING))))))))
         == Range(Value(a), Value(b), Value(c), Value(d))
  {
    hide ReadNumber, Starts, Value, IsDigit, OPENING, COMMA, SECOND, CLOSING;
    NoDigits();
    var r4 := d + CLOSING;
    var r3 := c + (COMMA + r4);
    var r2 := b + (SECOND + r3);
    var r1 := a + (COMMA + r2);
    ReadsNumber(a, COMMA + r2);
    ReadsNumber(b, SECOND + r3);
    ReadsNumber(c, COMMA + r4);
    ReadsNumber(d, CLOSING);
    StartsWith(OPENING, r1);
    StartsWith(COMMA, r2);
    StartsWith(SECOND, r3);
    StartsWith(COMMA, r4);
  }

  lemma NoDigits()
    ensures COMMA != [] && SECOND != [] && CLOSING != []
    ensures !IsDigit(COMMA[0]) && !IsDigit(SECOND[0]) && !IsDigit(CLOSING[0])
  {
  }
}

/** The renderer's headers say what its body holds. */
module PatchLaws {
  import opened Seqs
  import opened Bytes
  import opened Lines
  import opened Tokens
  import opened BodyLines
  import opened LineMachine
  import opened BodyLaws
  import opened Renderer
  import opened PatchReader

  /** Decimal digits read back as their number. */
  lemma {:induction false} DecimalReads(n: nat)
    ensures Decimal(n) != [] && (forall i :: 0 <= i < |Decimal(n)| ==> IsDigit(Decimal(n)[i]))
    ensures Value(Decimal(n)) == n
  {
    var last: byte := 48 + n % 10;
    if n < 10 {
      assert Decimal(n) == [last];
      assert [last][..0] == [];
    } else {
      DecimalReads(n / 10);
      assert Decimal(n)[..|Decimal(n)| - 1] == Decimal(n / 10);
    }
  }

  /** A hunk without changes starts with its URI between dashes. */
  lemma TitleReads(uri: seq<byte>, rest: seq<byte>)
    requires Clean(uri) && uri != []
    ensures ReadTitle(Title(uri) + rest) == (uri, rest)
  {
    var a, b := Ascii("--- "), Ascii(" ---");
    assert a == DASHES && b == [32, 45, 45, 45];
    hide Ascii;
    var l := a + uri + b;
    LineEndOf(l, rest);
    var s := l + [NEWLINE] + rest;
    assert s[..4] == a && s[4..|l| - 4] == uri && s[|l| + 1..] == rest;
    assert Title(uri) + rest == s;
  }

  function Name(sign: string, path: seq<byte>): Line {
    Ascii(sign) + path
  }

  lemma Signs()
    ensures Ascii("@@ -") == OPENING && Ascii(",") == COMMA && Ascii(" +") == SECOND && Ascii(" @@") == CLOSING
    ensures forall path :: !Starts(Name("--- a/", path), OPENING) && !Starts(Name("+++ b/", path), OPENING)
    ensures Clean(Ascii("--- a/")) && Clean(Ascii("+++ b/"))
    ensures Clean(OPENING) && Clean(COMMA) && Clean(SECOND) && Clean(CLOSING)
  {
    assert Ascii("--- a/") == [45, 45, 45, 32, 97, 47];
    assert Ascii("+++ b/") == [43, 43, 43, 32, 98, 47];
    forall path ensures !Starts(Name("--- a/", path), OPENING) && !Starts(Name("+++ b/", path), OPENING) {
      assert Name("--- a/", path)[0] == 45 && Name("+++ b/", path)[0] == 43;
    }
  }

  /** The range line of these numbers. */
  function RangeLine(start: nat, oldCount: nat, newCount: nat): Line {
    OPENING + (Decimal(start) + (COMMA + (Decimal(oldCount)
      + (SECOND + (Decimal(start) + (COMMA + (Decimal(newCount) + CLOSING)))))))
  }

  lemma RangeLineReads(start: nat, oldCount: nat, newCount: nat)
    ensures Clean(RangeLine(start, oldCount, newCount)) && Starts(RangeLine(start, oldCount, newCount), OPENING)
    ensures ReadRange(RangeLine(start, oldCount, newCount)) == Range(start, oldCount, start, newCount)
  {
    hide Decimal, Starts, ReadRange;
    Signs();
    DecimalReads(start);
    DecimalReads(oldCount);
    DecimalReads(newCount);
    ReadsRange(Decimal(start), Decimal(oldCount), Decimal(start), Decimal(newCount));
    StartsWith(OPENING, RangeLine(start, oldCount, newCount)[|OPENING|..]);
    RangeLineIsClean(start, oldCount, newCount);
  }

  lemma RangeLineIsClean(start: nat, oldCount: nat, newCount: nat)
    ensures Clean(RangeLine(start, oldCount, newCount))
  {
    hide Decimal;
    DecimalReads(start);
    DecimalReads(oldCount);
    DecimalReads(newCount);
  }

  lemma CleanJoined(a: seq<byte>, b: seq<byte>)
    requires Clean(a) && Clean(b)
    ensures Clean(a + b)
  {
  }

  lemma RangeJoined(names: seq<byte>, a: seq<byte>, b: seq<byte>, c: seq<byte>)
    ensures names + OPENING + a + COMMA + b + SECOND + a + COMMA + c + CLOSING
         == names + (OPENING + (a + (COMMA + (b + (SECOND + (a + (COMMA + (c + CLOSING))))))))
  {
    hide OPENING, COMMA, SECOND, CLOSING;
    var r3 := a + (COMMA + (c + CLOSING));
    var half := names + OPENING + a + COMMA + b;
    Assoc(half + SECOND + a + COMMA, c, CLOSING);
    Assoc(half + SECOND + a, COMMA, c + CLOSING);
    Assoc(half + SECOND, a, COMMA + (c + CLOSING));
    Assoc(half, SECOND, r3);
    Assoc(names + OPENING + a + COMMA, b, SECOND + r3);
    Assoc(names + OPENING + a, COMMA, b + (SECOND + r3));
    Assoc(names + OPENING, a, COMMA + (b + (SECOND + r3)));
    Assoc(names, OPENING, a + (COMMA + (b + (SECOND + r3))));
  }

  function Names(path: seq<byte>): seq<byte> {
    if path == [] then [] else Ascii("--- a/") + path + [NEWLINE] + Ascii("+++ b/") + path + [NEWLINE]
  }

  lemma NamesSplit(path: seq<byte>)
    requires path != []
    ensures Names(path) == (Name("--- a/", path) + [NEWLINE]) + (Name("+++ b/", path) + [NEWLINE])
  {
    hide Ascii;
    var a, b, nl := Ascii("--- a/"), Ascii("+++ b/"), [NEWLINE];
    Assoc(a + path + nl, b, path);
    Assoc(a + path + nl, b + path, nl);
  }

  lemma HeaderSplit(path: seq<byte>, line: nat, oldCount: nat, newCount: nat)
    ensures Header(path, line, oldCount, newCount)
         == Names(path) + (RangeLine(if line > 0 then line else 1, oldCount, newCount) + [NEWLINE])
  {
    Signs();
    hide Ascii, Decimal, OPENING, COMMA, SECOND, CLOSING;
    var start := if line > 0 then line else 1;
    RangeJoined(Names(path), Decimal(start), Decimal(oldCount), Decimal(newCount));
    Assoc(Names(path), RangeLine(start, oldCount, newCount), [NEWLINE]);
  }

  /** The header as lines. */
  lemma HeaderLines(path: seq<byte>, line: nat, oldCount: nat, newCount: nat)
    ensures var range := RangeLine(if line > 0 then line else 1, oldCount, newCount) + [NEWLINE];
      Header(path, line, oldCount, newCount) ==
        if path == [] then range
        else (Name("--- a/", path) + [NEWLINE]) + ((Name("+++ b/", path) + [NEWLINE]) + range)
  {
    hide Header, RangeLine, Name;
    HeaderSplit(path, line, oldCount, newCount);
    var range := RangeLine(if line > 0 then line else 1, oldCount, newCount) + [NEWLINE];
    if path == [] {
      NilLeft(range);
    } else {
      NamesSplit(path);
      Assoc(Name("--- a/", path) + [NEWLINE], Name("+++ b/", path) + [NEWLINE], range);
    }
  }

  /**
   * Whoever reads the output line by line finds the old and the new name in front, in this order, when the path is
   * known; then where both versions start and their counts; then the body.
   */
  lemma HeaderReads(path: seq<byte>, line: nat, oldCount: nat, newCount: nat, body: seq<byte>)
    requires Clean(path)
    ensures var start := if line > 0 then line else 1;
      ReadPatch(Header(path, line, oldCount, newCount) + body) ==
        Patch(if path == [] then [] else [Name("--- a/", path), Name("+++ b/", path)],
              Range(start, oldCount, start, newCount), body)
  {
    var start := if line > 0 then line else 1;
    Signs();
    HeaderLines(path, line, oldCount, newCount);
    RangeLineReads(start, oldCount, newCount);
    hide ReadPatch, Header, RangeLine, Ascii, Starts, ReadRange;
    var range, a, b := RangeLine(start, oldCount, newCount), Name("--- a/", path), Name("+++ b/", path);
    ReadsLine(range, body);
    if path != [] {
      CleanJoined(Ascii("--- a/"), path);
      CleanJoined(Ascii("+++ b/"), path);
      hide Name, Clean;
      var rest := range + [NEWLINE] + body;
      ReadsLine(b, rest);
      ReadsLine(a, b + [NEWLINE] + rest);
      Assoc(b + [NEWLINE], range + [NEWLINE], body);
      Assoc(a + [NEWLINE], (b + [NEWLINE]) + (range + [NEWLINE]), body);
      assert [a] + ([b] + []) == [a, b];
    }
  }

  /**
   * The output for a hunk with changes, read as a patch: the number behind `-` is that of the body's old lines exactly
   * when none is cut, and likewise the number behind `+`; the bytes behind the range line are the body.
   */
  lemma PatchSaysWhatItHolds(path: seq<byte>, line: nat, ms: seq<Mark>)
    requires Clean(path)
    ensures var f := Finish(Run(ms));
      var p := ReadPatch(Header(path, line, f.oldCount, f.newCount) + Render(Body(TraceOf(ms))));
      && p.Patch? && p.range.Range? && p.body == Render(Body(TraceOf(ms)))
      && p.range.oldStart == p.range.newStart == (if line > 0 then line else 1)
      && (p.range.oldCount == |OldSide(ReadBody(p.body))| <==> FitsOld(TraceOf(ms)))
      && (p.range.newCount == |NewSide(ReadBody(p.body))| <==> FitsNew(TraceOf(ms)))
      && p.names == if path == [] then [] else [Name("--- a/", path), Name("+++ b/", path)]
  {
    hide *;
    var f := Finish(Run(ms));
    HeaderReads(path, line, f.oldCount, f.newCount, Render(Body(TraceOf(ms))));
    HeaderCounts(ms);
  }
}
