/** The ignore matcher (dog/IGNO.c): globs, the last match wins, and parents carry their contents. */
module Glob {
  import opened Bytes

  const STAR: byte := 42
  const ANY_ONE: byte := 63

  // ---- What a glob means: the text falls into one piece per pattern element ----

  predicate DoubleStarAt(pat: seq<byte>, i: nat)
    requires i < |pat|
  {
    i + 1 < |pat| && pat[i] == STAR && pat[i + 1] == STAR
  }

  /** A double star with the slash behind it, a double star, or one byte. */
  function ElementLength(pat: seq<byte>, i: nat): (n: nat)
    requires i < |pat|
    ensures 1 <= n && i + n <= |pat|
  {
    if DoubleStarAt(pat, i) then
      if i + 2 < |pat| && pat[i + 2] == SLASH then 3 else 2
    else
      1
  }

  predicate SlashFree(str: seq<byte>, j: nat, k: nat)
    requires k <= |str|
  {
    forall x :: j <= x < k ==> str[x] != SLASH
  }

  /**
   * The element at i may cover the text from j to k: a double star any run (with a slash behind it only where text is
   * left), a star a run without slashes, a question mark one byte that is not a slash, and any other byte itself.
   */
  predicate Covers(pat: seq<byte>, i: nat, str: seq<byte>, j: nat, k: nat)
    requires i < |pat| && j <= k <= |str|
  {
    if ElementLength(pat, i) == 3 then j < |str|
    else if ElementLength(pat, i) == 2 then true
    else if pat[i] == STAR then SlashFree(str, j, k)
    else if pat[i] == ANY_ONE then k == j + 1 && str[j] != SLASH
    else k == j + 1 && str[j] == pat[i]
  }

  /** The pattern from i on matches the text from j on. */
  predicate Fits(pat: seq<byte>, i: nat, str: seq<byte>, j: nat)
    requires i <= |pat| && j <= |str|
    decreases |pat| - i
  {
    if i == |pat| then j == |str|
    else exists k :: j <= k <= |str| && Covers(pat, i, str, j, k) && Fits(pat, i + ElementLength(pat, i), str, k)
  }

  // ---- IGNOGlob ----

  /** Where no text is left, only stars may be. */
  lemma {:induction false} OnlyStarsLeft(pat: seq<byte>, i: nat, str: seq<byte>)
    requires i <= |pat|
    ensures Fits(pat, i, str, |str|) <==> forall x :: i <= x < |pat| ==> pat[x] == STAR
    decreases |pat| - i
  {
    if i < |pat| {
      OnlyStarsLeft(pat, i + ElementLength(pat, i), str);
      if Fits(pat, i, str, |str|) {
        var k :| |str| <= k <= |str| && Covers(pat, i, str, |str|, k) && Fits(pat, i + ElementLength(pat, i), str, k);
      }
      if forall x :: i <= x < |pat| ==> pat[x] == STAR {
        assert Covers(pat, i, str, |str|, |str|);
      }
    }
  }

  /** An element that covers exactly one byte leaves the rest to the rest. */
  lemma OneByte(pat: seq<byte>, i: nat, str: seq<byte>, j: nat)
    requires i < |pat| && j < |str| && pat[i] != STAR
    ensures ElementLength(pat, i) == 1
    ensures Fits(pat, i, str, j) <==> Covers(pat, i, str, j, j + 1) && Fits(pat, i + 1, str, j + 1)
  {
  }

  method Match(pat: seq<byte>, i: nat, str: seq<byte>, j: nat) returns (yes: bool)
    requires i <= |pat| && j <= |str|
    ensures yes <==> Fits(pat, i, str, j)
    decreases |pat| - i
  {
    hide Fits;
    var pp, sp := i, j;
    while pp < |pat| && sp < |str|
      invariant i <= pp <= |pat| && j <= sp <= |str|
      invariant Fits(pat, i, str, j) == Fits(pat, pp, str, sp)
    {
      if pat[pp] == STAR {
        if pp + 1 < |pat| && pat[pp + 1] == STAR {
          yes := MatchDouble(pat, pp, str, sp);
          return;
        }
        yes := MatchStar(pat, pp, str, sp);
        return;
      }
      OneByte(pat, pp, str, sp);
      if pat[pp] == ANY_ONE {
        if str[sp] == SLASH {
          return false;
        }
      } else if pat[pp] != str[sp] {
        return false;
      }
      pp := pp + 1;
      sp := sp + 1;
    }
    if sp == |str| {
      OnlyStarsLeft(pat, pp, str);
    }
    ghost var stop := pp;
    while pp < |pat| && pat[pp] == STAR
      invariant stop <= pp <= |pat| && forall x :: stop <= x < pp ==> pat[x] == STAR
    {
      pp := pp + 1;
    }
    PatternSpent(pat, stop, str, sp);
    return pp == |pat| && sp == |str|;
  }

  lemma PatternSpent(pat: seq<byte>, i: nat, str: seq<byte>, j: nat)
    requires i <= |pat| && j <= |str|
    ensures i == |pat| ==> (Fits(pat, i, str, j) <==> j == |str|)
  {
  }

  /** The rest of the pattern tried behind every run. */
  method MatchDouble(pat: seq<byte>, i: nat, str: seq<byte>, j: nat) returns (yes: bool)
    requires i + 1 < |pat| && j < |str| && pat[i] == STAR && pat[i + 1] == STAR
    ensures yes <==> Fits(pat, i, str, j)
    decreases |pat| - i, 0
  {
    var rest := i + 2;
    if rest < |pat| && pat[rest] == SLASH {
      rest := rest + 1;
    }
    for k := j to |str| + 1
      invariant forall x :: j <= x < k ==> !Fits(pat, rest, str, x)
    {
      var r := Match(pat, rest, str, k);
      if r {
        assert Covers(pat, i, str, j, k);
        return true;
      }
    }
    return false;
  }

  /** The rest of the pattern tried behind every run without slashes. */
  method MatchStar(pat: seq<byte>, i: nat, str: seq<byte>, j: nat) returns (yes: bool)
    requires i < |pat| && j < |str| && pat[i] == STAR && (i + 1 < |pat| ==> pat[i + 1] != STAR)
    ensures yes <==> Fits(pat, i, str, j)
    decreases |pat| - i, 0
  {
    var rest := i + 1;
    for k := j to |str| + 1
      invariant forall x :: j <= x < k ==> !Fits(pat, rest, str, x)
      invariant SlashFree(str, j, if k <= |str| then k else |str|)
    {
      var r := Match(pat, rest, str, k);
      if r {
        assert Covers(pat, i, str, j, k);
        return true;
      }
      if k < |str| && str[k] == SLASH {
        assert forall x :: k < x <= |str| ==> !Covers(pat, i, str, j, x);
        break;
      }
    }
    return false;
  }

  // ---- What follows ----

  function Slashes(s: seq<byte>, i: nat): nat
    requires i <= |s|
    decreases |s| - i
  {
    if i == |s| then 0 else (if s[i] == SLASH then 1 else 0) + Slashes(s, i + 1)
  }

  lemma {:induction false} SlashesOver(s: seq<byte>, i: nat, j: nat)
    requires i <= j <= |s| && SlashFree(s, i, j)
    ensures Slashes(s, i) == Slashes(s, j)
    decreases j - i
  {
    if i < j {
      SlashesOver(s, i + 1, j);
    }
  }

  predicate NoDoubleStar(pat: seq<byte>) {
    forall i :: 0 <= i < |pat| ==> !DoubleStarAt(pat, i)
  }

  /** Without double stars a match is level by level: text and pattern have the same number of slashes. */
  lemma {:induction false} LevelsMatch(pat: seq<byte>, i: nat, str: seq<byte>, j: nat)
    requires i <= |pat| && j <= |str| && NoDoubleStar(pat) && Fits(pat, i, str, j)
    ensures Slashes(pat, i) == Slashes(str, j)
    decreases |pat| - i
  {
    if i < |pat| {
      assert ElementLength(pat, i) == 1;
      var k :| j <= k <= |str| && Covers(pat, i, str, j, k) && Fits(pat, i + ElementLength(pat, i), str, k);
      LevelsMatch(pat, i + 1, str, k);
      if pat[i] == STAR {
        SlashesOver(str, j, k);
      }
    }
  }

  predicate Literal(pat: seq<byte>) {
    forall i :: 0 <= i < |pat| ==> pat[i] != STAR && pat[i] != ANY_ONE
  }

  /** A pattern without wildcards matches its own text only. */
  lemma {:induction false} LiteralIsItself(pat: seq<byte>, i: nat, str: seq<byte>, j: nat)
    requires i <= |pat| && j <= |str| && Literal(pat)
    ensures Fits(pat, i, str, j) <==> pat[i..] == str[j..]
    decreases |pat| - i
  {
    if i < |pat| {
      if j < |str| {
        OneByte(pat, i, str, j);
        LiteralIsItself(pat, i + 1, str, j + 1);
        assert pat[i..] == [pat[i]] + pat[i + 1..];
        assert str[j..] == [str[j]] + str[j + 1..];
      } else {
        OnlyStarsLeft(pat, i, str);
        assert pat[i] != STAR;
      }
    }
  }
}

module Igno {
  import opened Bytes
  import opened Glob

  const DOT_GIT: seq<byte> := [46, 103, 105, 116]
  const DOT_BE: seq<byte> := [46, 98, 101]
  const BE_INDEX: seq<byte> := [46, 46, 98, 101, 46, 105, 100, 120]

  datatype Pattern = Pattern(text: seq<byte>, negated: bool, anchored: bool, dirOnly: bool, hasSlash: bool)

  /** Where matching starts: behind a leading slash. */
  function Unslashed(s: seq<byte>): (i: nat)
    ensures i <= |s|
  {
    if s != [] && s[0] == SLASH then 1 else 0
  }

  /** Where the last component starts. */
  function Base(path: seq<byte>): (i: nat)
    ensures i <= |path|
    ensures SlashFree(path, i, |path|) && (i > 0 ==> path[i - 1] == SLASH)
  {
    if path == [] || path[|path| - 1] == SLASH then |path| else Base(path[..|path| - 1])
  }

  /** A component starts at k. */
  predicate ComponentStart(path: seq<byte>, k: nat)
    requires k < |path|
  {
    k == Unslashed(path) || (k > Unslashed(path) && path[k - 1] == SLASH)
  }

  /**
   * Which paths a pattern is about: patterns for directories only directories; patterns without slashes the last
   * component, anchored ones the path from its root on, the others the path from any of its components on.
   */
  ghost predicate Applies(p: Pattern, path: seq<byte>, isDir: bool) {
    && (p.dirOnly ==> isDir)
    && p.text != []
    && var at := Unslashed(p.text);
       if !p.hasSlash && !p.anchored then Fits(p.text, at, path, Base(path))
       else if p.anchored then Fits(p.text, at, path, Unslashed(path))
       else exists k :: 0 <= k < |path| && ComponentStart(path, k) && Fits(p.text, at, path, k)
  }

  method TryMatch(p: Pattern, path: seq<byte>, isDir: bool) returns (yes: bool)
    ensures yes <==> Applies(p, path, isDir)
  {
    if (p.dirOnly && !isDir) || p.text == [] {
      return false;
    }
    var at := Unslashed(p.text);
    if !p.hasSlash && !p.anchored {
      yes := Match(p.text, at, path, Base(path));
      return;
    }
    var k := Unslashed(path);
    if p.anchored {
      yes := Match(p.text, at, path, k);
      return;
    }
    while k < |path|
      invariant Unslashed(path) <= k <= |path|
      invariant k < |path| ==> ComponentStart(path, k)
      invariant forall x :: 0 <= x < k && ComponentStart(path, x) ==> !Fits(p.text, at, path, x)
    {
      yes := Match(p.text, at, path, k);
      if yes {
        return;
      }
      ghost var start := k;
      while k < |path| && path[k] != SLASH
        invariant start <= k <= |path| && SlashFree(path, start, k)
      {
        k := k + 1;
      }
      if k < |path| {
        k := k + 1;
      }
    }
    return false;
  }

  // ---- One path against all patterns ----

  /** The last pattern that applies is not a negated one. */
  ghost predicate LastSaysIgnore(ps: seq<Pattern>, path: seq<byte>, isDir: bool) {
    exists i :: 0 <= i < |ps| && Applies(ps[i], path, isDir) && !ps[i].negated && NoneApplies(ps, i + 1, path, isDir)
  }

  ghost predicate NoneApplies(ps: seq<Pattern>, from: nat, path: seq<byte>, isDir: bool) {
    forall j :: from <= j < |ps| ==> !Applies(ps[j], path, isDir)
  }

  method MatchOne(ps: seq<Pattern>, path: seq<byte>, isDir: bool) returns (ignored: bool)
    ensures ignored <==> LastSaysIgnore(ps, path, isDir)
  {
    hide Applies;
    ignored := false;
    for i := 0 to |ps|
      invariant ignored <==> LastSaysIgnore(ps[..i], path, isDir)
    {
      var m := TryMatch(ps[i], path, isDir);
      OneMorePattern(ps, i, path, isDir);
      if m {
        ignored := !ps[i].negated;
      }
    }
    assert ps[..|ps|] == ps;
  }

  lemma OneMorePattern(ps: seq<Pattern>, i: nat, path: seq<byte>, isDir: bool)
    requires i < |ps|
    ensures LastSaysIgnore(ps[..i + 1], path, isDir) <==>
      if Applies(ps[i], path, isDir) then !ps[i].negated else LastSaysIgnore(ps[..i], path, isDir)
  {
    hide Applies;
    var more := ps[..i + 1];
    if Applies(ps[i], path, isDir) && !ps[i].negated {
      assert Applies(more[i], path, isDir) && NoneApplies(more, i + 1, path, isDir);
    }
    if !Applies(ps[i], path, isDir) && LastSaysIgnore(ps[..i], path, isDir) {
      var k :| 0 <= k < i && Applies(ps[..i][k], path, isDir) && !ps[k].negated &&
        NoneApplies(ps[..i], k + 1, path, isDir);
      assert forall j :: k + 1 <= j < i ==> more[j] == ps[..i][j];
      assert Applies(more[k], path, isDir) && NoneApplies(more, k + 1, path, isDir);
    }
    if LastSaysIgnore(more, path, isDir) && !Applies(ps[i], path, isDir) {
      var k :| 0 <= k <= i && Applies(more[k], path, isDir) && !more[k].negated &&
        NoneApplies(more, k + 1, path, isDir);
      assert forall j :: k + 1 <= j < i ==> more[j] == ps[..i][j];
      assert Applies(ps[..i][k], path, isDir) && NoneApplies(ps[..i], k + 1, path, isDir);
    }
    if LastSaysIgnore(more, path, isDir) && Applies(ps[i], path, isDir) {
      var k :| 0 <= k <= i && Applies(more[k], path, isDir) && !more[k].negated &&
        NoneApplies(more, k + 1, path, isDir);
      assert more[i] == ps[i];
      assert k == i;
    }
  }

  // ---- Metadata ----

  /** The bytes from i to j are a whole component. */
  predicate Component(path: seq<byte>, i: nat, j: nat) {
    i <= j <= |path| && (i > 0 ==> path[i - 1] == SLASH) && (j < |path| ==> path[j] == SLASH) && SlashFree(path, i, j)
  }

  predicate MetaName(seg: seq<byte>) {
    seg == DOT_GIT || seg == DOT_BE || seg == BE_INDEX
  }

  ghost predicate Meta(path: seq<byte>) {
    exists i: nat, j: nat :: Component(path, i, j) && MetaName(path[i..j])
  }

  method IsMeta(path: seq<byte>) returns (yes: bool)
    ensures yes <==> Meta(path)
  {
    var i := 0;
    while i <= |path|
      invariant 0 <= i <= |path| + 1 && (0 < i <= |path| ==> path[i - 1] == SLASH)
      invariant forall x: nat, y: nat :: x < i && Component(path, x, y) ==> !MetaName(path[x..y])
    {
      var j := i;
      while j < |path| && path[j] != SLASH
        invariant i <= j <= |path| && SlashFree(path, i, j)
      {
        j := j + 1;
      }
      assert Component(path, i, j);
      if MetaName(path[i..j]) {
        return true;
      }
      ComponentsDiffer(path, i, j);
      i := j + 1;
    }
    return false;
  }

  /** No other component starts before the end of this one, nor ends elsewhere. */
  lemma ComponentsDiffer(path: seq<byte>, i: nat, j: nat)
    requires Component(path, i, j)
    ensures forall x: nat, y: nat :: i <= x <= j && Component(path, x, y) ==> x == i && y == j
  {
  }

  // ---- IGNOMatch ----

  ghost predicate Ignored(ps: seq<Pattern>, path: seq<byte>, isDir: bool) {
    && path != []
    && (|| Meta(path)
        || LastSaysIgnore(ps, path, isDir)
        || ParentIgnored(ps, path, |path|))
  }

  /** A directory on the way, up to its slash before n, is ignored. */
  ghost predicate ParentIgnored(ps: seq<Pattern>, path: seq<byte>, n: nat)
    requires n <= |path|
  {
    exists p :: 0 <= p < n && path[p] == SLASH && LastSaysIgnore(ps, path[..p], true)
  }

  method IsIgnored(ps: seq<Pattern>, path: seq<byte>, isDir: bool) returns (yes: bool)
    ensures yes <==> Ignored(ps, path, isDir)
  {
    if path == [] {
      return false;
    }
    var meta := IsMeta(path);
    if meta {
      return true;
    }
    if ps == [] {
      return false;
    }
    yes := MatchOne(ps, path, isDir);
    if yes {
      return;
    }
    for p := 0 to |path|
      invariant !ParentIgnored(ps, path, p)
    {
      if path[p] == SLASH {
        var m := MatchOne(ps, path[..p], true);
        if m {
          assert ParentIgnored(ps, path, |path|);
          return true;
        }
      }
    }
    return false;
  }

  /** An ignored directory takes everything below it along, whatever the negated patterns say. */
  lemma IgnoredDirectoryHidesAll(ps: seq<Pattern>, dir: seq<byte>, below: seq<byte>, isDir: bool)
    requires Ignored(ps, dir, true)
    ensures Ignored(ps, dir + [SLASH] + below, isDir)
  {
    hide LastSaysIgnore, MetaName;
    var path := dir + [SLASH] + below;
    assert path[..|dir|] == dir && path[|dir|] == SLASH;
    if Meta(dir) {
      var i: nat, j: nat :| Component(dir, i, j) && MetaName(dir[i..j]);
      assert path[i..j] == dir[i..j];
      assert Component(path, i, j);
    } else if !LastSaysIgnore(ps, dir, true) {
      var p :| 0 <= p < |dir| && dir[p] == SLASH && LastSaysIgnore(ps, dir[..p], true);
      assert path[p] == SLASH && path[..p] == dir[..p];
    }
  }

  /** A file that only negated patterns apply to is not ignored by itself. */
  lemma NegatedOnly(ps: seq<Pattern>, path: seq<byte>, isDir: bool)
    requires forall i :: 0 <= i < |ps| ==> ps[i].negated
    ensures Ignored(ps, path, isDir) <==> Meta(path)
  {
    if Meta(path) {
      var i: nat, j: nat :| Component(path, i, j) && MetaName(path[i..j]);
      assert path[i..j] != [];
    }
  }
}
