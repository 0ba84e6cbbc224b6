/** Which paths an ignore pattern is about, in terms of path components (dog/IGNO.c). */
module IgnoLaws {
  import opened Bytes
  import opened Glob
  import opened Igno

  // ----- the components of a path -----

  function Components(s: seq<byte>): (cs: seq<seq<byte>>)
    ensures cs != []
  {
    if s == [] then [[]]
    else
      var cs := Components(s[1..]);
      if s[0] == SLASH then [[]] + cs else [[s[0]] + cs[0]] + cs[1..]
  }

  function Joined(cs: seq<seq<byte>>): seq<byte>
    requires cs != []
  {
    if |cs| == 1 then cs[0] else cs[0] + [SLASH] + Joined(cs[1..])
  }

  lemma {:induction false} JoinedComponents(s: seq<byte>)
    ensures Joined(Components(s)) == s
  {
    if s != [] {
      JoinedComponents(s[1..]);
      var cs := Components(s[1..]);
      assert s == [s[0]] + s[1..];
      if s[0] == SLASH {
        assert ([[]] + cs)[1..] == cs;
      } else if |cs| > 1 {
        assert ([[s[0]] + cs[0]] + cs[1..])[1..] == cs[1..];
      }
    }
  }

  /** The components behind the first byte, which starts or ends one. */
  lemma ComponentsBehind(s: seq<byte>, j: nat)
    requires s != [] && j <= |Components(s[1..])|
    ensures s[0] == SLASH ==> Components(s)[j + 1..] == Components(s[1..])[j..]
    ensures s[0] != SLASH && j > 0 ==> Components(s)[j..] == Components(s[1..])[j..]
    ensures |Components(s)| == |Components(s[1..])| + if s[0] == SLASH then 1 else 0
  {
    BehindFirst([], Components(s[1..]), j);
    if s[0] != SLASH && j > 0 {
      BehindFirst([s[0]] + Components(s[1..])[0], Components(s[1..])[1..], j - 1);
      assert Components(s[1..])[1..][j - 1..] == Components(s[1..])[j..];
    }
  }

  lemma BehindFirst(c: seq<byte>, cs: seq<seq<byte>>, j: nat)
    requires j <= |cs|
    ensures ([c] + cs)[j + 1..] == cs[j..]
  {
  }

  /** Joined from component i on, a path reads as from some position on, at its start or behind a slash. */
  lemma {:induction false} TailAt(s: seq<byte>, i: nat) returns (k: nat)
    requires i < |Components(s)|
    ensures k <= |s| && (k == 0 || s[k - 1] == SLASH) && Components(s)[i..] == Components(s[k..])
  {
    if i == 0 {
      k := 0;
    } else if s != [] {
      var j := if s[0] == SLASH then i - 1 else i;
      ComponentsBehind(s, j);
      hide Components;
      k := TailAt(s[1..], j);
      assert s[1..][k..] == s[k + 1..];
      k := k + 1;
    }
  }

  /** From its start or from behind a slash on, a path has the last of its components. */
  lemma {:induction false} TailOf(s: seq<byte>, k: nat) returns (i: nat)
    requires k <= |s| && (k == 0 || s[k - 1] == SLASH)
    ensures i < |Components(s)| && Components(s)[i..] == Components(s[k..])
    ensures k > 0 ==> i > 0
  {
    if k == 0 {
      i := 0;
    } else {
      i := 0;
      if k > 1 {
        i := TailOf(s[1..], k - 1);
      }
      ComponentsBehind(s, i);
      hide Components;
      assert s[1..][k - 1..] == s[k..];
      if s[0] == SLASH {
        i := i + 1;
      }
    }
  }

  lemma {:induction false} OneComponent(s: seq<byte>)
    requires SlashFree(s, 0, |s|)
    ensures Components(s) == [s]
  {
    if s != [] {
      OneComponent(s[1..]);
      assert s == [s[0]] + s[1..];
    }
  }

  function LastComponent(path: seq<byte>): seq<byte> {
    var cs := Components(path);
    cs[|cs| - 1]
  }

  lemma BaseIsLast(path: seq<byte>)
    ensures path[Base(path)..] == LastComponent(path)
  {
    var i := TailOf(path, Base(path));
    OneComponent(path[Base(path)..]);
    assert |Components(path)[i..]| == 1;
  }

  /** The first component ends at the first slash, or at the end. */
  lemma {:induction false} FirstComponent(s: seq<byte>)
    ensures var n := |Components(s)[0]|;
      n <= |s| && Components(s)[0] == s[..n] && SlashFree(s, 0, n) && (n < |s| ==> s[n] == SLASH)
  {
    if s != [] && s[0] != SLASH {
      FirstComponent(s[1..]);
      var n := |Components(s[1..])[0]|;
      assert s[..n + 1] == [s[0]] + s[1..][..n];
      assert forall x :: 1 <= x < n + 1 ==> s[x] == s[1..][x - 1];
    }
  }

  /** From a component's start on, it is the first. */
  lemma ComponentIsFirst(path: seq<byte>, i: nat, j: nat)
    requires Component(path, i, j)
    ensures Components(path[i..])[0] == path[i..j]
  {
    FirstComponent(path[i..]);
    hide Components;
    assert SlashFree(path[i..], 0, j - i);
    FirstSlashIs(path[i..], |Components(path[i..])[0]|, j - i);
  }

  lemma FirstSlashIs(s: seq<byte>, n: nat, m: nat)
    requires n <= |s| && SlashFree(s, 0, n) && (n < |s| ==> s[n] == SLASH)
    requires m <= |s| && SlashFree(s, 0, m) && (m < |s| ==> s[m] == SLASH)
    ensures n == m
  {
  }

  /** Metadata is what has one of three names among its components. */
  lemma MetaIff(path: seq<byte>)
    ensures Meta(path) <==>
      exists c :: c in Components(path) && (c == Ascii(".git") || c == Ascii(".be") || c == Ascii("..be.idx"))
  {
    MetaNames();
    hide Components, MetaName, Ascii;
    if Meta(path) {
      var i: nat, j: nat :| Component(path, i, j) && MetaName(path[i..j]);
      ComponentListed(path, i, j);
    }
    if exists c :: c in Components(path) && MetaName(c) {
      var c :| c in Components(path) && MetaName(c);
      var i, j := ListedComponent(path, c);
    }
  }

  lemma MetaNames()
    ensures forall c :: MetaName(c) <==> c == Ascii(".git") || c == Ascii(".be") || c == Ascii("..be.idx")
  {
    assert Ascii(".git") == DOT_GIT && Ascii(".be") == DOT_BE && Ascii("..be.idx") == BE_INDEX;
  }

  lemma ComponentListed(path: seq<byte>, i: nat, j: nat)
    requires Component(path, i, j)
    ensures path[i..j] in Components(path)
  {
    ComponentIsFirst(path, i, j);
    var k := TailOf(path, i);
    hide Components;
    assert Components(path)[k..][0] == Components(path)[k];
  }

  lemma ListedComponent(path: seq<byte>, c: seq<byte>) returns (i: nat, j: nat)
    requires c in Components(path)
    ensures Component(path, i, j) && path[i..j] == c
  {
    var k :| 0 <= k < |Components(path)| && Components(path)[k] == c;
    i := TailAt(path, k);
    FirstComponent(path[i..]);
    hide Components;
    assert Components(path)[k..][0] == c;
    j := i + |c|;
    assert path[i..][..|c|] == path[i..j];
    assert forall x :: i <= x < j ==> path[x] == path[i..][x - i];
    assert j < |path| ==> path[j] == path[i..][|c|];
  }

  // ----- a pattern on a text of its own -----

  lemma {:induction false} FitsBehind(pat: seq<byte>, at: nat, i: nat, str: seq<byte>, from: nat, j: nat)
    requires at + i <= |pat| && from + j <= |str|
    ensures Fits(pat, at + i, str, from + j) <==> Fits(pat[at..], i, str[from..], j)
    decreases |pat| - i
  {
    var p, s := pat[at..], str[from..];
    if at + i < |pat| {
      var n := ElementLength(pat, at + i);
      assert p[i] == pat[at + i] && ElementLength(p, i) == n;
      forall k | j <= k <= |s|
        ensures Covers(p, i, s, j, k) <==> Covers(pat, at + i, str, from + j, from + k)
        ensures Fits(p, i + n, s, k) <==> Fits(pat, at + (i + n), str, from + k)
      {
        CoversBehind(pat, at, i, str, from, j, k);
        FitsBehind(pat, at, i + n, str, from, k);
      }
      hide Fits, Covers;
      FitsUnfold(pat, at + i, str, from + j, n);
      FitsUnfold(p, i, s, j, n);
      if Fits(pat, at + i, str, from + j) {
        var k :| from + j <= k <= |str| && Covers(pat, at + i, str, from + j, k) && Fits(pat, at + i + n, str, k);
        assert Covers(p, i, s, j, k - from);
      }
      if Fits(p, i, s, j) {
        var k :| j <= k <= |s| && Covers(p, i, s, j, k) && Fits(p, i + n, s, k);
        assert Covers(pat, at + i, str, from + j, from + k);
      }
    }
  }

  lemma FitsUnfold(pat: seq<byte>, i: nat, str: seq<byte>, j: nat, n: nat)
    requires i < |pat| && j <= |str| && n == ElementLength(pat, i)
    ensures Fits(pat, i, str, j) <==>
      exists k :: j <= k <= |str| && Covers(pat, i, str, j, k) && Fits(pat, i + n, str, k)
  {
  }

  lemma CoversBehind(pat: seq<byte>, at: nat, i: nat, str: seq<byte>, from: nat, j: nat, k: nat)
    requires at + i < |pat| && from + k <= |str| && j <= k
    ensures ElementLength(pat[at..], i) == ElementLength(pat, at + i)
    ensures Covers(pat[at..], i, str[from..], j, k) <==> Covers(pat, at + i, str, from + j, from + k)
  {
    var p, s := pat[at..], str[from..];
    assert forall x :: 0 <= x < |p| ==> p[x] == pat[at + x];
    assert forall x :: from <= x < |str| ==> str[x] == s[x - from];
    assert SlashFree(s, j, k) <==> SlashFree(str, from + j, from + k);
  }

  /** A whole text matches a whole pattern. */
  ghost predicate Matches(pat: seq<byte>, str: seq<byte>) {
    Fits(pat, 0, str, 0)
  }

  /** Without a slash in front. */
  function Stripped(s: seq<byte>): seq<byte> {
    if s != [] && s[0] == SLASH then s[1..] else s
  }

  /** The path from one of its components on matches. */
  ghost predicate SomeTailMatches(pat: seq<byte>, path: seq<byte>) {
    var cs := Components(path);
    exists i :: 0 <= i < |cs| && Joined(cs[i..]) != [] && Matches(pat, Joined(cs[i..]))
  }

  lemma StartOfTail(path: seq<byte>, i: nat) returns (k: nat)
    requires i < |Components(Stripped(path))|
    ensures k <= |path| && Joined(Components(Stripped(path))[i..]) == path[k..]
    ensures k < |path| ==> ComponentStart(path, k)
  {
    hide Components, Joined;
    var s, at := Stripped(path), Unslashed(path);
    k := TailAt(s, i);
    JoinedComponents(s[k..]);
    assert s[k..] == path[at + k..];
    k := at + k;
  }

  lemma TailOfStart(path: seq<byte>, k: nat) returns (i: nat)
    requires k < |path| && ComponentStart(path, k)
    ensures i < |Components(Stripped(path))| && Joined(Components(Stripped(path))[i..]) == path[k..]
  {
    hide Components, Joined;
    var s, at := Stripped(path), Unslashed(path);
    i := TailOf(s, k - at);
    JoinedComponents(path[k..]);
    assert s[k - at..] == path[k..];
  }

  lemma TailIff(pat: seq<byte>, path: seq<byte>)
    ensures SomeTailMatches(pat, Stripped(path)) <==>
      exists k :: 0 <= k < |path| && ComponentStart(path, k) && Matches(pat, path[k..])
  {
    hide Matches, Components, Joined, Stripped, ComponentStart;
    var cs := Components(Stripped(path));
    if SomeTailMatches(pat, Stripped(path)) {
      var i :| 0 <= i < |cs| && Joined(cs[i..]) != [] && Matches(pat, Joined(cs[i..]));
      var k := StartOfTail(path, i);
    }
    if exists k :: 0 <= k < |path| && ComponentStart(path, k) && Matches(pat, path[k..]) {
      var k :| 0 <= k < |path| && ComponentStart(path, k) && Matches(pat, path[k..]);
      var i := TailOfStart(path, k);
    }
  }

  /**
   * What a pattern is about, whatever its wildcards: anchored the whole path, without inner slash its last component,
   * otherwise the path from some component on; for directories only, no file.
   */
  lemma AppliesIff(p: Pattern, path: seq<byte>, isDir: bool)
    ensures var pat := Stripped(p.text);
      Applies(p, path, isDir) <==>
        && (p.dirOnly ==> isDir)
        && p.text != []
        && if p.anchored then Matches(pat, Stripped(path))
           else if p.hasSlash then SomeTailMatches(pat, Stripped(path))
           else Matches(pat, LastComponent(path))
  {
    hide Fits, Components, Joined, ComponentStart;
    var at := Unslashed(p.text);
    assert Stripped(p.text) == p.text[at..] && Stripped(path) == path[Unslashed(path)..];
    BaseIsLast(path);
    TailIff(Stripped(p.text), path);
    forall k | 0 <= k <= |path| ensures Fits(p.text, at, path, k) <==> Matches(Stripped(p.text), path[k..]) {
      FitsBehind(p.text, at, 0, path, k, 0);
    }
  }

  // ----- patterns without wildcards -----

  lemma LiteralMatches(pat: seq<byte>, str: seq<byte>)
    requires Literal(pat)
    ensures Matches(pat, str) <==> pat == str
  {
    LiteralIsItself(pat, 0, str, 0);
    assert pat[0..] == pat && str[0..] == str;
  }

  /** The last components of cs are those of ds. */
  ghost predicate EndsIn(cs: seq<seq<byte>>, ds: seq<seq<byte>>) {
    |ds| <= |cs| && cs[|cs| - |ds|..] == ds
  }

  /** Without wildcards: the path with these components, the last component, or the path ending in these components. */
  lemma LiteralApplies(p: Pattern, path: seq<byte>, isDir: bool)
    requires Literal(p.text)
    ensures var pat, cs := Stripped(p.text), Components(Stripped(path));
      Applies(p, path, isDir) <==>
        && (p.dirOnly ==> isDir)
        && p.text != []
        && if p.anchored then cs == Components(pat)
           else if p.hasSlash then pat != [] && EndsIn(cs, Components(pat))
           else LastComponent(path) == pat
  {
    hide Fits, Components, Joined, Applies, Matches;
    AppliesIff(p, path, isDir);
    var pat, s := Stripped(p.text), Stripped(path);
    var cs := Components(s);
    LiteralMatches(pat, s);
    LiteralMatches(pat, LastComponent(path));
    JoinedComponents(s);
    JoinedComponents(pat);
    LiteralTail(pat, s);
  }

  lemma LiteralTail(pat: seq<byte>, s: seq<byte>)
    requires Literal(pat)
    ensures SomeTailMatches(pat, s) <==> pat != [] && EndsIn(Components(s), Components(pat))
  {
    hide Fits, Components, Joined, Matches;
    var cs := Components(s);
    JoinedComponents(pat);
    if SomeTailMatches(pat, s) {
      var i :| 0 <= i < |cs| && Joined(cs[i..]) != [] && Matches(pat, Joined(cs[i..]));
      LiteralMatches(pat, Joined(cs[i..]));
      var k := TailAt(s, i);
      JoinedComponents(s[k..]);
      assert Components(pat) == cs[i..];
    }
    if pat != [] && EndsIn(cs, Components(pat)) {
      var i := |cs| - |Components(pat)|;
      LiteralMatches(pat, Joined(cs[i..]));
    }
  }

  // ----- double stars -----

  /** A double star matches every text, slashes and all. */
  lemma DoubleStarIsAny(str: seq<byte>)
    ensures Matches([STAR, STAR], str)
  {
    var pat := [STAR, STAR];
    assert Covers(pat, 0, str, 0, |str|);
    assert Fits(pat, 2, str, |str|);
  }

  /** Behind a double star and a slash, a plain text matches whatever ends in it, within a component or not. */
  lemma DoubleStarEndsIn(plain: seq<byte>, str: seq<byte>)
    requires Literal(plain)
    ensures Matches([STAR, STAR, SLASH] + plain, str) <==>
      str != [] && |plain| <= |str| && str[|str| - |plain|..] == plain
  {
    var pat := [STAR, STAR, SLASH] + plain;
    assert ElementLength(pat, 0) == 3 && pat[3..] == plain;
    forall k | 0 <= k <= |str| ensures Fits(pat, 3, str, k) <==> str[k..] == plain {
      FitsBehind(pat, 3, 0, str, k, 0);
      LiteralMatches(plain, str[k..]);
    }
    hide Fits;
    FitsUnfold(pat, 0, str, 0, 3);
    if str != [] && |plain| <= |str| && str[|str| - |plain|..] == plain {
      assert Covers(pat, 0, str, 0, |str| - |plain|);
    }
  }
}
