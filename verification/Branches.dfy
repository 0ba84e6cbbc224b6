/** Canonical branch paths (dog/DPATH.h): normalisation and the ancestor order. */
module Branches {
  import opened Bytes
  import opened Seqs

  // ---- Normalisation ----

  function TrimLeft(s: seq<byte>): seq<byte> {
    if s != [] && s[0] == SLASH then TrimLeft(s[1..]) else s
  }

  function TrimRight(s: seq<byte>): seq<byte> {
    if s != [] && s[|s| - 1] == SLASH then TrimRight(s[..|s| - 1]) else s
  }

  const MAIN: seq<byte> := [109, 97, 105, 110]
  const MASTER: seq<byte> := [109, 97, 115, 116, 101, 114]
  const TRUNK: seq<byte> := [116, 114, 117, 110, 107]
  const HEADS: seq<byte> := [104, 101, 97, 100, 115, 47]

  /** The names of the trunk. */
  predicate TrunkAlias(s: seq<byte>) {
    || s == MAIN || s == MASTER || s == TRUNK
    || s == HEADS + MAIN || s == HEADS + MASTER || s == HEADS + TRUNK
  }

  function Canon(stem: seq<byte>): seq<byte> {
    if stem == [] || TrunkAlias(stem) then [] else stem + [SLASH]
  }

  function Norm(s: seq<byte>): seq<byte> {
    Canon(TrimRight(TrimLeft(s)))
  }

  /** No slash at either end. */
  predicate Bare(s: seq<byte>) {
    s != [] ==> s[0] != SLASH && s[|s| - 1] != SLASH
  }

  /** The trunk, or a branch other than the trunk's names with one slash behind it and none before it. */
  predicate Canonical(c: seq<byte>) {
    || c == []
    || (|c| >= 2 && c[|c| - 1] == SLASH && Bare(c[..|c| - 1]) && !TrunkAlias(c[..|c| - 1]))
  }

  lemma {:induction false} TrimmedLeft(s: seq<byte>)
    ensures TrimLeft(s) == [] || TrimLeft(s)[0] != SLASH
  {
    if s != [] && s[0] == SLASH {
      TrimmedLeft(s[1..]);
    }
  }

  lemma {:induction false} TrimmedRight(s: seq<byte>)
    ensures |TrimRight(s)| <= |s| && TrimRight(s) == s[..|TrimRight(s)|]
    ensures TrimRight(s) == [] || TrimRight(s)[|TrimRight(s)| - 1] != SLASH
  {
    if s != [] && s[|s| - 1] == SLASH {
      TrimmedRight(s[..|s| - 1]);
    }
  }

  lemma StemIsBare(s: seq<byte>)
    ensures Bare(TrimRight(TrimLeft(s)))
  {
    TrimmedLeft(s);
    TrimmedRight(TrimLeft(s));
  }

  /** Whatever comes in, what comes out is canonical. */
  lemma NormIsCanonical(s: seq<byte>)
    ensures Canonical(Norm(s))
  {
    StemIsBare(s);
    var stem := TrimRight(TrimLeft(s));
    assert (stem + [SLASH])[..|stem|] == stem;
  }

  lemma BareStays(s: seq<byte>)
    requires Bare(s)
    ensures TrimLeft(s) == s && TrimRight(s) == s && TrimRight(TrimLeft(s + [SLASH])) == s
  {
    if s != [] {
      assert (s + [SLASH])[..|s|] == s;
    } else {
      assert s + [SLASH] == [SLASH];
      assert TrimLeft([SLASH]) == TrimLeft([SLASH][1..]) == [];
    }
  }

  /** Normalising changes exactly the paths that are not canonical, so doing it twice is doing it once. */
  lemma CanonicalIsFixed(c: seq<byte>)
    ensures Norm(c) == c <==> Canonical(c)
    ensures Norm(Norm(c)) == Norm(c)
  {
    NormIsCanonical(c);
    FixedWhenCanonical(Norm(c));
    if Canonical(c) {
      FixedWhenCanonical(c);
    }
  }

  lemma FixedWhenCanonical(c: seq<byte>)
    requires Canonical(c)
    ensures Norm(c) == c
  {
    if c != [] {
      var stem := c[..|c| - 1];
      BareStays(stem);
      assert c == stem + [SLASH];
    }
  }

  predicate OnlySlashes(s: seq<byte>) {
    forall i :: 0 <= i < |s| ==> s[i] == SLASH
  }

  lemma {:induction false} TrimLeftSkips(a: seq<byte>, s: seq<byte>)
    requires OnlySlashes(a)
    ensures TrimLeft(a + s) == TrimLeft(s)
  {
    if a == [] {
      NilLeft(s);
    } else {
      assert (a + s)[1..] == a[1..] + s;
      TrimLeftSkips(a[1..], s);
    }
  }

  lemma {:induction false} TrimRightSkips(s: seq<byte>, b: seq<byte>)
    requires OnlySlashes(b)
    ensures TrimRight(s + b) == TrimRight(s)
  {
    if b == [] {
      NilRight(s);
    } else {
      assert (s + b)[..|s + b| - 1] == s + b[..|b| - 1];
      TrimRightSkips(s, b[..|b| - 1]);
    }
  }

  /** Slashes around a path do not matter. */
  lemma SlashesDoNotMatter(a: seq<byte>, s: seq<byte>, b: seq<byte>)
    requires OnlySlashes(a) && OnlySlashes(b) && Bare(s)
    ensures Norm(a + s + b) == Norm(s) == Canon(s)
  {
    BareStays(s);
    Assoc(a, s, b);
    TrimLeftSkips(a, s + b);
    if s == [] {
      NilLeft(b);
      NilRight(b);
      TrimLeftSkips(b, []);
    } else {
      assert (s + b)[0] != SLASH;
      TrimRightSkips(s, b);
    }
  }

  /** What the trunk may be called. */
  ghost predicate TrunkName(s: seq<byte>) {
    || s == [] || s == Ascii("main") || s == Ascii("master") || s == Ascii("trunk")
    || s == Ascii("heads/main") || s == Ascii("heads/master") || s == Ascii("heads/trunk")
  }

  lemma PlainNames()
    ensures Ascii("main") == MAIN && Ascii("master") == MASTER && Ascii("trunk") == TRUNK
  {
  }

  lemma HeadNames()
    ensures Ascii("heads/main") == HEADS + MAIN
    ensures Ascii("heads/master") == HEADS + MASTER
    ensures Ascii("heads/trunk") == HEADS + TRUNK
  {
    assert Ascii("heads/main") == [104, 101, 97, 100, 115, 47, 109, 97, 105, 110];
    assert Ascii("heads/master") == [104, 101, 97, 100, 115, 47, 109, 97, 115, 116, 101, 114];
    assert Ascii("heads/trunk") == [104, 101, 97, 100, 115, 47, 116, 114, 117, 110, 107];
  }

  lemma AliasesSpelled(s: seq<byte>)
    ensures s == [] || TrunkAlias(s) <==> TrunkName(s)
  {
    hide Ascii;
    PlainNames();
    HeadNames();
    hide MAIN, MASTER, TRUNK, HEADS;
  }

  lemma {:induction false} TrimLeftTakes(s: seq<byte>) returns (a: seq<byte>)
    ensures OnlySlashes(a) && s == a + TrimLeft(s)
  {
    if s != [] && s[0] == SLASH {
      a := TrimLeftTakes(s[1..]);
      HeadTail(s);
      Assoc([SLASH], a, TrimLeft(s));
      a := [SLASH] + a;
    } else {
      a := [];
    }
  }

  lemma TrimRightTakes(s: seq<byte>) returns (b: seq<byte>)
    ensures OnlySlashes(b) && s == TrimRight(s) + b
  {
    TrimmedRight(s);
    b := s[|TrimRight(s)|..];
    TrimmedAway(s);
  }

  lemma {:induction false} TrimmedAway(s: seq<byte>)
    ensures |TrimRight(s)| <= |s| && OnlySlashes(s[|TrimRight(s)|..])
  {
    TrimmedRight(s);
    if s != [] && s[|s| - 1] == SLASH {
      TrimmedAway(s[..|s| - 1]);
      var n := |TrimRight(s)|;
      assert forall i :: n <= i < |s| - 1 ==> s[i] == s[..|s| - 1][n..][i - n];
    }
  }

  /** The trunk is what has one of its names, with any slashes around it. */
  lemma TrunkIffNamed(s: seq<byte>)
    ensures Norm(s) == [] <==>
      exists a, name, b :: OnlySlashes(a) && OnlySlashes(b) && TrunkName(name) && s == a + name + b
  {
    hide TrimLeft, TrimRight, OnlySlashes, TrunkAlias, TrunkName;
    var stem := TrimRight(TrimLeft(s));
    AliasesSpelled(stem);
    if Norm(s) == [] {
      var a := TrimLeftTakes(s);
      var b := TrimRightTakes(TrimLeft(s));
      Assoc(a, stem, b);
      assert s == a + stem + b;
    }
    if exists a, name, b :: OnlySlashes(a) && OnlySlashes(b) && TrunkName(name) && s == a + name + b {
      var a, name, b :| OnlySlashes(a) && OnlySlashes(b) && TrunkName(name) && s == a + name + b;
      NamesAreBare(name);
      SlashesDoNotMatter(a, name, b);
      AliasesSpelled(name);
    }
  }

  lemma NamesAreBare(s: seq<byte>)
    requires TrunkName(s)
    ensures Bare(s)
  {
    AliasesSpelled(s);
  }

  /** A buffer of fixed room; feeding what does not fit changes nothing. */
  class Pad {
    const room: nat
    var data: seq<byte>

    ghost predicate Valid()
      reads this
    {
      |data| <= room
    }

    constructor (room: nat)
      ensures this.room == room && data == [] && Valid()
    {
      this.room := room;
      data := [];
    }

    method Feed(s: seq<byte>) returns (ok: bool)
      requires Valid()
      modifies this
      ensures Valid()
      ensures ok <==> |old(data)| + |s| <= room
      ensures data == if ok then old(data) + s else old(data)
    {
      ok := |data| + |s| <= room;
      if ok {
        data := data + s;
      }
    }
  }

  /** Feeds the canonical form; fails exactly when there is no room for it. */
  method NormFeed(out: Pad, in_: seq<byte>) returns (ok: bool)
    requires out.Valid()
    modifies out
    ensures out.Valid()
    ensures ok <==> |old(out.data)| + |Norm(in_)| <= out.room
    ensures ok ==> out.data == old(out.data) + Norm(in_)
    ensures !ok ==> var stem := TrimRight(TrimLeft(in_));
      out.data == if |old(out.data)| + |stem| <= out.room then old(out.data) + stem else old(out.data)
  {
    var s := in_;
    while s != [] && s[0] == SLASH
      invariant TrimLeft(s) == TrimLeft(in_)
      decreases |s|
    {
      s := s[1..];
    }
    assert s == TrimLeft(in_);
    while s != [] && s[|s| - 1] == SLASH
      invariant TrimRight(s) == TrimRight(TrimLeft(in_))
      decreases |s|
    {
      s := s[..|s| - 1];
    }
    assert s == TrimRight(TrimLeft(in_));
    NilRight(out.data);
    if s == [] {
      return true;
    }
    if s == MAIN || s == MASTER || s == TRUNK || s == HEADS + MAIN || s == HEADS + MASTER || s == HEADS + TRUNK {
      return true;
    }
    Assoc(out.data, s, [SLASH]);
    ok := out.Feed(s);
    if ok {
      ok := out.Feed([SLASH]);
    }
  }

  // ---- Ancestors ----

  /** A byte prefix. */
  predicate Ancestor(anc: seq<byte>, des: seq<byte>) {
    |anc| <= |des| && (anc == [] || anc == des[..|anc|])
  }

  lemma AncestorIsPartialOrder(a: seq<byte>, b: seq<byte>, c: seq<byte>)
    ensures Ancestor(a, a) && Ancestor([], a)
    ensures Ancestor(a, b) && Ancestor(b, c) ==> Ancestor(a, c)
    ensures Ancestor(a, b) && Ancestor(b, a) ==> a == b
  {
    assert a[..|a|] == a;
    if Ancestor(a, b) && Ancestor(b, c) {
      assert b[..|a|] == c[..|b|][..|a|] == c[..|a|];
    }
    if Ancestor(a, b) && Ancestor(b, a) {
      assert b[..|b|] == b;
    }
  }

  predicate SlashFree(s: seq<byte>) {
    forall i :: 0 <= i < |s| ==> s[i] != SLASH
  }

  predicate AllSlashFree(levels: seq<seq<byte>>) {
    forall i :: 0 <= i < |levels| ==> SlashFree(levels[i])
  }

  /** The path of these levels, each with a slash behind it. */
  function Path(levels: seq<seq<byte>>): seq<byte> {
    if levels == [] then [] else levels[0] + [SLASH] + Path(levels[1..])
  }

  /** Where the first slash is. */
  function FirstSlash(c: seq<byte>): (k: nat)
    requires c != [] && c[|c| - 1] == SLASH
    ensures k < |c| && c[k] == SLASH && SlashFree(c[..k])
  {
    if c[0] == SLASH then 0 else
      var k := FirstSlash(c[1..]);
      assert forall i :: 0 < i < k + 1 ==> c[i] == c[1..][..k][i - 1];
      k + 1
  }

  /** Every canonical path is the path of its levels. */
  lemma {:induction false} HasLevels(c: seq<byte>) returns (levels: seq<seq<byte>>)
    requires c == [] || c[|c| - 1] == SLASH
    ensures AllSlashFree(levels) && Path(levels) == c
    decreases |c|
  {
    if c == [] {
      levels := [];
    } else {
      var k := FirstSlash(c);
      var rest := HasLevels(c[k + 1..]);
      levels := [c[..k]] + rest;
      assert levels[1..] == rest;
      assert c == c[..k] + [SLASH] + c[k + 1..];
    }
  }

  /** On paths of levels the byte prefix order is the level prefix order: a/b/ is no ancestor of a/bc/. */
  lemma {:induction false} AncestorIsLevelPrefix(a: seq<seq<byte>>, d: seq<seq<byte>>)
    requires AllSlashFree(a) && AllSlashFree(d)
    ensures Ancestor(Path(a), Path(d)) <==> |a| <= |d| && a == d[..|a|]
  {
    if a == [] {
    } else if d == [] {
      assert |Path(a)| > 0;
    } else {
      AncestorIsLevelPrefix(a[1..], d[1..]);
      if a[0] == d[0] {
        SameHead(a[0] + [SLASH], Path(a[1..]), Path(d[1..]));
        assert a == [a[0]] + a[1..];
        if |a| <= |d| {
          assert d[..|a|] == [d[0]] + d[1..][..|a| - 1];
        }
      } else {
        DifferentHeads(a[0], Path(a[1..]), d[0], Path(d[1..]));
      }
    }
  }

  lemma SameHead(h: seq<byte>, x: seq<byte>, y: seq<byte>)
    ensures Ancestor(h + x, h + y) <==> Ancestor(x, y)
  {
    if Ancestor(h + x, h + y) {
      assert x == (h + x)[|h|..] == (h + y)[..|h + x|][|h|..] == y[..|x|];
    }
    if Ancestor(x, y) {
      assert x == y[..|x|];
      assert (h + y)[..|h + x|] == h + y[..|x|];
    }
  }

  lemma DifferentHeads(p: seq<byte>, x: seq<byte>, q: seq<byte>, y: seq<byte>)
    requires SlashFree(p) && SlashFree(q) && p != q
    ensures !Ancestor(p + [SLASH] + x, q + [SLASH] + y)
  {
    var s, t := p + [SLASH] + x, q + [SLASH] + y;
    if |s| <= |t| {
      if |p| == |q| {
        var i :| 0 <= i < |p| && p[i] != q[i];
        assert s[i] != t[..|s|][i];
      } else if |p| < |q| {
        assert s[|p|] == SLASH && t[..|s|][|p|] == q[|p|];
      } else {
        assert t[..|s|][|q|] == SLASH && s[|q|] == p[|q|];
      }
    }
  }
}
