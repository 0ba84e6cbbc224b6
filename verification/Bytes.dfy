/** Facts about sequences, stated one at a time so that no proof needs more of them than it calls for. */
module Seqs {

  lemma Assoc<T>(a: seq<T>, b: seq<T>, c: seq<T>)
    ensures (a + b) + c == a + (b + c)
  {
  }

  lemma NilLeft<T>(a: seq<T>)
    ensures [] + a == a
  {
  }

  lemma NilRight<T>(a: seq<T>)
    ensures a + [] == a
  {
  }

  lemma HeadTail<T>(a: seq<T>)
    requires a != []
    ensures [a[0]] + a[1..] == a
  {
  }

  lemma InitLast<T>(a: seq<T>)
    requires a != []
    ensures a[..|a| - 1] + [a[|a| - 1]] == a
  {
  }

  lemma TakeDrop<T>(a: seq<T>, k: nat)
    requires k <= |a|
    ensures a[..k] + a[k..] == a
  {
  }

  /** The last element and the rest of a concatenation that ends with a nonempty part. */
  lemma AppendSnoc<T>(a: seq<T>, b: seq<T>)
    requires b != []
    ensures a + b != [] && (a + b)[|a + b| - 1] == b[|b| - 1] && (a + b)[..|a + b| - 1] == a + b[..|b| - 1]
  {
  }

  lemma TakeSnoc<T>(a: seq<T>, k: nat)
    requires k < |a|
    ensures a[..k + 1] == a[..k] + [a[k]]
    ensures a[..k + 1][..k] == a[..k]
  {
  }

  lemma DropCons<T>(a: seq<T>, k: nat)
    requires k < |a|
    ensures a[k..] == [a[k]] + a[k + 1..] && a[k..][1..] == a[k + 1..]
  {
  }

  /** Cutting a concatenation where its parts meet. */
  lemma AppendParts<T>(a: seq<T>, b: seq<T>)
    ensures (a + b)[..|a|] == a && (a + b)[|a|..] == b
  {
  }

  lemma SliceCons<T>(a: seq<T>, lo: nat, hi: nat)
    requires lo < hi <= |a|
    ensures a[lo..hi] == [a[lo]] + a[lo + 1..hi]
  {
  }

  lemma SliceSnoc<T>(a: seq<T>, lo: nat, hi: nat)
    requires lo <= hi < |a|
    ensures a[lo..hi + 1] == a[lo..hi] + [a[hi]]
  {
  }

  /** A slice that is a concatenation splits where its parts meet. */
  lemma SliceSplits<T>(s: seq<T>, lo: nat, hi: nat, x: seq<T>, y: seq<T>)
    requires lo <= hi <= |s| && s[lo..hi] == x + y
    ensures lo + |x| + |y| == hi && s[lo..lo + |x|] == x && s[lo + |x|..hi] == y
  {
    assert |s[lo..hi]| == |x| + |y|;
    AppendParts(x, y);
    assert s[lo..lo + |x|] == s[lo..hi][..|x|];
    assert s[lo + |x|..hi] == s[lo..hi][|x|..];
  }

  /** Cutting a sequence in three. */
  lemma TakeMidDrop<T>(a: seq<T>, i: nat, j: nat)
    requires i <= j <= |a|
    ensures a[..i] + a[i..j] + a[j..] == a
  {
  }

  // ----- mapping each element to a sequence, and joining the results -----

  ghost function FlatUpTo<T, U>(f: T -> seq<U>, s: seq<T>, n: nat): seq<U>
    requires n <= |s|
  {
    if n == 0 then [] else FlatUpTo(f, s, n - 1) + f(s[n - 1])
  }

  ghost function FlatMap<T, U>(f: T -> seq<U>, s: seq<T>): seq<U> {
    FlatUpTo(f, s, |s|)
  }

  lemma {:induction false} FlatPrefix<T, U>(f: T -> seq<U>, a: seq<T>, b: seq<T>, n: nat)
    requires n <= |a| && n <= |b| && a[..n] == b[..n]
    ensures FlatUpTo(f, a, n) == FlatUpTo(f, b, n)
  {
    if n > 0 {
      TakeSnoc(a, n - 1);
      TakeSnoc(b, n - 1);
      assert a[n - 1] == a[..n][n - 1] == b[n - 1];
      FlatPrefix(f, a, b, n - 1);
    }
  }

  lemma {:induction false} FlatAppendUpTo<T, U>(f: T -> seq<U>, a: seq<T>, b: seq<T>, n: nat)
    requires n <= |b|
    ensures FlatUpTo(f, a + b, |a| + n) == FlatMap(f, a) + FlatUpTo(f, b, n)
  {
    if n == 0 {
      AppendParts(a, b);
      assert a[..|a|] == a;
      FlatPrefix(f, a + b, a, |a|);
      NilRight(FlatMap(f, a));
    } else {
      FlatAppendUpTo(f, a, b, n - 1);
      assert (a + b)[|a| + n - 1] == b[n - 1];
      Assoc(FlatMap(f, a), FlatUpTo(f, b, n - 1), f(b[n - 1]));
    }
  }

  lemma FlatAppend<T, U>(f: T -> seq<U>, a: seq<T>, b: seq<T>)
    ensures FlatMap(f, a + b) == FlatMap(f, a) + FlatMap(f, b)
  {
    FlatAppendUpTo(f, a, b, |b|);
  }

  lemma FlatOne<T, U>(f: T -> seq<U>, x: T)
    ensures FlatMap(f, [x]) == f(x)
  {
    assert FlatUpTo(f, [x], 1) == FlatUpTo(f, [x], 0) + f(x);
    NilLeft(f(x));
  }
}

/** Bytes, byte buffers and the line structure of a byte string. */
module Bytes {

  type byte = b: int | 0 <= b < 256

  const NEWLINE: byte := 10
  const SPACE: byte := 32
  const PLUS: byte := 43
  const MINUS: byte := 45
  const SLASH: byte := 47

  /** The bytes of a C string. */
  function Ascii(s: string): seq<byte> {
    seq(|s|, k requires 0 <= k < |s| => (s[k] as int) % 256)
  }

  /** A growable byte buffer: the part of the `Bu8` buffers the model needs. Room is not modelled. */
  class Buffer {
    var data: seq<byte>

    constructor ()
      ensures data == []
    {
      data := [];
    }

    method Feed1(c: byte)
      modifies this
      ensures data == old(data) + [c]
    {
      data := data + [c];
    }

    method Feed(s: seq<byte>)
      modifies this
      ensures data == old(data) + s
    {
      data := data + s;
    }

    method Reset()
      modifies this
      ensures data == []
    {
      data := [];
    }
  }

  predicate Lacks(s: seq<byte>, lo: int, hi: int, c: byte)
    requires 0 <= lo && hi <= |s|
  {
    forall k :: lo <= k < hi ==> s[k] != c
  }

  /** The C library's memchr over s[lo..hi]: the first position of c, or hi when there is none. */
  method Memchr(s: seq<byte>, lo: nat, hi: nat, c: byte) returns (k: nat)
    requires lo <= hi <= |s|
    ensures lo <= k <= hi
    ensures Lacks(s, lo, k, c)
    ensures k < hi ==> s[k] == c
  {
    k := lo;
    while k < hi && s[k] != c
      invariant lo <= k <= hi
      invariant Lacks(s, lo, k, c)
    {
      k := k + 1;
    }
  }
}

/** Splitting a byte string into the lines its newlines terminate and the partial line after them. */
module Lines {
  import opened Bytes

  type Line = seq<byte>

  ghost predicate Clean(l: Line) {
    NEWLINE !in l
  }

  ghost predicate AllClean(ls: seq<Line>) {
    forall k :: 0 <= k < |ls| ==> Clean(ls[k])
  }

  /** The complete lines of s, their newlines dropped. */
  ghost function Whole(s: seq<byte>): seq<Line> {
    if s == [] then []
    else
      var t := s[..|s| - 1];
      if s[|s| - 1] == NEWLINE then Whole(t) + [Rest(t)] else Whole(t)
  }

  /** The bytes of s after its last newline. */
  ghost function Rest(s: seq<byte>): Line {
    if s == [] || s[|s| - 1] == NEWLINE then []
    else Rest(s[..|s| - 1]) + [s[|s| - 1]]
  }

  /** All lines of s: the complete ones, and the partial one when it is not empty. */
  ghost function LinesOf(s: seq<byte>): seq<Line> {
    Whole(s) + if Rest(s) == [] then [] else [Rest(s)]
  }

  ghost function Unlines(ls: seq<Line>): seq<byte> {
    if ls == [] then [] else Unlines(ls[..|ls| - 1]) + ls[|ls| - 1] + [NEWLINE]
  }

  /** Splitting loses nothing: the lines and the rest spell s again, and no line holds a newline. */
  lemma {:induction false} SplitSpells(s: seq<byte>)
    ensures Unlines(Whole(s)) + Rest(s) == s
    ensures AllClean(Whole(s)) && Clean(Rest(s))
  {
    if s != [] {
      var t := s[..|s| - 1];
      SplitSpells(t);
      assert s == t + [s[|s| - 1]];
      if s[|s| - 1] == NEWLINE {
        assert Whole(s)[..|Whole(s)| - 1] == Whole(t);
        assert Unlines(Whole(s)) == Unlines(Whole(t)) + Rest(t) + [NEWLINE];
      }
    }
  }

  lemma {:induction false} SplitRest(s: seq<byte>, r: Line)
    requires Clean(r)
    ensures Whole(s + r) == Whole(s) && Rest(s + r) == Rest(s) + r
  {
    if r == [] {
      assert s + r == s;
    } else {
      var r' := r[..|r| - 1];
      SplitRest(s, r');
      assert (s + r)[..|s + r| - 1] == s + r';
      assert (s + r)[|s + r| - 1] == r[|r| - 1];
      assert r[|r| - 1] in r;
      assert Rest(s) + r == Rest(s) + r' + [r[|r| - 1]];
    }
  }

  /** Splitting is the only way to spell s from newline-free lines: Whole and Rest undo Unlines. */
  lemma {:induction false} SplitUnlines(ls: seq<Line>)
    requires AllClean(ls)
    ensures Whole(Unlines(ls)) == ls && Rest(Unlines(ls)) == []
  {
    if ls != [] {
      var ls', l := ls[..|ls| - 1], ls[|ls| - 1];
      SplitUnlines(ls');
      SplitRest(Unlines(ls'), l);
      var s := Unlines(ls);
      assert s[..|s| - 1] == Unlines(ls') + l;
      assert Rest(Unlines(ls')) + l == l;
      assert Whole(s) == ls' + [l] == ls;
    }
  }
}
