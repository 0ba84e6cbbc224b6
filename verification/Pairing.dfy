/** Line similarity and the greedy pairing of removed with added lines (dog/HUNK.c). */
module Similarity {
  import opened Seqs
  import opened Lines

  /** Where a and b first differ at or after k, or the end of the shorter one. */
  function PrefixFrom<T(==)>(a: seq<T>, b: seq<T>, k: nat): (n: nat)
    requires k <= |a| && k <= |b|
    ensures k <= n <= |a| && n <= |b|
    decreases |a| - k
  {
    if k == |a| || k == |b| || a[k] != b[k] then k else PrefixFrom(a, b, k + 1)
  }

  /** How many elements a[lo..i] and b[lo..j] have in common at their ends. */
  function SuffixDown<T(==)>(a: seq<T>, i: nat, b: seq<T>, j: nat, lo: nat): (n: nat)
    requires lo <= i <= |a| && lo <= j <= |b|
    ensures n <= i - lo && n <= j - lo
  {
    if i == lo || j == lo || a[i - 1] != b[j - 1] then 0
    else SuffixDown(a, i - 1, b, j - 1, lo) + 1
  }

  function CommonPrefix<T(==)>(a: seq<T>, b: seq<T>): (n: nat)
    ensures n <= |a| && n <= |b|
  {
    PrefixFrom(a, b, 0)
  }

  /** The common suffix of a and b that does not reach below position lo in either. */
  function CommonSuffix<T(==)>(a: seq<T>, b: seq<T>, lo: nat): (n: nat)
    requires lo <= |a| && lo <= |b|
    ensures n <= |a| - lo && n <= |b| - lo
  {
    SuffixDown(a, |a|, b, |b|, lo)
  }

  lemma {:induction false} PrefixFromIs<T>(a: seq<T>, b: seq<T>, k: nat)
    requires k <= |a| && k <= |b|
    ensures var n := PrefixFrom(a, b, k);
      a[k..n] == b[k..n] && (n < |a| && n < |b| ==> a[n] != b[n])
    decreases |a| - k
  {
    var n := PrefixFrom(a, b, k);
    if n > k {
      PrefixFromIs(a, b, k + 1);
      SliceCons(a, k, n);
      SliceCons(b, k, n);
    }
  }

  lemma {:induction false} SuffixDownIs<T>(a: seq<T>, i: nat, b: seq<T>, j: nat, lo: nat)
    requires lo <= i <= |a| && lo <= j <= |b|
    ensures var n := SuffixDown(a, i, b, j, lo);
      a[i - n..i] == b[j - n..j] && (lo < i - n && lo < j - n ==> a[i - n - 1] != b[j - n - 1])
  {
    SuffixUnfold(a, i, b, j, lo);
    hide SuffixDown;
    var n := SuffixDown(a, i, b, j, lo);
    if n > 0 {
      SuffixDownIs(a, i - 1, b, j - 1, lo);
      SliceSnoc(a, i - n, i - 1);
      SliceSnoc(b, j - n, j - 1);
    }
  }

  lemma SuffixUnfold<T>(a: seq<T>, i: nat, b: seq<T>, j: nat, lo: nat)
    requires lo <= i <= |a| && lo <= j <= |b|
    ensures var n := SuffixDown(a, i, b, j, lo);
      && (n == 0 ==> a[i..i] == b[j..j] && (lo < i && lo < j ==> a[i - 1] != b[j - 1]))
      && (n > 0 ==> lo < i && lo < j && a[i - 1] == b[j - 1] && SuffixDown(a, i - 1, b, j - 1, lo) == n - 1)
  {
  }

  /** The common prefix and the common suffix beyond it are common, and cannot be longer. */
  lemma CommonEnds<T>(a: seq<T>, b: seq<T>)
    ensures var p := CommonPrefix(a, b);
      a[..p] == b[..p] && (p < |a| && p < |b| ==> a[p] != b[p])
    ensures var p := CommonPrefix(a, b);
      var n := CommonSuffix(a, b, p);
      && a[|a| - n..] == b[|b| - n..]
      && (p < |a| - n && p < |b| - n ==> a[|a| - n - 1] != b[|b| - n - 1])
  {
    hide PrefixFrom, SuffixDown;
    var p := CommonPrefix(a, b);
    var n := CommonSuffix(a, b, p);
    PrefixFromIs(a, b, 0);
    SuffixDownIs(a, |a|, b, |b|, p);
    FullSlices(a, p, |a| - n);
    FullSlices(b, p, |b| - n);
  }

  lemma FullSlices<T>(a: seq<T>, p: nat, k: nat)
    requires p <= |a| && k <= |a|
    ensures a[0..p] == a[..p] && a[k..|a|] == a[k..]
  {
  }

  /** Bytes two lines share: their common prefix and the common suffix that does not overlap it. */
  function Shared(a: Line, b: Line): nat {
    var p := CommonPrefix(a, b);
    p + CommonSuffix(a, b, p)
  }

  /** At least three quarters of the longer line is shared. */
  predicate SmallEdit(a: Line, b: Line) {
    var longer := if |a| > |b| then |a| else |b|;
    longer == 0 || Shared(a, b) * 4 >= longer * 3
  }

  lemma {:induction false} PrefixSymmetric(a: Line, b: Line, k: nat)
    requires k <= |a| && k <= |b|
    ensures PrefixFrom(a, b, k) == PrefixFrom(b, a, k)
    decreases |a| - k
  {
    if k < |a| && k < |b| && a[k] == b[k] {
      PrefixSymmetric(a, b, k + 1);
    }
  }

  lemma {:induction false} SuffixSymmetric(a: Line, i: nat, b: Line, j: nat, lo: nat)
    requires lo <= i <= |a| && lo <= j <= |b|
    ensures SuffixDown(a, i, b, j, lo) == SuffixDown(b, j, a, i, lo)
  {
    if lo < i && lo < j && a[i - 1] == b[j - 1] {
      SuffixSymmetric(a, i - 1, b, j - 1, lo);
    }
  }

  /** Similarity does not depend on which line is the old one. */
  lemma SharedSymmetric(a: Line, b: Line)
    ensures Shared(a, b) == Shared(b, a)
    ensures SmallEdit(a, b) == SmallEdit(b, a)
  {
    PrefixSymmetric(a, b, 0);
    SuffixSymmetric(a, |a|, b, |b|, CommonPrefix(a, b));
  }

  /** The shared count never passes the shorter line, and reaches both lengths only for equal lines. */
  lemma SharedBounds(a: Line, b: Line)
    ensures Shared(a, b) <= |a| && Shared(a, b) <= |b|
    ensures Shared(a, b) == |a| == |b| <==> a == b
  {
    var p := CommonPrefix(a, b);
    var n := CommonSuffix(a, b, p);
    CommonEnds(a, b);
    if p + n == |a| == |b| {
      TakeDrop(a, p);
      TakeDrop(b, p);
    }
  }

  /** a and b start with the same p elements and end with the same n other elements. */
  ghost predicate SameEnds<T>(a: seq<T>, b: seq<T>, p: nat, n: nat) {
    p + n <= |a| && p + n <= |b| && a[..p] == b[..p] && a[|a| - n..] == b[|b| - n..]
  }

  lemma EndsAgree<T>(a: seq<T>, b: seq<T>, p: nat, n: nat)
    requires SameEnds(a, b, p, n)
    ensures forall i :: 0 <= i < p ==> a[i] == b[i]
    ensures forall i :: |a| - n <= i < |a| ==> a[i] == b[i + |b| - |a|]
  {
    assert forall i :: 0 <= i < p ==> a[i] == a[..p][i];
    assert forall i :: |a| - n <= i < |a| ==> a[i] == a[|a| - n..][i - (|a| - n)];
  }

  /** No two equal ends are longer than the common prefix and the common suffix beyond it. */
  lemma SameEndsAtMost<T>(a: seq<T>, b: seq<T>, p: nat, n: nat)
    requires SameEnds(a, b, p, n)
    ensures var q := CommonPrefix(a, b);
      p <= q && p + n <= q + CommonSuffix(a, b, q)
  {
    hide PrefixFrom, SuffixDown;
    CommonEnds(a, b);
    EndsAgree(a, b, p, n);
  }

  /** The shared count is the most bytes two lines have in common at their two ends, none counted twice. */
  lemma SharedIsMost(a: Line, b: Line)
    ensures exists p: nat, n: nat :: SameEnds(a, b, p, n) && p + n == Shared(a, b)
    ensures forall p: nat, n: nat :: SameEnds(a, b, p, n) ==> p + n <= Shared(a, b)
  {
    CommonEnds(a, b);
    var p := CommonPrefix(a, b);
    assert SameEnds(a, b, p, CommonSuffix(a, b, p));
    forall p: nat, n: nat | SameEnds(a, b, p, n) ensures p + n <= Shared(a, b) {
      SameEndsAtMost(a, b, p, n);
    }
  }

  /** Two lines are a small edit when equal ends make up three quarters of either. */
  lemma SmallEditIff(a: Line, b: Line)
    ensures SmallEdit(a, b) <==>
      exists p: nat, n: nat :: SameEnds(a, b, p, n) && (p + n) * 4 >= |a| * 3 && (p + n) * 4 >= |b| * 3
  {
    hide Shared;
    SharedIsMost(a, b);
    SharedBounds(a, b);
  }

  method SharedBytes(a: Line, b: Line) returns (n: nat)
    ensures n == Shared(a, b)
  {
    var lim := if |a| < |b| then |a| else |b|;
    var lcp := 0;
    while lcp < lim && a[lcp] == b[lcp]
      invariant lcp <= lim
      invariant CommonPrefix(a, b) == PrefixFrom(a, b, lcp)
    {
      lcp := lcp + 1;
    }
    var lcs := 0;
    while lcs < lim - lcp && a[|a| - 1 - lcs] == b[|b| - 1 - lcs]
      invariant lcs <= lim - lcp
      invariant CommonSuffix(a, b, lcp) == lcs + SuffixDown(a, |a| - lcs, b, |b| - lcs, lcp)
    {
      lcs := lcs + 1;
    }
    n := lcp + lcs;
  }

  method IsSmallEdit(a: Line, b: Line) returns (r: bool)
    ensures r == SmallEdit(a, b)
  {
    var mx := if |a| > |b| then |a| else |b|;
    if mx == 0 {
      return true;
    }
    var sh := SharedBytes(a, b);
    r := sh * 4 >= mx * 3;
  }
}

/** Stable matchings over a grid of weights; weight 0 means the pair may not be chosen. */
module Matching {

  /** ofDel[i] is the column paired with row i, or -1; ofAdd is the other direction. */
  datatype Match = Match(ofDel: seq<int>, ofAdd: seq<int>)

  type Grid = seq<seq<nat>>

  ghost predicate Rect(w: Grid, na: nat) {
    forall i :: 0 <= i < |w| ==> |w[i]| == na
  }

  /** The two directions are mutually inverse partial injections. */
  ghost predicate Mutual(m: Match, nd: nat, na: nat) {
    && |m.ofDel| == nd && |m.ofAdd| == na
    && (forall i :: 0 <= i < nd ==> -1 <= m.ofDel[i] < na)
    && (forall j :: 0 <= j < na ==> -1 <= m.ofAdd[j] < nd)
    && (forall i, j :: 0 <= i < nd && 0 <= j < na ==> (m.ofDel[i] == j <==> m.ofAdd[j] == i))
  }

  /** A pair that may be chosen. */
  ghost predicate Candidate(w: Grid, na: nat, i: int, j: int)
    requires Rect(w, na)
  {
    0 <= i < |w| && 0 <= j < na && w[i][j] > 0
  }

  /** Pair (i, j) is preferred to pair (k, l): it weighs more, or as much and comes first. */
  ghost predicate Ahead(w: Grid, na: nat, i: int, j: int, k: int, l: int)
    requires Rect(w, na) && 0 <= i < |w| && 0 <= k < |w| && 0 <= j < na && 0 <= l < na
  {
    w[i][j] > w[k][l] || (w[i][j] == w[k][l] && (i < k || (i == k && j < l)))
  }

  /** One end of (i, j) is taken by a preferred pair. */
  ghost predicate Taken(w: Grid, na: nat, m: Match, i: int, j: int)
    requires Rect(w, na) && Mutual(m, |w|, na) && 0 <= i < |w| && 0 <= j < na
  {
    || (m.ofDel[i] >= 0 && Ahead(w, na, i, m.ofDel[i], i, j))
    || (m.ofAdd[j] >= 0 && Ahead(w, na, m.ofAdd[j], j, i, j))
  }

  ghost predicate Free(m: Match, i: int, j: int)
    requires 0 <= i < |m.ofDel| && 0 <= j < |m.ofAdd|
  {
    m.ofDel[i] < 0 && m.ofAdd[j] < 0
  }

  /** Only candidates are paired, and a passed-over candidate with a taken end lost to a preferred pair. */
  ghost predicate Fair(w: Grid, na: nat, m: Match)
    requires Rect(w, na)
  {
    && Mutual(m, |w|, na)
    && (forall i :: 0 <= i < |w| && m.ofDel[i] >= 0 ==> Candidate(w, na, i, m.ofDel[i]))
    && (forall i, j :: Candidate(w, na, i, j) && m.ofDel[i] != j && !Free(m, i, j) ==> Taken(w, na, m, i, j))
  }

  /** A fair matching that leaves no candidate free: no pair blocks it. */
  ghost predicate Stable(w: Grid, na: nat, m: Match)
    requires Rect(w, na)
  {
    Fair(w, na, m) && forall i, j :: Candidate(w, na, i, j) ==> !Free(m, i, j)
  }

  ghost predicate Bounded(w: Grid, na: nat, bound: nat)
    requires Rect(w, na)
  {
    forall i, j :: 0 <= i < |w| && 0 <= j < na ==> w[i][j] <= bound
  }

  lemma {:induction false} SameChoice(w: Grid, na: nat, bound: nat, m: Match, n: Match, i: nat, j: nat)
    requires Rect(w, na) && Bounded(w, na, bound) && Stable(w, na, m) && Stable(w, na, n)
    requires i < |w| && j < na && m.ofDel[i] == j
    ensures n.ofDel[i] == j
    decreases bound - w[i][j], i, j
  {
    if n.ofDel[i] != j {
      assert Candidate(w, na, i, j) && Taken(w, na, n, i, j);
      if n.ofDel[i] >= 0 && Ahead(w, na, i, n.ofDel[i], i, j) {
        SameChoice(w, na, bound, n, m, i, n.ofDel[i]);
      } else {
        SameChoice(w, na, bound, n, m, n.ofAdd[j], j);
      }
      assert false;
    }
  }

  /** Stability, with ties broken by position, leaves the matching no choice. */
  lemma StableIsUnique(w: Grid, na: nat, bound: nat, m: Match, n: Match)
    requires Rect(w, na) && Bounded(w, na, bound) && Stable(w, na, m) && Stable(w, na, n)
    ensures m == n
  {
    forall i | 0 <= i < |w| ensures m.ofDel[i] == n.ofDel[i] {
      if m.ofDel[i] >= 0 {
        SameChoice(w, na, bound, m, n, i, m.ofDel[i]);
      } else if n.ofDel[i] >= 0 {
        SameChoice(w, na, bound, n, m, i, n.ofDel[i]);
      }
    }
    forall j | 0 <= j < na ensures m.ofAdd[j] == n.ofAdd[j] {
      var k := if m.ofAdd[j] >= 0 then m.ofAdd[j] else n.ofAdd[j];
      assert k >= 0 ==> m.ofDel[k] == n.ofDel[k];
    }
  }

  ghost predicate Best(w: Grid, na: nat, m: Match, i: int, j: int)
    requires Rect(w, na) && Mutual(m, |w|, na)
  {
    && Candidate(w, na, i, j) && Free(m, i, j)
    && forall k, l :: Candidate(w, na, k, l) && Free(m, k, l) && (k != i || l != j) ==> Ahead(w, na, i, j, k, l)
  }

  ghost function Joined(m: Match, i: nat, j: nat): Match
    requires i < |m.ofDel| && j < |m.ofAdd|
  {
    Match(m.ofDel[i := j], m.ofAdd[j := i])
  }

  lemma JoinBest(w: Grid, na: nat, m: Match, i: nat, j: nat)
    requires Rect(w, na) && Fair(w, na, m) && Best(w, na, m, i, j)
    ensures Fair(w, na, Joined(m, i, j))
  {
    var n := Joined(m, i, j);
    forall k, l | Candidate(w, na, k, l) && n.ofDel[k] != l && !Free(n, k, l) ensures Taken(w, na, n, k, l) {
      if !Free(m, k, l) {
        assert Taken(w, na, m, k, l);
      } else {
        assert Ahead(w, na, i, j, k, l);
      }
    }
  }

  lemma {:induction false} BestExists(w: Grid, na: nat, bound: nat, m: Match, i: nat, j: nat) returns (i': nat, j': nat)
    requires Rect(w, na) && Bounded(w, na, bound) && Mutual(m, |w|, na) && Candidate(w, na, i, j) && Free(m, i, j)
    ensures Best(w, na, m, i', j')
    decreases bound - w[i][j], i, j
  {
    if k: int, l: int :| Candidate(w, na, k, l) && Free(m, k, l) && (k != i || l != j) && !Ahead(w, na, i, j, k, l) {
      i', j' := BestExists(w, na, bound, m, k, l);
    } else {
      i', j' := i, j;
    }
  }

  ghost function Unpaired(s: seq<int>): set<int> {
    set i | 0 <= i < |s| && s[i] < 0
  }

  lemma {:induction false} StableExists(w: Grid, na: nat, bound: nat, m: Match) returns (n: Match)
    requires Rect(w, na) && Bounded(w, na, bound) && Fair(w, na, m)
    ensures Stable(w, na, n)
    decreases Unpaired(m.ofDel)
  {
    if i: int, j: int :| Candidate(w, na, i, j) && Free(m, i, j) {
      var k, l := BestExists(w, na, bound, m, i, j);
      JoinBest(w, na, m, k, l);
      assert k in Unpaired(m.ofDel) && k !in Unpaired(Joined(m, k, l).ofDel);
      n := StableExists(w, na, bound, Joined(m, k, l));
    } else {
      n := m;
    }
  }
}

/** The pairing step of the region flush: which removed line each added line is printed next to. */
module Pairing {
  import opened Lines
  import opened Similarity
  import opened Matching

  /** The shared bytes of a small edit, 0 for a pair that is none. */
  function Weight(d: Line, a: Line): nat {
    if SmallEdit(d, a) then Shared(d, a) else 0
  }

  ghost function Weights(dl: seq<Line>, al: seq<Line>): (w: Grid)
    ensures |w| == |dl| && Rect(w, |al|)
  {
    seq(|dl|, i requires 0 <= i < |dl| => seq(|al|, j requires 0 <= j < |al| => Weight(dl[i], al[j])))
  }

  ghost function Longest(ls: seq<Line>): nat {
    if ls == [] then 0
    else if |ls[0]| > Longest(ls[1..]) then |ls[0]| else Longest(ls[1..])
  }

  lemma {:induction false} LongestBounds(ls: seq<Line>, i: nat)
    requires i < |ls|
    ensures |ls[i]| <= Longest(ls)
  {
    if i > 0 {
      LongestBounds(ls[1..], i - 1);
    }
  }

  lemma WeightsBounded(dl: seq<Line>, al: seq<Line>)
    ensures Bounded(Weights(dl, al), |al|, Longest(dl))
  {
    forall i, j | 0 <= i < |dl| && 0 <= j < |al| ensures Weights(dl, al)[i][j] <= Longest(dl) {
      SharedBounds(dl[i], al[j]);
      LongestBounds(dl, i);
    }
  }

  ghost function NoPairs(nd: nat, na: nat): Match {
    Match(seq(nd, _ => -1), seq(na, _ => -1))
  }

  /** The one stable pairing of two line lists. */
  ghost function PairingOf(dl: seq<Line>, al: seq<Line>): (m: Match)
    ensures Stable(Weights(dl, al), |al|, m)
  {
    assert exists n :: Stable(Weights(dl, al), |al|, n) by {
      WeightsBounded(dl, al);
      var n := StableExists(Weights(dl, al), |al|, Longest(dl), NoPairs(|dl|, |al|));
    }
    var m :| Stable(Weights(dl, al), |al|, m);
    m
  }

  /**
   * What the pairing promises: the two directions are mutually inverse, only small edits that share bytes
   * are paired, and a small edit passed over has an end paired at a shared count at least as large.
   */
  lemma NoBlockingPair(dl: seq<Line>, al: seq<Line>, i: int, j: int)
    requires 0 <= i < |dl| && 0 <= j < |al|
    ensures var m := PairingOf(dl, al);
      && Mutual(m, |dl|, |al|)
      && (m.ofDel[i] == j <==> m.ofAdd[j] == i)
      && (m.ofDel[i] == j ==> SmallEdit(dl[i], al[j]) && Shared(dl[i], al[j]) > 0)
      && (m.ofDel[i] != j && SmallEdit(dl[i], al[j]) && Shared(dl[i], al[j]) > 0 ==>
            || (m.ofDel[i] >= 0 && Shared(dl[i], al[m.ofDel[i]]) >= Shared(dl[i], al[j]))
            || (m.ofAdd[j] >= 0 && Shared(dl[m.ofAdd[j]], al[j]) >= Shared(dl[i], al[j])))
  {
    var m, w := PairingOf(dl, al), Weights(dl, al);
    assert w[i][j] == Weight(dl[i], al[j]);
    if m.ofDel[i] != j && SmallEdit(dl[i], al[j]) && Shared(dl[i], al[j]) > 0 {
      assert Candidate(w, |al|, i, j) && Taken(w, |al|, m, i, j);
      if m.ofDel[i] >= 0 {
        assert w[i][m.ofDel[i]] == Weight(dl[i], al[m.ofDel[i]]);
      }
      if m.ofAdd[j] >= 0 {
        assert w[m.ofAdd[j]][j] == Weight(dl[m.ofAdd[j]], al[j]);
      }
    }
  }

  /** Any pairing with these properties, ties going to the first pair, is the one the renderer finds. */
  lemma PairingIsUnique(dl: seq<Line>, al: seq<Line>, m: Match)
    requires Stable(Weights(dl, al), |al|, m)
    ensures m == PairingOf(dl, al)
  {
    WeightsBounded(dl, al);
    StableIsUnique(Weights(dl, al), |al|, Longest(dl), m, PairingOf(dl, al));
  }

  /** The renderer's loop: repeatedly join the best free candidate until there is none. */
  method PairLines(dl: seq<Line>, al: seq<Line>) returns (pairD: array<int>, pairA: array<int>)
    ensures fresh(pairD) && fresh(pairA)
    ensures Match(pairD[..], pairA[..]) == PairingOf(dl, al)
  {
    ghost var w := Weights(dl, al);
    pairA := new int[|al|](_ => -1);
    pairD := new int[|dl|](_ => -1);
    NothingPaired(dl, al, pairD[..], pairA[..]);
    while true
      invariant fresh(pairD) && fresh(pairA) && pairD != pairA
      invariant Fair(w, |al|, Match(pairD[..], pairA[..]))
      decreases Unpaired(pairD[..])
    {
      ghost var m := Match(pairD[..], pairA[..]);
      var bestI, bestJ := FindBest(dl, al, pairD, pairA);
      if bestI < 0 {
        PairingIsUnique(dl, al, m);
        return;
      }
      JoinBest(w, |al|, m, bestI, bestJ);
      pairD[bestI] := bestJ;
      pairA[bestJ] := bestI;
      assert Match(pairD[..], pairA[..]) == Joined(m, bestI, bestJ);
      assert bestI in Unpaired(m.ofDel) && bestI !in Unpaired(pairD[..]);
    }
  }

  lemma NothingPaired(dl: seq<Line>, al: seq<Line>, d: seq<int>, a: seq<int>)
    requires |d| == |dl| && |a| == |al|
    requires (forall i :: 0 <= i < |d| ==> d[i] == -1) && (forall j :: 0 <= j < |a| ==> a[j] == -1)
    ensures Fair(Weights(dl, al), |al|, Match(d, a))
  {
  }

  /** (bi, bj) is the best free candidate among those scanned before (i, j), and bs its weight. */
  ghost predicate BestSoFar(w: Grid, na: nat, m: Match, i: int, j: int, bi: int, bj: int, bs: nat)
    requires Rect(w, na) && Mutual(m, |w|, na)
  {
    && (bi >= 0 ==> Candidate(w, na, bi, bj) && Free(m, bi, bj) && bs == w[bi][bj]
                    && (bi < i || (bi == i && bj < j)))
    && (bi < 0 ==> bs == 0)
    && forall k, l :: Candidate(w, na, k, l) && Free(m, k, l) && (k < i || (k == i && l < j)) && (k != bi || l != bj)
                      ==> bi >= 0 && Ahead(w, na, bi, bj, k, l)
  }

  /** A pair that is no free candidate changes nothing; a free candidate replaces the best one if it weighs more. */
  lemma BestSoFarNext(w: Grid, na: nat, m: Match, i: int, j: int, bi: int, bj: int, bs: nat)
    requires Rect(w, na) && Mutual(m, |w|, na) && BestSoFar(w, na, m, i, j, bi, bj, bs) && 0 <= i < |w| && 0 <= j < na
    ensures !Free(m, i, j) || w[i][j] <= bs ==> BestSoFar(w, na, m, i, j + 1, bi, bj, bs)
    ensures Free(m, i, j) && w[i][j] > bs ==> BestSoFar(w, na, m, i, j + 1, i, j, w[i][j])
  {
    hide Rect, Mutual;
  }

  /** A row behind us. */
  lemma BestSoFarRow(w: Grid, na: nat, m: Match, i: int, bi: int, bj: int, bs: nat)
    requires Rect(w, na) && Mutual(m, |w|, na) && 0 <= i < |w|
    ensures BestSoFar(w, na, m, i, na, bi, bj, bs) ==> BestSoFar(w, na, m, i + 1, 0, bi, bj, bs)
    ensures BestSoFar(w, na, m, i, 0, bi, bj, bs) && m.ofDel[i] >= 0 ==> BestSoFar(w, na, m, i + 1, 0, bi, bj, bs)
  {
    hide Rect, Mutual;
  }

  lemma BestSoFarEnds(w: Grid, na: nat, m: Match, bi: int, bj: int, bs: nat)
    requires Rect(w, na) && Mutual(m, |w|, na)
    ensures BestSoFar(w, na, m, 0, 0, -1, -1, 0)
    ensures BestSoFar(w, na, m, |w|, 0, bi, bj, bs) && bi >= 0 ==> Best(w, na, m, bi, bj)
    ensures BestSoFar(w, na, m, |w|, 0, bi, bj, bs) && bi < 0 ==>
              forall i, j :: Candidate(w, na, i, j) ==> !Free(m, i, j)
  {
    hide Rect, Mutual;
  }

  method FindBest(dl: seq<Line>, al: seq<Line>, pairD: array<int>, pairA: array<int>) returns (bestI: int, bestJ: int)
    requires Mutual(Match(pairD[..], pairA[..]), |dl|, |al|)
    ensures bestI >= 0 ==> Best(Weights(dl, al), |al|, Match(pairD[..], pairA[..]), bestI, bestJ)
    ensures bestI < 0 ==>
              forall i, j :: Candidate(Weights(dl, al), |al|, i, j) ==> !Free(Match(pairD[..], pairA[..]), i, j)
  {
    hide BestSoFar, Best, Mutual, Rect, Candidate, Free, Weights, SmallEdit, Shared;
    ghost var m, w := Match(pairD[..], pairA[..]), Weights(dl, al);
    MatchShape(m, |dl|, |al|);
    var bestSh := 0;
    bestI, bestJ := -1, -1;
    BestSoFarEnds(w, |al|, m, -1, -1, 0);
    for i := 0 to |dl|
      invariant BestSoFar(w, |al|, m, i, 0, bestI, bestJ, bestSh)
    {
      BestSoFarRow(w, |al|, m, i, bestI, bestJ, bestSh);
      if pairD[i] < 0 {
        for j := 0 to |al|
          invariant BestSoFar(w, |al|, m, i, j, bestI, bestJ, bestSh)
        {
          WeightAt(dl, al, i, j, pairD[..], pairA[..]);
          BestSoFarNext(w, |al|, m, i, j, bestI, bestJ, bestSh);
          if pairA[j] < 0 {
            var small := IsSmallEdit(dl[i], al[j]);
            if small {
              var sh := SharedBytes(dl[i], al[j]);
              if sh > bestSh {
                bestSh, bestI, bestJ := sh, i, j;
              }
            }
          }
        }
        BestSoFarRow(w, |al|, m, i, bestI, bestJ, bestSh);
      }
    }
    BestSoFarEnds(w, |al|, m, bestI, bestJ, bestSh);
  }

  lemma MatchShape(m: Match, nd: nat, na: nat)
    requires Mutual(m, nd, na)
    ensures |m.ofDel| == nd && |m.ofAdd| == na
  {
  }

  lemma WeightAt(dl: seq<Line>, al: seq<Line>, i: nat, j: nat, d: seq<int>, a: seq<int>)
    requires i < |dl| && j < |al| && |d| == |dl| && |a| == |al|
    ensures |Weights(dl, al)[i]| == |al| && Weights(dl, al)[i][j] == Weight(dl[i], al[j])
    ensures Free(Match(d, a), i, j) <==> d[i] < 0 && a[j] < 0
  {
    hide Weight;
  }
}
