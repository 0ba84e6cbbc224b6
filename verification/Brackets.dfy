/** The bracket engine (dog/BRCT.c): what its three algorithms mean, and that they agree on balanced streams. */
module BracketSpec {
  datatype Kind = Curly | Round | Square

  /** A token as the engine sees it. */
  datatype Sym = Open(kind: Kind) | Close(kind: Kind) | Other

  const CAP: nat := 256

  /** Brackets of the given kinds open after the first n symbols: opens less closes. */
  ghost function Height(s: seq<Sym>, ks: set<Kind>, n: nat): int
    requires n <= |s|
  {
    if n == 0 then 0
    else Height(s, ks, n - 1)
         + (match s[n - 1]
            case Open(k) => if k in ks then 1 else 0
            case Close(k) => if k in ks then -1 else 0
            case Other => 0)
  }

  const ALL: set<Kind> := {Curly, Round, Square}

  // ----- mates: what counting one kind finds -----

  /** An opening bracket and a later closing one of its kind, with that kind never closed down in between. */
  ghost predicate Mates(s: seq<Sym>, i: int, m: int) {
    && 0 <= i < m < |s| && s[i].Open? && s[m] == Close(s[i].kind)
    && Height(s, {s[i].kind}, m + 1) == Height(s, {s[i].kind}, i)
    && forall t :: i < t <= m ==> Height(s, {s[i].kind}, t) > Height(s, {s[i].kind}, i)
  }

  /** What BRCTMatch promises: the mate of the bracket at `at`, or -1 when it has none. */
  ghost predicate MatchResult(s: seq<Sym>, at: nat, m: int) {
    && m >= -1
    && (m >= 0 ==> Mates(s, at, m) || Mates(s, m, at))
    && (m == -1 ==> forall x :: !Mates(s, at, x) && !Mates(s, x, at))
  }

  lemma MateIsUnique(s: seq<Sym>, i: int, m: int, x: int)
    ensures Mates(s, i, m) && Mates(s, i, x) ==> m == x
    ensures Mates(s, m, i) && Mates(s, x, i) ==> m == x
    ensures !(Mates(s, i, m) && Mates(s, x, i))
  {
    if Mates(s, i, m) && Mates(s, i, x) {
      var lo, hi := if m < x then m else x, if m < x then x else m;
      assert lo < hi ==> i < lo + 1 <= hi;
    }
    if Mates(s, m, i) && Mates(s, x, i) {
      var lo, hi := if m < x then m else x, if m < x then x else m;
      assert Mates(s, lo, i) && Mates(s, hi, i);
      assert lo < hi ==> lo < hi <= i;
    }
  }

  /** The answer is determined by the stream. */
  lemma MatchIsFunction(s: seq<Sym>, at: nat, m: int, x: int)
    requires MatchResult(s, at, m) && MatchResult(s, at, x)
    ensures m == x
  {
    MateIsUnique(s, at, m, x);
    MateIsUnique(s, at, x, m);
  }

  /** On every stream, balanced or not: the mate's mate is the bracket itself. */
  lemma MatchIsInvolution(s: seq<Sym>, at: nat, m: int, back: int)
    requires MatchResult(s, at, m) && m >= 0 && MatchResult(s, m, back)
    ensures back == at
  {
    MatchIsFunction(s, m, back, at);
  }

  // ----- the grammar of balanced streams -----

  /** Derivation trees of S -> empty | other S | open S close S, both brackets of one kind. */
  datatype Tree = Empty | Skip(rest: Tree) | Wrap(kind: Kind, inner: Tree, next: Tree)

  ghost function Size(d: Tree): nat {
    match d
    case Empty => 0
    case Skip(rest) => 1 + Size(rest)
    case Wrap(_, inner, next) => 2 + Size(inner) + Size(next)
  }

  ghost function Nesting(d: Tree): nat {
    match d
    case Empty => 0
    case Skip(rest) => Nesting(rest)
    case Wrap(_, inner, next) => if Nesting(inner) + 1 > Nesting(next) then Nesting(inner) + 1 else Nesting(next)
  }

  /** The tree derives s[lo..hi]. */
  ghost predicate Derives(d: Tree, s: seq<Sym>, lo: nat, hi: nat) {
    && lo + Size(d) == hi <= |s|
    && match d
       case Empty => true
       case Skip(rest) => s[lo] == Other && Derives(rest, s, lo + 1, hi)
       case Wrap(k, inner, next) =>
         var m := lo + 1 + Size(inner);
         s[lo] == Open(k) && Derives(inner, s, lo + 1, m) && s[m] == Close(k) && Derives(next, s, m + 1, hi)
  }

  ghost predicate Derivable(s: seq<Sym>, lo: nat, hi: nat) {
    exists d :: Derives(d, s, lo, hi)
  }

  /** The whole stream is derivable, with brackets nested at most CAP deep. */
  ghost predicate Balanced(s: seq<Sym>) {
    exists d :: Derives(d, s, 0, |s|) && Nesting(d) <= CAP
  }

  /** A derivable stretch ends at the height it starts at and never goes below it, whatever kinds are counted. */
  lemma {:induction false} DerivedHeights(d: Tree, s: seq<Sym>, lo: nat, hi: nat, ks: set<Kind>)
    requires Derives(d, s, lo, hi)
    ensures Height(s, ks, hi) == Height(s, ks, lo)
    ensures forall t :: lo <= t <= hi ==> Height(s, ks, t) >= Height(s, ks, lo)
  {
    match d
    case Empty =>
    case Skip(rest) => DerivedHeights(rest, s, lo + 1, hi, ks);
    case Wrap(k, inner, next) =>
      var m := lo + 1 + Size(inner);
      DerivedHeights(inner, s, lo + 1, m, ks);
      DerivedHeights(next, s, m + 1, hi, ks);
  }

  /** A bracket pair with a derivable stretch between: what the stack pairs up. */
  ghost predicate Pair(s: seq<Sym>, i: int, m: int) {
    && 0 <= i < m < |s| && s[i].Open? && s[m] == Close(s[i].kind)
    && Derivable(s, i + 1, m)
  }

  lemma PairHeights(s: seq<Sym>, i: int, m: int, ks: set<Kind>)
    requires Pair(s, i, m) && s[i].kind in ks
    ensures Height(s, ks, m + 1) == Height(s, ks, i)
    ensures forall t :: i < t <= m ==> Height(s, ks, t) > Height(s, ks, i)
  {
    var d :| Derives(d, s, i + 1, m);
    DerivedHeights(d, s, i + 1, m, ks);
    assert Height(s, ks, i + 1) == Height(s, ks, i) + 1;
  }

  lemma AllKinds(k: Kind)
    ensures k in ALL
  {
    match k
    case Curly =>
    case Round =>
    case Square =>
  }

  lemma PairLevels(s: seq<Sym>, i: int, m: int)
    requires Pair(s, i, m)
    ensures Height(s, ALL, m + 1) == Height(s, ALL, i)
    ensures forall t :: i < t <= m ==> Height(s, ALL, t) > Height(s, ALL, i)
  {
    AllKinds(s[i].kind);
    PairHeights(s, i, m, ALL);
  }

  /** Pairs are mates: the engine that counts one kind finds the stack's partner. */
  lemma PairsAreMates(s: seq<Sym>, i: int, m: int)
    requires Pair(s, i, m)
    ensures Mates(s, i, m)
  {
    PairHeights(s, i, m, {s[i].kind});
  }

  /** Every bracket of a derivable stretch has its partner in it. */
  lemma {:induction false} PartnerExists(d: Tree, s: seq<Sym>, lo: nat, hi: nat, j: nat) returns (p: nat)
    requires Derives(d, s, lo, hi) && lo <= j < hi && !s[j].Other?
    ensures lo <= p < hi
    ensures Pair(s, j, p) || Pair(s, p, j)
  {
    match d
    case Empty => p := j;
    case Skip(rest) => p := PartnerExists(rest, s, lo + 1, hi, j);
    case Wrap(k, inner, next) =>
      var m := lo + 1 + Size(inner);
      assert Pair(s, lo, m);
      if j == lo {
        p := m;
      } else if j == m {
        p := lo;
      } else if j < m {
        p := PartnerExists(inner, s, lo + 1, m, j);
      } else {
        p := PartnerExists(next, s, m + 1, hi, j);
      }
  }

  /** On a balanced stream BRCTMatch returns the stack partner of every bracket. */
  lemma MatchFindsPartner(s: seq<Sym>, at: nat, m: int)
    requires Balanced(s) && at < |s| && !s[at].Other? && MatchResult(s, at, m)
    ensures m >= 0 && (if s[at].Open? then Pair(s, at, m) else Pair(s, m, at))
  {
    var d :| Derives(d, s, 0, |s|) && Nesting(d) <= CAP;
    var p := PartnerExists(d, s, 0, |s|, at);
    if Pair(s, at, p) {
      PairsAreMates(s, at, p);
    } else {
      PairsAreMates(s, p, at);
    }
    MatchIsFunction(s, at, m, p);
  }

  // ----- the stack machine decides the grammar -----

  datatype Stack = Bad | Stk(kinds: seq<Kind>)

  ghost function Push(t: Stack, c: Sym): Stack {
    if t.Bad? then Bad
    else match c
      case Open(k) => if |t.kinds| >= CAP then Bad else Stk(t.kinds + [k])
      case Close(k) => if t.kinds == [] || t.kinds[|t.kinds| - 1] != k then Bad else Stk(t.kinds[..|t.kinds| - 1])
      case Other => t
  }

  /** The stack after the symbols s[lo..hi], from the stack t. */
  ghost function Exec(s: seq<Sym>, lo: nat, hi: nat, t: Stack): Stack
    requires lo <= hi <= |s|
  {
    if lo == hi then t else Push(Exec(s, lo, hi - 1, t), s[hi - 1])
  }

  lemma {:induction false} ExecSplit(s: seq<Sym>, lo: nat, mid: nat, hi: nat, t: Stack)
    requires lo <= mid <= hi <= |s|
    ensures Exec(s, lo, hi, t) == Exec(s, mid, hi, Exec(s, lo, mid, t))
  {
    if mid < hi {
      ExecSplit(s, lo, mid, hi - 1, t);
    }
  }

  lemma ExecFirst(s: seq<Sym>, lo: nat, hi: nat, t: Stack)
    requires lo < hi <= |s|
    ensures Exec(s, lo, hi, t) == Exec(s, lo + 1, hi, Push(t, s[lo]))
  {
    ExecSplit(s, lo, lo + 1, hi, t);
    assert Exec(s, lo, lo, t) == t;
  }

  lemma {:induction false} BadStays(s: seq<Sym>, lo: nat, hi: nat)
    requires lo <= hi <= |s|
    ensures Exec(s, lo, hi, Bad) == Bad
  {
    if lo < hi {
      BadStays(s, lo, hi - 1);
    }
  }

  lemma ExecNone(s: seq<Sym>, lo: nat, t: Stack)
    requires lo <= |s|
    ensures Exec(s, lo, lo, t) == t
  {
  }

  /** A derivable stretch leaves the stack as it was. */
  lemma {:induction false} DerivedRuns(d: Tree, s: seq<Sym>, lo: nat, hi: nat, ks: seq<Kind>)
    requires Derives(d, s, lo, hi) && |ks| + Nesting(d) <= CAP
    ensures Exec(s, lo, hi, Stk(ks)) == Stk(ks)
  {
    hide Exec;
    match d
    case Empty =>
      ExecNone(s, lo, Stk(ks));
    case Skip(rest) =>
      ExecFirst(s, lo, hi, Stk(ks));
      DerivedRuns(rest, s, lo + 1, hi, ks);
    case Wrap(k, inner, next) =>
      var m := lo + 1 + Size(inner);
      ExecFirst(s, lo, hi, Stk(ks));
      DerivedRuns(inner, s, lo + 1, m, ks + [k]);
      ExecSplit(s, lo + 1, m, hi, Stk(ks + [k]));
      ExecFirst(s, m, hi, Stk(ks + [k]));
      assert (ks + [k])[..|ks|] == ks;
      DerivedRuns(next, s, m + 1, hi, ks);
  }

  /** The first step of a run that does not fail. */
  lemma ParseFirst(s: seq<Sym>, lo: nat, hi: nat, ks: seq<Kind>)
    requires lo < hi <= |s| && Exec(s, lo, hi, Stk(ks)).Stk?
    ensures s[lo].Other? ==> Exec(s, lo, hi, Stk(ks)) == Exec(s, lo + 1, hi, Stk(ks))
    ensures s[lo].Open? ==>
              |ks| < CAP && Exec(s, lo, hi, Stk(ks)) == Exec(s, lo + 1, hi, Stk(ks + [s[lo].kind]))
  {
    ExecFirst(s, lo, hi, Stk(ks));
    BadStays(s, lo + 1, hi);
  }

  /** Reading from a stack that ends no higher, a derivable stretch reaches the end or a closing bracket. */
  lemma {:induction false} Parse(s: seq<Sym>, lo: nat, hi: nat, ks: seq<Kind>) returns (d: Tree, m: nat)
    requires lo <= hi <= |s| && |ks| <= CAP
    requires Exec(s, lo, hi, Stk(ks)).Stk? && |Exec(s, lo, hi, Stk(ks)).kinds| <= |ks|
    ensures m <= hi && Derives(d, s, lo, m) && |ks| + Nesting(d) <= CAP
    ensures m < hi ==> s[m].Close?
    decreases hi - lo
  {
    hide Exec, Push;
    if lo == hi {
      return Empty, lo;
    }
    ParseFirst(s, lo, hi, ks);
    match s[lo]
    case Other =>
      d, m := Parse(s, lo + 1, hi, ks);
      d := Skip(d);
    case Close(_) =>
      d, m := Empty, lo;
    case Open(k) =>
      var inner, n := Parse(s, lo + 1, hi, ks + [k]);
      CloseWhatWasOpened(s, lo + 1, n, hi, ks, k, inner);
      d, m := Parse(s, n + 1, hi, ks);
      d := Wrap(k, inner, d);
  }

  /** After a bracket of kind k and a derivable stretch, a run that ends no higher goes on with its closing one. */
  lemma CloseWhatWasOpened(s: seq<Sym>, lo: nat, n: nat, hi: nat, ks: seq<Kind>, k: Kind, inner: Tree)
    requires lo <= n <= hi <= |s| && Derives(inner, s, lo, n) && |ks| + 1 + Nesting(inner) <= CAP
    requires n < hi ==> s[n].Close?
    requires Exec(s, lo, hi, Stk(ks + [k])).Stk? && |Exec(s, lo, hi, Stk(ks + [k])).kinds| <= |ks|
    ensures n < hi && s[n] == Close(k) && Exec(s, n + 1, hi, Stk(ks)) == Exec(s, lo, hi, Stk(ks + [k]))
  {
    hide Exec, Derives, Nesting;
    DerivedRuns(inner, s, lo, n, ks + [k]);
    ExecSplit(s, lo, n, hi, Stk(ks + [k]));
    ExecNone(s, lo, Stk(ks + [k]));
    ExecNone(s, n, Stk(ks + [k]));
    assert n < hi;
    ExecFirst(s, n, hi, Stk(ks + [k]));
    BadStays(s, n + 1, hi);
    assert (ks + [k])[..|ks|] == ks;
  }

  /** The stack ends empty, never overflowing or mismatching, exactly on the balanced streams. */
  lemma StackDecidesBalance(s: seq<Sym>)
    ensures Exec(s, 0, |s|, Stk([])) == Stk([]) <==> Balanced(s)
  {
    hide Exec, Derives, Nesting;
    if Exec(s, 0, |s|, Stk([])) == Stk([]) {
      AcceptedIsBalanced(s);
    }
    if Balanced(s) {
      var d :| Derives(d, s, 0, |s|) && Nesting(d) <= CAP;
      DerivedRuns(d, s, 0, |s|, []);
    }
  }

  lemma AcceptedIsBalanced(s: seq<Sym>)
    requires Exec(s, 0, |s|, Stk([])) == Stk([])
    ensures Balanced(s)
  {
    hide Exec, Derives, Nesting;
    var d, m := Parse(s, 0, |s|, []);
    if m < |s| {
      DerivedRuns(d, s, 0, m, []);
      ExecSplit(s, 0, m, |s|, Stk([]));
      ExecFirst(s, m, |s|, Stk([]));
      BadStays(s, m + 1, |s|);
      assert false;
    }
  }

  // ----- depth and enclosing pairs -----

  /** The depth BRCTDepth counts: a closing bracket with nothing open is passed over. */
  ghost function Depth(s: seq<Sym>, n: nat): nat
    requires n <= |s|
  {
    if n == 0 then 0
    else
      var d := Depth(s, n - 1);
      match s[n - 1]
      case Open(_) => d + 1
      case Close(_) => if d > 0 then d - 1 else 0
      case Other => d
  }

  /** On every stream the depth is how far the height stands above its lowest point so far. */
  lemma {:induction false} DepthIs(s: seq<Sym>, n: nat)
    requires n <= |s|
    ensures forall t :: 0 <= t <= n ==> Depth(s, n) >= Height(s, ALL, n) - Height(s, ALL, t)
    ensures exists t :: 0 <= t <= n && Depth(s, n) == Height(s, ALL, n) - Height(s, ALL, t)
  {
    if n == 0 {
      assert Depth(s, 0) == Height(s, ALL, 0) - Height(s, ALL, 0);
    } else {
      DepthIs(s, n - 1);
      if !s[n - 1].Other? {
        AllKinds(s[n - 1].kind);
      }
      var t :| 0 <= t <= n - 1 && Depth(s, n - 1) == Height(s, ALL, n - 1) - Height(s, ALL, t);
      var low := if s[n - 1].Close? && Depth(s, n - 1) == 0 then n else t;
      assert Depth(s, n) == Height(s, ALL, n) - Height(s, ALL, low);
    }
  }

  lemma BalancedDepth(s: seq<Sym>, n: nat)
    requires Balanced(s) && n <= |s|
    ensures Depth(s, n) == Height(s, ALL, n)
  {
    var d :| Derives(d, s, 0, |s|) && Nesting(d) <= CAP;
    DerivedHeights(d, s, 0, |s|, ALL);
    DepthIs(s, n);
  }

  /** The nearest opening bracket before `at` that is not closed before it. */
  ghost predicate InnerOpen(s: seq<Sym>, at: int, i: int) {
    && 0 <= i < at <= |s| && s[i].Open?
    && Height(s, ALL, i) == Height(s, ALL, at) - 1
    && forall t :: i < t <= at ==> Height(s, ALL, t) >= Height(s, ALL, at)
  }

  /** What BRCTInner returns: the nearest unclosed bracket and its mate, the mate not before `at`. */
  ghost predicate InnerResult(s: seq<Sym>, at: int, i: int, m: int) {
    InnerOpen(s, at, i) && Mates(s, i, m) && at <= m
  }

  ghost predicate HasInner(s: seq<Sym>, at: int) {
    exists i, m :: InnerResult(s, at, i, m)
  }

  lemma InnerOpenIsUnique(s: seq<Sym>, at: int, i: int, j: int)
    requires InnerOpen(s, at, i) && InnerOpen(s, at, j)
    ensures i == j
  {
    var lo, hi := if i < j then i else j, if i < j then j else i;
    assert lo < hi ==> lo < hi <= at;
  }

  /** Below height h before `at`, the last such position is one below it and holds an opening bracket. */
  lemma {:induction false} LastBelow(s: seq<Sym>, at: nat, n: nat) returns (i: nat)
    requires n <= at <= |s| && Height(s, ALL, 0) < Height(s, ALL, at)
    requires forall t :: n < t <= at ==> Height(s, ALL, t) >= Height(s, ALL, at)
    ensures InnerOpen(s, at, i)
  {
    if Height(s, ALL, n) < Height(s, ALL, at) {
      i := n;
      assert Height(s, ALL, n + 1) >= Height(s, ALL, at);
    } else {
      i := LastBelow(s, at, n - 1);
    }
  }

  /** On a balanced stream the nearest unclosed bracket and its partner enclose `at`. */
  lemma InnerEncloses(s: seq<Sym>, at: int, i: int)
    requires Balanced(s) && InnerOpen(s, at, i)
    ensures exists m :: InnerResult(s, at, i, m) && Pair(s, i, m)
  {
    var d :| Derives(d, s, 0, |s|) && Nesting(d) <= CAP;
    var m := PartnerExists(d, s, 0, |s|, i);
    PairsAreMates(s, i, m);
    PairLevels(s, i, m);
    assert InnerResult(s, at, i, m);
  }

  /** On a balanced stream there is an enclosing pair exactly where the depth is positive. */
  lemma InnerExistsWhereDeep(s: seq<Sym>, at: nat)
    requires Balanced(s) && at <= |s|
    ensures HasInner(s, at) <==> Depth(s, at) > 0
  {
    BalancedDepth(s, at);
    if Depth(s, at) > 0 {
      var i := LastBelow(s, at, at);
      InnerEncloses(s, at, i);
    }
    if i, m :| InnerResult(s, at, i, m) {
      BalancedDepth(s, i);
    }
  }

  /** On a balanced stream the pair found is an enclosing one, and inside every other enclosing pair. */
  lemma InnerIsInnermost(s: seq<Sym>, at: int, i: int, m: int, f: int, t: int)
    requires Balanced(s) && InnerResult(s, at, i, m)
    ensures Pair(s, i, m)
    ensures Pair(s, f, t) && f < at <= t ==> f <= i && m <= t
  {
    InnerEncloses(s, at, i);
    var x :| InnerResult(s, at, i, x) && Pair(s, i, x);
    MateIsUnique(s, i, m, x);
    PairLevels(s, i, m);
    if Pair(s, f, t) && f < at <= t {
      PairLevels(s, f, t);
      assert f <= i by {
        assert Height(s, ALL, at) > Height(s, ALL, f);
      }
      if f == i {
        PairsAreMates(s, i, t);
        MateIsUnique(s, i, m, t);
      } else {
        assert Height(s, ALL, i) > Height(s, ALL, f);
        assert t < m ==> i < t + 1 <= m;
      }
    }
  }

  /** An enclosing pair whose opening bracket has depth 0 lies outside every other. */
  lemma DepthZeroIsOutermost(s: seq<Sym>, at: int, i: nat, m: int, f: int, t: int)
    requires Balanced(s) && Pair(s, i, m) && i < at <= m && Depth(s, i) == 0
    requires Pair(s, f, t) && f < at <= t
    ensures i <= f
  {
    BalancedDepth(s, i);
    BalancedDepth(s, f);
    PairLevels(s, f, t);
    assert f < i ==> f < i <= t;
  }
}

/** The engine itself, on token arrays and source bytes. */
module BracketEngine {
  import opened Bytes
  import opened Tokens
  import opened BracketSpec

  /** Punctuation tokens start within the source, so that they have a byte to read; they may be empty. */
  ghost predicate Tokenized(toks: seq<Token>, data: seq<byte>) {
    forall i {:trigger Start(toks, i)} :: 0 <= i < |toks| && toks[i].tag == 'P' ==> Start(toks, i) < |data|
  }

  function SymOf(c: byte): Sym {
    if c == 123 then Open(Curly) else if c == 125 then Close(Curly)
    else if c == 40 then Open(Round) else if c == 41 then Close(Round)
    else if c == 91 then Open(Square) else if c == 93 then Close(Square)
    else Other
  }

  /** Only punctuation tokens count; they are known by their first byte. */
  ghost function Syms(toks: seq<Token>, data: seq<byte>): (s: seq<Sym>)
    requires Tokenized(toks, data)
    ensures |s| == |toks|
  {
    seq(|toks|, i requires 0 <= i < |toks| => if toks[i].tag == 'P' then SymOf(data[Start(toks, i)]) else Other)
  }

  function ByteOf(toks: seq<Token>, data: seq<byte>, i: nat): byte
    requires i < |toks| && Start(toks, i) < |data|
  {
    data[Start(toks, i)]
  }

  predicate IsOpen(c: byte) {
    c == 123 || c == 40 || c == 91
  }

  predicate IsClose(c: byte) {
    c == 125 || c == 41 || c == 93
  }

  /** The bracket on the other side, 0 for a byte that is none. */
  function Matching(c: byte): byte {
    if c == 123 then 125 else if c == 125 then 123
    else if c == 40 then 41 else if c == 41 then 40
    else if c == 91 then 93 else if c == 93 then 91
    else 0
  }

  lemma SymAt(toks: seq<Token>, data: seq<byte>, i: nat)
    requires Tokenized(toks, data) && i < |toks|
    ensures toks[i].tag == 'P' ==> Start(toks, i) < |data|
    ensures Syms(toks, data)[i] == if toks[i].tag == 'P' then SymOf(ByteOf(toks, data, i)) else Other
  {
  }

  /** How one symbol moves the height of kind k, told from its byte and the two bytes of that kind. */
  lemma HeightMoves(s: seq<Sym>, i: nat, k: Kind, open: byte, close: byte, punct: bool, c: byte)
    requires i < |s| && SymOf(open) == Open(k) && SymOf(close) == Close(k)
    requires s[i] == if punct then SymOf(c) else Other
    ensures Height(s, {k}, i + 1) ==
            Height(s, {k}, i) + if punct && c == open then 1 else if punct && c == close then -1 else 0
    ensures punct && c == close ==> s[i] == Close(k)
    ensures punct && c == open ==> s[i] == Open(k)
  {
  }

  method ScanForward(toks: seq<Token>, data: seq<byte>, at: nat, ch: byte, mate: byte, ghost k: Kind) returns (m: int)
    requires Tokenized(toks, data) && at < |toks| && Syms(toks, data)[at] == Open(k)
    requires SymOf(ch) == Open(k) && SymOf(mate) == Close(k)
    ensures m == -1 || Mates(Syms(toks, data), at, m)
    ensures m == -1 ==> forall x :: !Mates(Syms(toks, data), at, x)
  {
    ghost var s := Syms(toks, data);
    hide Syms, SymOf, Tokenized, Height;
    var depth := 0;
    for i := at to |toks|
      invariant depth == Height(s, {k}, i) - Height(s, {k}, at)
      invariant forall t :: at < t <= i ==> Height(s, {k}, t) > Height(s, {k}, at)
    {
      SymAt(toks, data, i);
      var c: byte := if toks[i].tag == 'P' then ByteOf(toks, data, i) else 0;
      HeightMoves(s, i, k, ch, mate, toks[i].tag == 'P', c);
      if toks[i].tag == 'P' {
        if c == ch {
          depth := depth + 1;
        } else if c == mate {
          depth := depth - 1;
          if depth == 0 {
            return i;
          }
        }
      }
    }
    m := -1;
  }

  method ScanBackward(toks: seq<Token>, data: seq<byte>, at: nat, ch: byte, mate: byte, ghost k: Kind) returns (m: int)
    requires Tokenized(toks, data) && at < |toks| && Syms(toks, data)[at] == Close(k)
    requires SymOf(ch) == Close(k) && SymOf(mate) == Open(k)
    ensures m == -1 || Mates(Syms(toks, data), m, at)
    ensures m == -1 ==> forall x :: !Mates(Syms(toks, data), x, at)
  {
    ghost var s := Syms(toks, data);
    hide Syms, SymOf, Tokenized, Height;
    var depth := 0;
    var i: int := at;
    while i >= 0
      invariant -1 <= i <= at && depth == Height(s, {k}, i + 1) - Height(s, {k}, at + 1)
      invariant forall t :: i < t <= at ==> Height(s, {k}, t) > Height(s, {k}, at + 1)
    {
      SymAt(toks, data, i);
      var c: byte := if toks[i].tag == 'P' then ByteOf(toks, data, i) else 0;
      HeightMoves(s, i, k, mate, ch, toks[i].tag == 'P', c);
      if toks[i].tag == 'P' {
        if c == ch {
          depth := depth + 1;
        } else if c == mate {
          depth := depth - 1;
          if depth == 0 {
            return i;
          }
        }
      }
      i := i - 1;
    }
    m := -1;
  }

  /** Find the mate of the bracket at `at` by counting brackets of its kind. */
  method Match(toks: seq<Token>, data: seq<byte>, at: nat) returns (m: int)
    requires Tokenized(toks, data)
    ensures MatchResult(Syms(toks, data), at, m)
  {
    ghost var s := Syms(toks, data);
    if at >= |toks| || toks[at].tag != 'P' {
      return -1;
    }
    SymAt(toks, data, at);
    var ch := ByteOf(toks, data, at);
    var mate := Matching(ch);
    if mate == 0 {
      return -1;
    }
    if IsOpen(ch) {
      m := ScanForward(toks, data, at, ch, mate, s[at].kind);
    } else {
      m := ScanBackward(toks, data, at, ch, mate, s[at].kind);
    }
  }

  /** The array holds the opening bytes of the stack. */
  ghost predicate Holds(stk: seq<byte>, ks: seq<Kind>) {
    |ks| <= |stk| && forall j :: 0 <= j < |ks| ==> SymOf(stk[j]) == Open(ks[j])
  }

  lemma ExecStep(s: seq<Sym>, i: nat)
    requires i < |s|
    ensures Exec(s, 0, i + 1, Stk([])) == Push(Exec(s, 0, i, Stk([])), s[i])
  {
  }

  lemma ByteFacts(c: byte, d: byte)
    ensures IsOpen(c) <==> SymOf(c).Open?
    ensures IsClose(c) <==> SymOf(c).Close?
    ensures IsClose(c) && SymOf(d).Open? ==> (d == Matching(c) <==> SymOf(d).kind == SymOf(c).kind)
  {
  }

  /** Whether the stack machine accepts the stream. */
  method Check(toks: seq<Token>, data: seq<byte>) returns (ok: bool)
    requires Tokenized(toks, data)
    ensures ok <==> Balanced(Syms(toks, data))
  {
    ghost var s := Syms(toks, data);
    StackDecidesBalance(s);
    hide Syms, SymOf, IsOpen, IsClose, Matching, Balanced, Tokenized, Exec;
    var stk := new byte[CAP];
    var top := 0;
    ghost var ks: seq<Kind> := [];
    assert Exec(s, 0, 0, Stk([])) == Stk([]) by { ExecNothing(s); }
    for i := 0 to |toks|
      invariant top == |ks| && Holds(stk[..], ks) && Exec(s, 0, i, Stk([])) == Stk(ks)
    {
      ExecStep(s, i);
      SymAt(toks, data, i);
      if toks[i].tag == 'P' {
        var c := ByteOf(toks, data, i);
        ByteFacts(c, c);
        if IsOpen(c) {
          if top >= CAP {
            BadEnd(s, i);
            return false;
          }
          stk[top] := c;
          top := top + 1;
          ks := ks + [SymOf(c).kind];
        } else if IsClose(c) {
          if top == 0 {
            BadEnd(s, i);
            return false;
          }
          var expected := Matching(c);
          ByteFacts(c, stk[top - 1]);
          if stk[top - 1] != expected {
            BadEnd(s, i);
            return false;
          }
          top := top - 1;
          ks := ks[..top];
        }
      }
    }
    ok := top == 0;
  }

  lemma ExecNothing(s: seq<Sym>)
    ensures Exec(s, 0, 0, Stk([])) == Stk([])
  {
  }

  lemma BadEnd(s: seq<Sym>, i: nat)
    requires i < |s| && Exec(s, 0, i + 1, Stk([])) == Bad
    ensures Exec(s, 0, |s|, Stk([])) == Bad
  {
    ExecSplit(s, 0, i + 1, |s|, Stk([]));
    BadStays(s, i + 1, |s|);
  }

  /** Nesting depth before token `at`, or at the end of a shorter stream. */
  method DepthAt(toks: seq<Token>, data: seq<byte>, at: nat) returns (depth: nat)
    requires Tokenized(toks, data)
    ensures depth == Depth(Syms(toks, data), if at < |toks| then at else |toks|)
  {
    ghost var s := Syms(toks, data);
    var n := if at < |toks| then at else |toks|;
    depth := 0;
    for i := 0 to n
      invariant depth == Depth(s, i)
    {
      SymAt(toks, data, i);
      if toks[i].tag == 'P' {
        var c := ByteOf(toks, data, i);
        if IsOpen(c) {
          depth := depth + 1;
        } else if IsClose(c) && depth > 0 {
          depth := depth - 1;
        }
      }
    }
  }

  lemma LevelMoves(s: seq<Sym>, i: nat, punct: bool, c: byte)
    requires i < |s| && s[i] == if punct then SymOf(c) else Other
    ensures Height(s, ALL, i + 1) ==
            Height(s, ALL, i) + if punct && IsOpen(c) then 1 else if punct && IsClose(c) then -1 else 0
    ensures s[i].Open? <==> punct && IsOpen(c)
    ensures s[i].Close? <==> punct && IsClose(c)
  {
  }

  /** The innermost pair around `at`: the nearest unclosed bracket before it, if its mate is not before it. */
  method Inner(toks: seq<Token>, data: seq<byte>, at: nat) returns (ok: bool, from: nat, till: nat)
    requires Tokenized(toks, data) && at <= |toks|
    ensures ok <==> HasInner(Syms(toks, data), at)
    ensures ok ==> InnerResult(Syms(toks, data), at, from, till)
  {
    ghost var s := Syms(toks, data);
    hide Syms, SymOf, Tokenized, Height, IsOpen, IsClose;
    ok, from, till := false, 0, 0;
    var depth := 0;
    var i: int := at - 1;
    while i >= 0
      invariant -1 <= i < at && depth == Height(s, ALL, i + 1) - Height(s, ALL, at)
      invariant forall t :: i < t <= at ==> Height(s, ALL, t) >= Height(s, ALL, at)
    {
      SymAt(toks, data, i);
      var c: byte := if toks[i].tag == 'P' then ByteOf(toks, data, i) else 0;
      LevelMoves(s, i, toks[i].tag == 'P', c);
      if toks[i].tag == 'P' {
        if IsClose(c) {
          depth := depth + 1;
        } else if IsOpen(c) {
          if depth == 0 {
            assert InnerOpen(s, at, i);
            var m := Match(toks, data, i);
            forall j, x | InnerResult(s, at, j, x) ensures j == i && x == m {
              InnerOpenIsUnique(s, at, i, j);
              MateIsUnique(s, i, m, x);
              MateIsUnique(s, i, x, m);
            }
            if m < 0 || m < at {
              return false, 0, 0;
            }
            MateIsUnique(s, i, m, m);
            assert InnerResult(s, at, i, m);
            return true, i, m;
          }
          depth := depth - 1;
        }
      }
      i := i - 1;
    }
  }

  /** The outermost pair around `at`: the innermost one, expanded while a pair encloses its opening bracket. */
  method Outer(toks: seq<Token>, data: seq<byte>, at: nat) returns (ok: bool, from: nat, till: nat)
    requires Tokenized(toks, data) && at <= |toks|
    ensures ok <==> HasInner(Syms(toks, data), at)
    ensures ok ==> from < at && Mates(Syms(toks, data), from, till) && !HasInner(Syms(toks, data), from)
    ensures ok && Balanced(Syms(toks, data)) ==> from < at <= till && Pair(Syms(toks, data), from, till)
    ensures ok && Balanced(Syms(toks, data)) ==> Depth(Syms(toks, data), from) == 0
  {
    ghost var s := Syms(toks, data);
    hide Syms, Tokenized, Height, Mates, Pair, Depth, Balanced, HasInner;
    ok, from, till := Inner(toks, data, at);
    if ok {
      Enclosed(s, at, from, till);
      while true
        invariant from < at && Mates(s, from, till)
        invariant Balanced(s) ==> at <= till && Pair(s, from, till)
        decreases from
      {
        var more, f, t := Inner(toks, data, from);
        if !more {
          if Balanced(s) {
            InnerExistsWhereDeep(s, from);
          }
          return;
        }
        Enclosed(s, from, f, t);
        if Balanced(s) {
          Widens(s, from, till, f, t);
        }
        from, till := f, t;
      }
    }
  }

  lemma Enclosed(s: seq<Sym>, at: int, f: int, t: int)
    requires InnerResult(s, at, f, t)
    ensures 0 <= f < at <= |s| && Mates(s, f, t) && at <= t
    ensures Balanced(s) ==> Pair(s, f, t)
  {
    if Balanced(s) {
      InnerIsInnermost(s, at, f, t, f, t);
    }
  }

  /** On a balanced stream, a pair around the opening bracket of a pair is around all of it. */
  lemma Widens(s: seq<Sym>, i: int, m: int, f: int, t: int)
    requires Pair(s, i, m) && Pair(s, f, t) && f < i <= t
    ensures m < t
  {
    PairLevels(s, i, m);
    PairLevels(s, f, t);
    assert t <= m ==> i < t + 1 <= m + 1;
  }
}
