/** Table lookup of the generated scanners (dog/JSONT.rl.c, dog/DPATH.rl.c): single keys first, then key ranges. */
module Ragel {
  import opened Bytes

  /** The position of c among the keys, or their number when it is not there. */
  function KeyIndex(keys: seq<byte>, c: byte): (k: nat)
    ensures k <= |keys|
  {
    if keys == [] || keys[0] == c then 0 else 1 + KeyIndex(keys[1..], c)
  }

  /** The position of the range that holds c, or their number when none does. */
  function RangeIndex(ranges: seq<byte>, c: byte): (k: nat)
    requires |ranges| % 2 == 0
    ensures k <= |ranges| / 2
  {
    if ranges == [] || ranges[0] <= c <= ranges[1] then 0 else 1 + RangeIndex(ranges[2..], c)
  }

  /** The position of a state's transition on c: a single key's, a range's, or the default one behind them. */
  function Position(singles: seq<byte>, ranges: seq<byte>, c: byte): nat
    requires |ranges| % 2 == 0
  {
    if KeyIndex(singles, c) < |singles| then KeyIndex(singles, c) else |singles| + RangeIndex(ranges, c)
  }

  ghost predicate Increasing(keys: seq<byte>) {
    forall i, j :: 0 <= i < j < |keys| ==> keys[i] < keys[j]
  }

  /** Range bounds never go down, and consecutive ranges do not touch. */
  ghost predicate IncreasingRanges(ranges: seq<byte>) {
    && |ranges| % 2 == 0
    && (forall i, j :: 0 <= i < j < |ranges| ==> ranges[i] <= ranges[j])
    && (forall i :: 0 < i && 2 * i < |ranges| ==> ranges[2 * i - 1] < ranges[2 * i])
  }

  lemma {:induction false} KeyFound(keys: seq<byte>, k: nat, c: byte)
    requires k < |keys| && keys[k] == c && forall i :: 0 <= i < k ==> keys[i] != c
    ensures KeyIndex(keys, c) == k
  {
    if k > 0 {
      KeyFound(keys[1..], k - 1, c);
    }
  }

  lemma {:induction false} KeyMissing(keys: seq<byte>, c: byte)
    requires forall i :: 0 <= i < |keys| ==> keys[i] != c
    ensures KeyIndex(keys, c) == |keys|
  {
    if keys != [] {
      KeyMissing(keys[1..], c);
    }
  }

  /** Binary search among single keys at keys[base..base + klen]. */
  method SearchSingles(keys: seq<byte>, base: nat, klen: nat, c: byte) returns (k: nat)
    requires base + klen <= |keys| && Increasing(keys[base..base + klen])
    ensures k == KeyIndex(keys[base..base + klen], c)
  {
    ghost var row := keys[base..base + klen];
    hide KeyIndex;
    var lower: int, upper: int := base, base + klen - 1;
    while lower <= upper
      invariant base <= lower <= base + klen && base - 1 <= upper < base + klen && lower <= upper + 1
      invariant forall i :: 0 <= i < lower - base ==> row[i] < c
      invariant forall i :: upper - base < i < klen ==> row[i] > c
      decreases upper - lower
    {
      var mid := lower + (upper - lower) / 2;
      assert keys[mid] == row[mid - base];
      if c < keys[mid] {
        upper := mid - 1;
      } else if c > keys[mid] {
        lower := mid + 1;
      } else {
        KeyFound(row, mid - base, c);
        return mid - base;
      }
    }
    KeyMissing(row, c);
    k := klen;
  }

  /** Binary search among the ranges at keys[base..base + 2 * klen]. */
  method SearchRanges(keys: seq<byte>, base: nat, klen: nat, c: byte) returns (k: nat)
    requires base + 2 * klen <= |keys| && IncreasingRanges(keys[base..base + 2 * klen])
    ensures k == RangeIndex(keys[base..base + 2 * klen], c)
  {
    hide RangeIndex, IncreasingRanges;
    var lower: int, upper: int := base, base + 2 * klen - 2;
    ghost var a: int, b: int := 0, klen - 1;
    while lower <= upper
      invariant lower == base + 2 * a && upper == base + 2 * b && 0 <= a <= b + 1 <= klen
      invariant a > 0 ==> keys[lower - 1] < c
      invariant b + 1 < klen ==> keys[upper + 2] > c
      decreases upper - lower
    {
      var mid := lower + (upper - lower) / 2 / 2 * 2;
      ghost var m := a + (b - a) / 2;
      Halfway(base, a, b);
      if c < keys[mid] {
        upper, b := mid - 2, m - 1;
      } else if c > keys[mid + 1] {
        lower, a := mid + 2, m + 1;
      } else {
        FoundAt(keys, base, klen, m, c);
        return (mid - base) / 2;
      }
    }
    MissingAt(keys, base, klen, a, c);
    k := klen;
  }

  lemma FoundAt(keys: seq<byte>, base: nat, klen: nat, m: nat, c: byte)
    requires base + 2 * klen <= |keys| && IncreasingRanges(keys[base..base + 2 * klen]) && m < klen
    requires keys[base + 2 * m] <= c <= keys[base + 2 * m + 1]
    ensures RangeIndex(keys[base..base + 2 * klen], c) == m
  {
    hide RangeIndex, IncreasingRanges;
    RangeFound(keys[base..base + 2 * klen], m, c);
  }

  lemma MissingAt(keys: seq<byte>, base: nat, klen: nat, a: nat, c: byte)
    requires base + 2 * klen <= |keys| && IncreasingRanges(keys[base..base + 2 * klen]) && a <= klen
    requires a > 0 ==> keys[base + 2 * a - 1] < c
    requires a < klen ==> keys[base + 2 * a] > c
    ensures RangeIndex(keys[base..base + 2 * klen], c) == klen
  {
    hide RangeIndex, IncreasingRanges;
    RangeMissing(keys[base..base + 2 * klen], a, c);
  }

  lemma Halfway(base: nat, a: int, b: int)
    requires a <= b
    ensures base + 2 * a + (base + 2 * b - (base + 2 * a)) / 2 / 2 * 2 == base + 2 * (a + (b - a) / 2)
    ensures a <= a + (b - a) / 2 <= b
  {
  }

  lemma RangeMissing(row: seq<byte>, a: nat, c: byte)
    requires IncreasingRanges(row) && 2 * a <= |row|
    requires a > 0 ==> row[2 * a - 1] < c
    requires 2 * a < |row| ==> row[2 * a] > c
    ensures RangeIndex(row, c) == |row| / 2
  {
    assert forall i :: 0 <= i < 2 * a ==> row[i] < c;
    assert forall i :: 2 * a <= i < |row| ==> row[i] > c;
    NoRange(row, a, c);
  }

  /** No range holds c: the first a end before it, the others start behind it. */
  lemma {:induction false} NoRange(row: seq<byte>, a: nat, c: byte)
    requires |row| % 2 == 0 && 2 * a <= |row|
    requires forall i :: 0 <= i < 2 * a ==> row[i] < c
    requires forall i :: 2 * a <= i < |row| ==> row[i] > c
    ensures RangeIndex(row, c) == |row| / 2
  {
    if row != [] {
      assert forall i :: 0 <= i < |row| - 2 ==> row[2..][i] == row[i + 2];
      NoRange(row[2..], if a > 0 then a - 1 else 0, c);
    }
  }

  lemma {:induction false} FirstRange(row: seq<byte>, k: nat, c: byte)
    requires |row| % 2 == 0 && 2 * k + 1 < |row| && row[2 * k] <= c <= row[2 * k + 1]
    requires forall i :: 0 <= i < 2 * k ==> row[i] < c
    ensures RangeIndex(row, c) == k
  {
    if k > 0 {
      assert forall i :: 0 <= i < |row| - 2 ==> row[2..][i] == row[i + 2];
      FirstRange(row[2..], k - 1, c);
    }
  }

  lemma RangeFound(row: seq<byte>, k: nat, c: byte)
    requires IncreasingRanges(row) && 2 * k + 1 < |row| && row[2 * k] <= c <= row[2 * k + 1]
    ensures RangeIndex(row, c) == k
  {
    assert k > 0 ==> row[2 * k - 1] < row[2 * k];
    assert forall i :: 0 <= i < 2 * k ==> row[i] <= row[2 * k - 1];
    FirstRange(row, k, c);
  }

  /** The whole lookup: singles, then ranges, then the default transition. */
  method Find(keys: seq<byte>, base: nat, ns: nat, nr: nat, c: byte) returns (k: nat)
    requires base + ns + 2 * nr <= |keys|
    requires Increasing(keys[base..base + ns]) && IncreasingRanges(keys[base + ns..base + ns + 2 * nr])
    ensures k == Position(keys[base..base + ns], keys[base + ns..base + ns + 2 * nr], c)
  {
    hide Increasing, IncreasingRanges, KeyIndex, RangeIndex;
    if ns > 0 {
      k := SearchSingles(keys, base, ns, c);
      if k < ns {
        return;
      }
    }
    k := ns;
    if nr == 0 {
      assert keys[base + ns..base + ns + 2 * nr] == [];
    } else {
      var r := SearchRanges(keys, base + ns, nr, c);
      k := k + r;
    }
  }

  /** The transitions of a state: its single keys, its key ranges, and what each leads to, the default one last. */
  datatype Row = Row(singles: seq<byte>, ranges: seq<byte>, targs: seq<nat>)

  ghost predicate Shaped(row: Row) {
    && |row.ranges| % 2 == 0
    && |row.targs| == |row.singles| + |row.ranges| / 2 + 1
    && Increasing(row.singles) && IncreasingRanges(row.ranges)
  }

  ghost function Target(row: Row, c: byte): nat
    requires Shaped(row)
  {
    KeyBounds(row, c);
    row.targs[Position(row.singles, row.ranges, c)]
  }

  lemma KeyBounds(row: Row, c: byte)
    requires Shaped(row)
    ensures Position(row.singles, row.ranges, c) < |row.targs|
  {
  }

  /** The tables hold this row: ns keys and nr ranges from base on, and the targets from at on. */
  ghost predicate Holds(keys: seq<byte>, targs: seq<nat>, base: nat, ns: nat, nr: nat, at: nat, row: Row) {
    && base + ns + 2 * nr <= |keys| && at + ns + nr + 1 <= |targs|
    && keys[base..base + ns] == row.singles
    && keys[base + ns..base + ns + 2 * nr] == row.ranges
    && targs[at..at + ns + nr + 1] == row.targs
  }

  /** One transition looked up in the tables. */
  method Lookup(keys: seq<byte>, targs: seq<nat>, base: nat, ns: nat, nr: nat, at: nat, c: byte, ghost row: Row)
      returns (to: nat)
    requires Shaped(row) && Holds(keys, targs, base, ns, nr, at, row)
    ensures to == Target(row, c)
  {
    hide Increasing, IncreasingRanges, KeyIndex, RangeIndex, Position;
    KeyBounds(row, c);
    var k := Find(keys, base, ns, nr, c);
    assert targs[at + k] == row.targs[k];
    to := targs[at + k];
  }

  // ----- looking up in short lists, spelled out -----

  const SHORT_SINGLES: nat := 12
  const SHORT_RANGES: nat := 5

  function KeyChain(keys: seq<byte>, c: byte): nat
    requires |keys| <= SHORT_SINGLES
  {
    if |keys| > 0 && keys[0] == c then 0 else if |keys| > 1 && keys[1] == c then 1
    else if |keys| > 2 && keys[2] == c then 2 else if |keys| > 3 && keys[3] == c then 3
    else if |keys| > 4 && keys[4] == c then 4 else if |keys| > 5 && keys[5] == c then 5
    else if |keys| > 6 && keys[6] == c then 6 else if |keys| > 7 && keys[7] == c then 7
    else if |keys| > 8 && keys[8] == c then 8 else if |keys| > 9 && keys[9] == c then 9
    else if |keys| > 10 && keys[10] == c then 10 else if |keys| > 11 && keys[11] == c then 11
    else |keys|
  }

  function RangeChain(ranges: seq<byte>, c: byte): nat
    requires |ranges| % 2 == 0 && |ranges| <= 2 * SHORT_RANGES
  {
    if |ranges| > 0 && ranges[0] <= c <= ranges[1] then 0
    else if |ranges| > 2 && ranges[2] <= c <= ranges[3] then 1
    else if |ranges| > 4 && ranges[4] <= c <= ranges[5] then 2
    else if |ranges| > 6 && ranges[6] <= c <= ranges[7] then 3
    else if |ranges| > 8 && ranges[8] <= c <= ranges[9] then 4
    else |ranges| / 2
  }

  lemma {:induction false} KeyChainIs(keys: seq<byte>, c: byte)
    requires |keys| <= SHORT_SINGLES
    ensures KeyIndex(keys, c) == KeyChain(keys, c)
  {
    if keys != [] {
      KeyChainIs(keys[1..], c);
    }
  }

  lemma {:induction false} RangeChainIs(ranges: seq<byte>, c: byte)
    requires |ranges| % 2 == 0 && |ranges| <= 2 * SHORT_RANGES
    ensures RangeIndex(ranges, c) == RangeChain(ranges, c)
  {
    if ranges != [] {
      RangeChainIs(ranges[2..], c);
    }
  }

  /** The position in a short row. */
  lemma ShortPosition(singles: seq<byte>, ranges: seq<byte>, c: byte)
    requires |singles| <= SHORT_SINGLES && |ranges| % 2 == 0 && |ranges| <= 2 * SHORT_RANGES
    ensures Position(singles, ranges, c) ==
      if KeyChain(singles, c) < |singles| then KeyChain(singles, c) else |singles| + RangeChain(ranges, c)
  {
    hide KeyIndex, RangeIndex, KeyChain, RangeChain;
    KeyChainIs(singles, c);
    RangeChainIs(ranges, c);
  }
}
