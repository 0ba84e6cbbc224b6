/** The keyword set (dog/KEYW.c, dog/KEYW.h): open addressing with a wrapping linear probe. */
module Keyw {
  import opened Bytes

  const SLOTS: nat := 256
  const MAX: nat := 64

  datatype Opened = OK | FULL | SHORT

  /** First two bytes and the length, in eight bits. */
  function Hash(tok: seq<byte>): nat
    requires |tok| >= 2
  {
    (tok[0] + tok[1] * 4 + |tok| * 32) % SLOTS
  }

  /** The slot d steps behind start, wrapping. */
  function Slot(start: nat, d: nat): (h: nat)
    ensures h < SLOTS
  {
    (start + d) % SLOTS
  }

  lemma NextSlot(start: nat, d: nat)
    ensures (Slot(start, d) + 1) % SLOTS == Slot(start, d + 1)
  {
  }

  /** Every slot is within a lap. */
  lemma SlotReached(start: nat, h: nat) returns (d: nat)
    requires start < SLOTS && h < SLOTS
    ensures d < SLOTS && Slot(start, d) == h
  {
    d := if h >= start then h - start else h + SLOTS - start;
  }

  ghost predicate AllTaken(table: seq<nat>, start: nat, d: nat)
    requires |table| == SLOTS
  {
    forall k :: 0 <= k < d ==> table[Slot(start, k)] != 0
  }

  /** A probe from start comes to the entry v before any free slot. */
  ghost predicate Lodged(table: seq<nat>, start: nat, v: nat)
    requires |table| == SLOTS
  {
    exists d :: 0 <= d < SLOTS && table[Slot(start, d)] == v && AllTaken(table, start, d)
  }

  function Taken(table: seq<nat>): (n: nat)
    ensures n <= |table|
  {
    if table == [] then 0 else Taken(table[..|table| - 1]) + if table[|table| - 1] != 0 then 1 else 0
  }

  lemma {:induction false} NoneTaken(table: seq<nat>)
    requires forall h :: 0 <= h < |table| ==> table[h] == 0
    ensures Taken(table) == 0
  {
    if table != [] {
      NoneTaken(table[..|table| - 1]);
    }
  }

  lemma {:induction false} FreeSlot(table: seq<nat>) returns (h: nat)
    requires Taken(table) < |table|
    ensures h < |table| && table[h] == 0
  {
    if table[|table| - 1] == 0 {
      h := |table| - 1;
    } else {
      h := FreeSlot(table[..|table| - 1]);
    }
  }

  lemma {:induction false} TakeOne(table: seq<nat>, h: nat, v: nat)
    requires h < |table| && table[h] == 0 && v != 0
    ensures Taken(table[h := v]) == Taken(table) + 1
  {
    var n := |table| - 1;
    if h < n {
      assert table[h := v][..n] == table[..n][h := v];
      TakeOne(table[..n], h, v);
    } else {
      assert table[h := v][..n] == table[..n];
    }
  }

  /** The table holds the first n keywords, each where a probe for it comes by, and nothing else. */
  ghost predicate Built(table: seq<nat>, kws: seq<seq<byte>>, n: nat) {
    && |table| == SLOTS && n <= |kws| && Taken(table) == n
    && (forall h :: 0 <= h < SLOTS ==> table[h] <= n)
    && (forall i :: 0 <= i < n ==> |kws[i]| >= 2 && Lodged(table, Hash(kws[i]), i + 1))
  }

  /** Filling a free slot moves no entry and breaks no probe. */
  lemma LodgedStays(table: seq<nat>, start: nat, v: nat, h: nat, x: nat)
    requires |table| == SLOTS && h < SLOTS && table[h] == 0 && v != 0 && x != 0 && Lodged(table, start, v)
    ensures Lodged(table[h := x], start, v)
  {
    var d :| 0 <= d < SLOTS && table[Slot(start, d)] == v && AllTaken(table, start, d);
    assert AllTaken(table[h := x], start, d);
    assert table[h := x][Slot(start, d)] == v;
  }

  lemma BuiltGrows(table: seq<nat>, kws: seq<seq<byte>>, n: nat, d: nat)
    requires Built(table, kws, n) && n < |kws| && |kws[n]| >= 2 && d < SLOTS
    requires AllTaken(table, Hash(kws[n]), d) && table[Slot(Hash(kws[n]), d)] == 0
    ensures Built(table[Slot(Hash(kws[n]), d) := n + 1], kws, n + 1)
  {
    var start := Hash(kws[n]);
    var h := Slot(start, d);
    var more := table[h := n + 1];
    TakeOne(table, h, n + 1);
    assert AllTaken(more, start, d);
    assert more[Slot(start, d)] == n + 1;
    forall i | 0 <= i < n ensures Lodged(more, Hash(kws[i]), i + 1) {
      LodgedStays(table, Hash(kws[i]), i + 1, h, n + 1);
    }
  }

  /** The slots a probe has to pass at most: there is a free one within a lap. */
  lemma ProbeEnds(table: seq<nat>, start: nat) returns (d: nat)
    requires |table| == SLOTS && Taken(table) < SLOTS && start < SLOTS
    ensures d < SLOTS && table[Slot(start, d)] == 0
  {
    var h := FreeSlot(table);
    d := SlotReached(start, h);
  }

  /** A keyword in the table is met before the first free slot. */
  lemma MetOnTheWay(table: seq<nat>, kws: seq<seq<byte>>, n: nat, i: nat, d: nat)
    requires Built(table, kws, n) && i < n
    requires table[Slot(Hash(kws[i]), d)] == 0
    ensures exists k :: 0 <= k < d && table[Slot(Hash(kws[i]), k)] == i + 1
  {
    assert Lodged(table, Hash(kws[i]), i + 1);
    var e :| 0 <= e < SLOTS && table[Slot(Hash(kws[i]), e)] == i + 1 && AllTaken(table, Hash(kws[i]), e);
    assert e < d;
  }

  /** A probe that reaches a free slot without meeting a keyword proves that it is not in the table. */
  lemma Missed(table: seq<nat>, kws: seq<seq<byte>>, n: nat, tok: seq<byte>, d: nat)
    requires Built(table, kws, n) && |tok| >= 2 && AllTaken(table, Hash(tok), d) && table[Slot(Hash(tok), d)] == 0
    requires forall k :: 0 <= k < d ==> kws[table[Slot(Hash(tok), k)] - 1] != tok
    ensures tok !in kws[..n]
  {
    forall i | 0 <= i < n ensures kws[i] != tok {
      if Hash(kws[i]) == Hash(tok) {
        MetOnTheWay(table, kws, n, i, d);
      }
    }
  }

  class KeywordSet {
    const table: array<nat>
    var kws: seq<seq<byte>>
    /** How many of the keywords are in the table: those before the first short one. */
    ghost var n: nat

    ghost predicate Valid()
      reads this, table
    {
      n <= MAX && Built(table[..], kws, n)
    }

    ghost function Keywords(): seq<seq<byte>>
      reads this, table
      requires Valid()
    {
      kws[..n]
    }

    /** A cleared set. */
    constructor ()
      ensures Valid() && fresh(table) && Keywords() == []
    {
      table := new nat[SLOTS](_ => 0);
      kws, n := [], 0;
      new;
      NoneTaken(table[..]);
    }

    /**
     * Clears the table, whatever it holds, and fills it; too many keywords leave everything as it was, a short one ends
     * the filling there.
     */
    method Open(list: seq<seq<byte>>) returns (o: Opened)
      requires table.Length == SLOTS
      modifies this, table
      ensures o != FULL ==> Valid()
      ensures o == FULL <==> |list| > MAX
      ensures o == OK <==> |list| <= MAX && forall i :: 0 <= i < |list| ==> |list[i]| >= 2
      ensures o == FULL ==> table[..] == old(table[..]) && kws == old(kws) && n == old(n)
      ensures o == OK ==> Keywords() == list
      ensures o == SHORT ==> kws == list && n < |list| && |list[n]| < 2 && forall i :: 0 <= i < n ==> |list[i]| >= 2
    {
      if |list| > MAX {
        return FULL;
      }
      Clear();
      kws, n := list, 0;
      NoneTaken(table[..]);
      for i := 0 to |list|
        invariant kws == list && n == i && Built(table[..], list, n)
        invariant forall j :: 0 <= j < i ==> |list[j]| >= 2
      {
        if |list[i]| < 2 {
          return SHORT;
        }
        Place(i);
      }
      return OK;
    }

    method Clear()
      requires table.Length == SLOTS
      modifies table
      ensures forall h :: 0 <= h < SLOTS ==> table[h] == 0
    {
      for h := 0 to SLOTS
        invariant forall k :: 0 <= k < h ==> table[k] == 0
      {
        table[h] := 0;
      }
    }

    /** Puts keyword i into the first free slot from its hash on. */
    method Place(i: nat)
      requires n == i < |kws| && |kws| <= MAX && |kws[i]| >= 2 && Built(table[..], kws, i)
      modifies this`n, table
      ensures n == i + 1 && Built(table[..], kws, n)
    {
      hide Hash, Slot, Built;
      ghost var was := table[..];
      BuiltShape(was, kws, i);
      var start := Hash(kws[i]);
      HashInRange(kws[i]);
      ghost var free := ProbeEnds(was, start);
      ghost var d := 0;
      var h := start;
      FirstSlot(start);
      while table[h] != 0
        invariant table[..] == was && |was| == SLOTS && h < SLOTS
        invariant 0 <= d <= free && h == Slot(start, d) && AllTaken(was, start, d)
        decreases free - d
      {
        NextSlot(start, d);
        d := d + 1;
        h := (h + 1) % SLOTS;
      }
      BuiltGrows(was, kws, i, d);
      table[h] := i + 1;
      n := i + 1;
      assert table[..] == was[h := n];
    }

    /** Membership, by probing. */
    method Has(tok: seq<byte>) returns (found: bool)
      requires Valid()
      ensures found <==> tok in Keywords()
    {
      hide Hash, Slot, Built;
      ghost var t := table[..];
      BuiltShape(t, kws, n);
      if |tok| < 2 {
        return false;
      }
      var start := Hash(tok);
      HashInRange(tok);
      ghost var free := ProbeEnds(t, start);
      ghost var d := 0;
      var h := start;
      FirstSlot(start);
      while table[h] != 0
        invariant h < SLOTS && 0 <= d <= free && h == Slot(start, d) && AllTaken(t, start, d)
        invariant forall k :: 0 <= k < d ==> kws[t[Slot(start, k)] - 1] != tok
        decreases free - d
      {
        assert t[h] == table[h] <= n;
        if kws[table[h] - 1] == tok {
          assert kws[..n][table[h] - 1] == tok;
          return true;
        }
        NextSlot(start, d);
        d := d + 1;
        h := (h + 1) % SLOTS;
      }
      Missed(t, kws, n, tok, d);
      return false;
    }
  }

  lemma HashInRange(tok: seq<byte>)
    requires |tok| >= 2
    ensures Hash(tok) < SLOTS
  {
  }

  lemma FirstSlot(start: nat)
    requires start < SLOTS
    ensures Slot(start, 0) == start
  {
  }

  lemma BuiltShape(table: seq<nat>, kws: seq<seq<byte>>, n: nat)
    requires Built(table, kws, n)
    ensures |table| == SLOTS && n <= |kws| && Taken(table) == n
    ensures forall h :: 0 <= h < SLOTS ==> table[h] <= n
    ensures forall i :: 0 <= i < n ==> |kws[i]| >= 2
  {
  }
}
