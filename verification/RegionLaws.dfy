/** What a flushed region keeps of each version (dog/HUNK.c, hunk_flush_region). */
module RegionLaws {
  import opened Seqs
  import opened Bytes
  import opened Lines
  import opened Similarity
  import opened Matching
  import opened Pairing
  import opened BodyLines
  import opened Regions

  // ----- the order in which removed lines are printed -----

  ghost predicate Within(idx: seq<int>, n: nat) {
    forall k :: 0 <= k < |idx| ==> 0 <= idx[k] < n
  }

  /** The removed line paired with added line j, if any. */
  ghost function PartnerOf(m: Match, nd: nat, na: nat, j: nat): seq<int>
    requires Mutual(m, nd, na) && j < na
  {
    if m.ofAdd[j] >= 0 then [m.ofAdd[j]] else []
  }

  ghost function LeftoverOf(m: Match, nd: nat, na: nat, i: nat): seq<int>
    requires Mutual(m, nd, na) && i < nd
  {
    if m.ofDel[i] < 0 then [i] else []
  }

  /** The removed lines paired with the first j added lines, in the order of those. */
  ghost function PairedOrder(m: Match, nd: nat, na: nat, j: nat): seq<int>
    requires Mutual(m, nd, na) && j <= na
  {
    if j == 0 then [] else PairedOrder(m, nd, na, j - 1) + PartnerOf(m, nd, na, j - 1)
  }

  /** The unpaired ones among the first i removed lines. */
  ghost function UnpairedOrder(m: Match, nd: nat, na: nat, i: nat): seq<int>
    requires Mutual(m, nd, na) && i <= nd
  {
    if i == 0 then [] else UnpairedOrder(m, nd, na, i - 1) + LeftoverOf(m, nd, na, i - 1)
  }

  ghost function DelOrder(m: Match, nd: nat, na: nat): seq<int>
    requires Mutual(m, nd, na)
  {
    PairedOrder(m, nd, na, na) + UnpairedOrder(m, nd, na, nd)
  }

  ghost function PickOne(ls: seq<Line>): int -> seq<Line> {
    i => if 0 <= i < |ls| then [ls[i]] else []
  }

  ghost function Pick(ls: seq<Line>, idx: seq<int>): seq<Line> {
    FlatMap(PickOne(ls), idx)
  }

  lemma PairedUnfold(m: Match, nd: nat, na: nat, j: nat)
    requires Mutual(m, nd, na) && j <= na
    ensures j == 0 ==> PairedOrder(m, nd, na, j) == []
    ensures j > 0 ==> PairedOrder(m, nd, na, j) == PairedOrder(m, nd, na, j - 1) + PartnerOf(m, nd, na, j - 1)
    ensures j > 0 ==> PartnerOf(m, nd, na, j - 1) == if m.ofAdd[j - 1] >= 0 then [m.ofAdd[j - 1]] else []
  {
  }

  /** The line at position k of the paired order is paired below j. */
  lemma {:induction false} PairedAt(m: Match, nd: nat, na: nat, j: nat, k: nat)
    requires Mutual(m, nd, na) && j <= na && k < |PairedOrder(m, nd, na, j)|
    ensures var i := PairedOrder(m, nd, na, j)[k];
      0 <= i < nd && 0 <= m.ofDel[i] < j
  {
    PairedUnfold(m, nd, na, j);
    hide PairedOrder, PartnerOf;
    var idx := PairedOrder(m, nd, na, j - 1);
    if k < |idx| {
      PairedAt(m, nd, na, j - 1, k);
    } else {
      assert m.ofDel[m.ofAdd[j - 1]] == j - 1;
    }
  }

  /** Later positions of the paired order have later partners. */
  lemma {:induction false} PairedLess(m: Match, nd: nat, na: nat, j: nat, k: nat, l: nat)
    requires Mutual(m, nd, na) && j <= na && k < l < |PairedOrder(m, nd, na, j)|
    ensures var idx := PairedOrder(m, nd, na, j);
      0 <= idx[k] < nd && 0 <= idx[l] < nd && m.ofDel[idx[k]] < m.ofDel[idx[l]]
  {
    PairedUnfold(m, nd, na, j);
    hide PairedOrder, PartnerOf;
    var idx := PairedOrder(m, nd, na, j - 1);
    if l < |idx| {
      PairedLess(m, nd, na, j - 1, k, l);
    } else {
      PairedAt(m, nd, na, j - 1, k);
      assert m.ofDel[m.ofAdd[j - 1]] == j - 1;
    }
  }

  /** The paired order lists every line paired below j. */
  lemma {:induction false} PairedOrderCovers(m: Match, nd: nat, na: nat, j: nat, i: nat)
    requires Mutual(m, nd, na) && j <= na && i < nd && 0 <= m.ofDel[i] < j
    ensures i in PairedOrder(m, nd, na, j)
  {
    if m.ofDel[i] < j - 1 {
      PairedOrderCovers(m, nd, na, j - 1, i);
    } else {
      assert m.ofAdd[j - 1] == i;
    }
  }

  lemma {:induction false} UnpairedAt(m: Match, nd: nat, na: nat, i: nat, k: nat)
    requires Mutual(m, nd, na) && i <= nd && k < |UnpairedOrder(m, nd, na, i)|
    ensures var x := UnpairedOrder(m, nd, na, i)[k];
      0 <= x < i && m.ofDel[x] < 0
  {
    if k < |UnpairedOrder(m, nd, na, i - 1)| {
      UnpairedAt(m, nd, na, i - 1, k);
    }
  }

  lemma {:induction false} UnpairedLess(m: Match, nd: nat, na: nat, i: nat, k: nat, l: nat)
    requires Mutual(m, nd, na) && i <= nd && k < l < |UnpairedOrder(m, nd, na, i)|
    ensures UnpairedOrder(m, nd, na, i)[k] < UnpairedOrder(m, nd, na, i)[l]
  {
    if l < |UnpairedOrder(m, nd, na, i - 1)| {
      UnpairedLess(m, nd, na, i - 1, k, l);
    } else {
      UnpairedAt(m, nd, na, i - 1, k);
    }
  }

  lemma {:induction false} UnpairedCovers(m: Match, nd: nat, na: nat, i: nat, x: nat)
    requires Mutual(m, nd, na) && x < i <= nd && m.ofDel[x] < 0
    ensures x in UnpairedOrder(m, nd, na, i)
  {
    if x < i - 1 {
      UnpairedCovers(m, nd, na, i - 1, x);
    }
  }

  /** idx lists each number below n exactly once. */
  ghost predicate Permutes(idx: seq<int>, n: nat) {
    && Within(idx, n)
    && (forall k, l :: 0 <= k < l < |idx| ==> idx[k] != idx[l])
    && (forall i :: 0 <= i < n ==> i in idx)
  }

  lemma DelOrderPermutes(m: Match, nd: nat, na: nat)
    requires Mutual(m, nd, na)
    ensures Permutes(DelOrder(m, nd, na), nd)
  {
    hide DelOrder, Mutual;
    var idx := DelOrder(m, nd, na);
    forall k | 0 <= k < |idx| ensures 0 <= idx[k] < nd {
      DelOrderAt(m, nd, na, k);
    }
    forall k, l | 0 <= k < l < |idx| ensures idx[k] != idx[l] {
      DelOrderDiffers(m, nd, na, k, l);
    }
    forall i | 0 <= i < nd ensures i in idx {
      DelOrderCovers(m, nd, na, i);
    }
  }

  lemma DelOrderDiffers(m: Match, nd: nat, na: nat, k: nat, l: nat)
    requires Mutual(m, nd, na) && k < l < |DelOrder(m, nd, na)|
    ensures DelOrder(m, nd, na)[k] != DelOrder(m, nd, na)[l]
  {
    hide PairedOrder, UnpairedOrder;
    var p := PairedOrder(m, nd, na, na);
    DelOrderAt(m, nd, na, k);
    DelOrderAt(m, nd, na, l);
    if l < |p| {
      PairedLess(m, nd, na, na, k, l);
    } else if k >= |p| {
      UnpairedLess(m, nd, na, nd, k - |p|, l - |p|);
    }
  }

  lemma DelOrderCovers(m: Match, nd: nat, na: nat, i: nat)
    requires Mutual(m, nd, na) && i < nd
    ensures i in DelOrder(m, nd, na)
  {
    hide PairedOrder, UnpairedOrder;
    if m.ofDel[i] >= 0 {
      PairedOrderCovers(m, nd, na, na, i);
    } else {
      UnpairedCovers(m, nd, na, nd, i);
    }
  }

  /** Paired lines come first in the printed order. */
  lemma DelOrderAt(m: Match, nd: nat, na: nat, k: nat)
    requires Mutual(m, nd, na) && k < |DelOrder(m, nd, na)|
    ensures var i := DelOrder(m, nd, na)[k];
      0 <= i < nd && (m.ofDel[i] >= 0 <==> k < |PairedOrder(m, nd, na, na)|)
  {
    var p := PairedOrder(m, nd, na, na);
    if k < |p| {
      PairedAt(m, nd, na, na, k);
    } else {
      UnpairedAt(m, nd, na, nd, k - |p|);
    }
  }

  lemma PickAppend(ls: seq<Line>, a: seq<int>, b: seq<int>)
    ensures Pick(ls, a + b) == Pick(ls, a) + Pick(ls, b)
  {
    FlatAppend(PickOne(ls), a, b);
  }

  lemma PickSingle(ls: seq<Line>, i: int)
    requires 0 <= i < |ls|
    ensures Pick(ls, [i]) == [ls[i]]
  {
    FlatOne(PickOne(ls), i);
  }

  lemma PermutesSmaller(idx: seq<int>, n: nat, k: nat)
    requires Permutes(idx, n + 1) && k < |idx| && idx[k] == n
    ensures Permutes(idx[..k] + idx[k + 1..], n)
  {
    var a, b := idx[..k], idx[k + 1..];
    forall i | 0 <= i < n ensures i in a + b {
      assert i in idx;
      var x :| 0 <= x < |idx| && idx[x] == i;
      assert x < k ==> a[x] == i;
      assert x > k ==> b[x - k - 1] == i;
    }
  }

  lemma {:induction false} PickPrefix(ls: seq<Line>, n: nat, idx: seq<int>, k: nat)
    requires n <= |ls| && Within(idx, n) && k <= |idx|
    ensures FlatUpTo(PickOne(ls), idx, k) == FlatUpTo(PickOne(ls[..n]), idx, k)
  {
    if k > 0 {
      PickPrefix(ls, n, idx, k - 1);
    }
  }

  /** Picking one more line adds just that line, wherever its index stands. */
  lemma PickMiddle(ls: seq<Line>, idx: seq<int>, k: nat)
    requires Within(idx, |ls|) && k < |idx|
    ensures multiset(Pick(ls, idx)) == multiset(Pick(ls, idx[..k] + idx[k + 1..])) + multiset{ls[idx[k]]}
  {
    hide Pick;
    var a, b := idx[..k], idx[k..];
    PickAppend(ls, a, b);
    TakeDrop(idx, k);
    PickAppend(ls, a, idx[k + 1..]);
    DropCons(idx, k);
    PickAppend(ls, [idx[k]], idx[k + 1..]);
    PickSingle(ls, idx[k]);
  }

  /** Picking every line once is a permutation of the lines. */
  lemma {:induction false} PickAll(ls: seq<Line>, idx: seq<int>)
    requires Permutes(idx, |ls|)
    ensures multiset(Pick(ls, idx)) == multiset(ls)
  {
    if ls != [] {
      var n := |ls| - 1;
      assert n in idx;
      var k :| 0 <= k < |idx| && idx[k] == n;
      var a, b := idx[..k], idx[k + 1..];
      PermutesSmaller(idx, n, k);
      PickAll(ls[..n], a + b);
      PickPrefix(ls, n, a + b, |a + b|);
      PickMiddle(ls, idx, k);
      assert multiset(ls) == multiset(ls[..n]) + multiset{ls[n]} by {
        InitLast(ls);
      }
    }
  }

  // ----- the sides of the middle -----

  lemma PartnerSides(dl: seq<Line>, m: Match, na: nat, j: nat)
    requires Mutual(m, |dl|, na) && j < na
    ensures NewSide(Partner(dl, m, na, j)) == []
    ensures OldSide(Partner(dl, m, na, j)) == Pick(dl, PartnerOf(m, |dl|, na, j))
  {
    if m.ofAdd[j] >= 0 {
      SidesOne(BodyLine(MINUS, dl[m.ofAdd[j]]));
      PickSingle(dl, m.ofAdd[j]);
    }
  }

  lemma LeftoverSides(dl: seq<Line>, m: Match, na: nat, i: nat)
    requires Mutual(m, |dl|, na) && i < |dl|
    ensures NewSide(Leftover(dl, m, na, i)) == []
    ensures OldSide(Leftover(dl, m, na, i)) == Pick(dl, LeftoverOf(m, |dl|, na, i))
  {
    if m.ofDel[i] < 0 {
      SidesOne(BodyLine(MINUS, dl[i]));
      PickSingle(dl, i);
    }
  }

  /** Appending a piece to a body appends its old side. */
  lemma OldExtends(a: seq<BodyLine>, b: seq<BodyLine>, olda: seq<Line>, oldb: seq<Line>)
    requires OldSide(a) == olda && OldSide(b) == oldb
    ensures OldSide(a + b) == olda + oldb
  {
    hide *;
    OldAppend(a, b);
  }

  lemma NewExtends(a: seq<BodyLine>, b: seq<BodyLine>, newa: seq<Line>, newb: seq<Line>)
    requires NewSide(a) == newa && NewSide(b) == newb
    ensures NewSide(a + b) == newa + newb
  {
    hide *;
    NewAppend(a, b);
  }

  /** One added line with its partner: what it adds to each side. */
  lemma AddSides(dl: seq<Line>, al: seq<Line>, m: Match, j: nat)
    requires Mutual(m, |dl|, |al|) && j < |al|
    ensures var out := Partner(dl, m, |al|, j) + [BodyLine(PLUS, al[j])];
      NewSide(out) == [al[j]] && OldSide(out) == Pick(dl, PartnerOf(m, |dl|, |al|, j))
  {
    hide NewSide, OldSide, Pick, Mutual;
    var plus := BodyLine(PLUS, al[j]);
    PartnerSides(dl, m, |al|, j);
    SidesOne(plus);
    NewAppend(Partner(dl, m, |al|, j), [plus]);
    OldAppend(Partner(dl, m, |al|, j), [plus]);
    NilLeft([al[j]]);
    NilRight(Pick(dl, PartnerOf(m, |dl|, |al|, j)));
  }

  lemma {:induction false} EmitAddsNew(dl: seq<Line>, al: seq<Line>, m: Match, j: nat)
    requires Mutual(m, |dl|, |al|) && j <= |al|
    ensures NewSide(EmitAdds(dl, al, m, j)) == al[..j]
  {
    hide *;
    if j == 0 {
      NothingEmitted(dl, al, m, |al|);
      assert al[..0] == [];
    } else {
      EmitAddsNew(dl, al, m, j - 1);
      AddsUnfold(dl, al, m, j);
      AddSides(dl, al, m, j - 1);
      NewExtends(EmitAdds(dl, al, m, j - 1), Partner(dl, m, |al|, j - 1) + [BodyLine(PLUS, al[j - 1])],
                 al[..j - 1], [al[j - 1]]);
      TakeSnoc(al, j - 1);
    }
  }

  lemma AddsUnfold(dl: seq<Line>, al: seq<Line>, m: Match, j: nat)
    requires Mutual(m, |dl|, |al|) && 0 < j <= |al|
    ensures EmitAdds(dl, al, m, j)
         == EmitAdds(dl, al, m, j - 1) + (Partner(dl, m, |al|, j - 1) + [BodyLine(PLUS, al[j - 1])])
    ensures PairedOrder(m, |dl|, |al|, j) == PairedOrder(m, |dl|, |al|, j - 1) + PartnerOf(m, |dl|, |al|, j - 1)
  {
  }

  lemma AddsOldStep(dl: seq<Line>, al: seq<Line>, m: Match, j: nat)
    requires Mutual(m, |dl|, |al|) && j < |al|
    requires OldSide(EmitAdds(dl, al, m, j)) == Pick(dl, PairedOrder(m, |dl|, |al|, j))
    ensures OldSide(EmitAdds(dl, al, m, j + 1)) == Pick(dl, PairedOrder(m, |dl|, |al|, j + 1))
  {
    hide *;
    AddSides(dl, al, m, j);
    AddsUnfold(dl, al, m, j + 1);
    var idx, last := PairedOrder(m, |dl|, |al|, j), PartnerOf(m, |dl|, |al|, j);
    OldExtends(EmitAdds(dl, al, m, j), Partner(dl, m, |al|, j) + [BodyLine(PLUS, al[j])],
               Pick(dl, idx), Pick(dl, last));
    PickAppend(dl, idx, last);
  }

  lemma {:induction false} EmitAddsOld(dl: seq<Line>, al: seq<Line>, m: Match, j: nat)
    requires Mutual(m, |dl|, |al|) && j <= |al|
    ensures OldSide(EmitAdds(dl, al, m, j)) == Pick(dl, PairedOrder(m, |dl|, |al|, j))
  {
    hide *;
    if j == 0 {
      NothingEmitted(dl, al, m, |al|);
    } else {
      EmitAddsOld(dl, al, m, j - 1);
      AddsOldStep(dl, al, m, j - 1);
    }
  }

  lemma {:induction false} EmitUnpairedNew(dl: seq<Line>, m: Match, na: nat, i: nat)
    requires Mutual(m, |dl|, na) && i <= |dl|
    ensures NewSide(EmitUnpaired(dl, m, na, i)) == []
  {
    hide *;
    if i == 0 {
      NothingEmitted(dl, [], m, na);
    } else {
      EmitUnpairedNew(dl, m, na, i - 1);
      UnpairedUnfold(dl, m, na, i);
      LeftoverSides(dl, m, na, i - 1);
      NewExtends(EmitUnpaired(dl, m, na, i - 1), Leftover(dl, m, na, i - 1), [], []);
    }
  }

  lemma UnpairedUnfold(dl: seq<Line>, m: Match, na: nat, i: nat)
    requires Mutual(m, |dl|, na) && 0 < i <= |dl|
    ensures EmitUnpaired(dl, m, na, i) == EmitUnpaired(dl, m, na, i - 1) + Leftover(dl, m, na, i - 1)
    ensures UnpairedOrder(m, |dl|, na, i) == UnpairedOrder(m, |dl|, na, i - 1) + LeftoverOf(m, |dl|, na, i - 1)
  {
  }

  lemma UnpairedOldStep(dl: seq<Line>, m: Match, na: nat, i: nat)
    requires Mutual(m, |dl|, na) && i < |dl|
    requires OldSide(EmitUnpaired(dl, m, na, i)) == Pick(dl, UnpairedOrder(m, |dl|, na, i))
    ensures OldSide(EmitUnpaired(dl, m, na, i + 1)) == Pick(dl, UnpairedOrder(m, |dl|, na, i + 1))
  {
    hide *;
    LeftoverSides(dl, m, na, i);
    UnpairedUnfold(dl, m, na, i + 1);
    var idx, last := UnpairedOrder(m, |dl|, na, i), LeftoverOf(m, |dl|, na, i);
    OldExtends(EmitUnpaired(dl, m, na, i), Leftover(dl, m, na, i), Pick(dl, idx), Pick(dl, last));
    PickAppend(dl, idx, last);
  }

  lemma {:induction false} EmitUnpairedOld(dl: seq<Line>, m: Match, na: nat, i: nat)
    requires Mutual(m, |dl|, na) && i <= |dl|
    ensures OldSide(EmitUnpaired(dl, m, na, i)) == Pick(dl, UnpairedOrder(m, |dl|, na, i))
  {
    hide *;
    if i == 0 {
      NothingEmitted(dl, [], m, na);
    } else {
      EmitUnpairedOld(dl, m, na, i - 1);
      UnpairedOldStep(dl, m, na, i - 1);
    }
  }

  lemma NothingEmitted(dl: seq<Line>, al: seq<Line>, m: Match, na: nat)
    requires Mutual(m, |dl|, na)
    ensures EmitUnpaired(dl, m, na, 0) == [] && UnpairedOrder(m, |dl|, na, 0) == []
    ensures PairedOrder(m, |dl|, na, 0) == [] && (na == |al| ==> EmitAdds(dl, al, m, 0) == [])
    ensures OldSide([]) == [] && NewSide([]) == [] && Pick(dl, []) == []
  {
  }

  lemma MiddleNew(dl: seq<Line>, al: seq<Line>)
    ensures NewSide(EmitMiddle(dl, al)) == al
  {
    hide NewSide;
    var m := PairingOf(dl, al);
    EmitAddsNew(dl, al, m, |al|);
    EmitUnpairedNew(dl, m, |al|, |dl|);
    NewAppend(EmitAdds(dl, al, m, |al|), EmitUnpaired(dl, m, |al|, |dl|));
    NilRight(al);
    assert al[..|al|] == al;
  }

  lemma MiddleOld(dl: seq<Line>, al: seq<Line>)
    ensures var idx := DelOrder(PairingOf(dl, al), |dl|, |al|);
      Permutes(idx, |dl|) && OldSide(EmitMiddle(dl, al)) == Pick(dl, idx)
  {
    hide OldSide, Pick, Permutes;
    var m := PairingOf(dl, al);
    EmitAddsOld(dl, al, m, |al|);
    EmitUnpairedOld(dl, m, |al|, |dl|);
    OldAppend(EmitAdds(dl, al, m, |al|), EmitUnpaired(dl, m, |al|, |dl|));
    DelOrderPermutes(m, |dl|, |al|);
    PickAppend(dl, PairedOrder(m, |dl|, |al|, |al|), UnpairedOrder(m, |dl|, |al|, |dl|));
  }

  // ----- the laws of a region -----

  lemma RegionNew(dels: seq<Line>, adds: seq<Line>)
    ensures var c := CutOf(dels, adds);
      NewSide(EmitRegion(dels, adds)) == c.head + Capped(c.adds) + c.tail
  {
    hide NewSide, EmitMiddle;
    var c := CutOf(dels, adds);
    var head, mid, tail := Tagged(SPACE, c.head), EmitMiddle(Capped(c.dels), Capped(c.adds)), Tagged(SPACE, c.tail);
    NewAppend(head, mid);
    NewAppend(head + mid, tail);
    SidesTagged(SPACE, c.head);
    SidesTagged(SPACE, c.tail);
    MiddleNew(Capped(c.dels), Capped(c.adds));
  }

  lemma RegionOld(dels: seq<Line>, adds: seq<Line>)
    ensures var c := CutOf(dels, adds);
      OldSide(EmitRegion(dels, adds)) == c.head + OldSide(EmitMiddle(Capped(c.dels), Capped(c.adds))) + c.tail
  {
    hide OldSide, EmitMiddle;
    var c := CutOf(dels, adds);
    var head, mid, tail := Tagged(SPACE, c.head), EmitMiddle(Capped(c.dels), Capped(c.adds)), Tagged(SPACE, c.tail);
    OldAppend(head, mid);
    OldAppend(head + mid, tail);
    SidesTagged(SPACE, c.head);
    SidesTagged(SPACE, c.tail);
  }

  /** The new version reads back from a region exactly when its middle has at most REGION_MAX added lines. */
  lemma RegionNewSide(dels: seq<Line>, adds: seq<Line>)
    ensures |CutOf(dels, adds).adds| <= REGION_MAX ==> NewSide(EmitRegion(dels, adds)) == adds
    ensures |CutOf(dels, adds).adds| > REGION_MAX ==> |NewSide(EmitRegion(dels, adds))| < |adds|
  {
    hide NewSide, EmitRegion, CutOf;
    RegionNew(dels, adds);
    CutJoins(dels, adds);
  }

  lemma MiddlePermutes(dl: seq<Line>, al: seq<Line>)
    ensures multiset(OldSide(EmitMiddle(dl, al))) == multiset(dl)
    ensures |OldSide(EmitMiddle(dl, al))| == |dl|
  {
    hide OldSide, EmitMiddle, Pick, Permutes, DelOrder;
    MiddleOld(dl, al);
    PickAll(dl, DelOrder(PairingOf(dl, al), |dl|, |al|));
    assert |multiset(OldSide(EmitMiddle(dl, al)))| == |multiset(dl)|;
  }

  /** No old line is lost or invented by a region exactly when its middle has at most REGION_MAX removed lines. */
  lemma RegionOldSide(dels: seq<Line>, adds: seq<Line>)
    ensures |CutOf(dels, adds).dels| <= REGION_MAX ==>
              multiset(OldSide(EmitRegion(dels, adds))) == multiset(dels)
              && |OldSide(EmitRegion(dels, adds))| == |dels|
    ensures |CutOf(dels, adds).dels| > REGION_MAX ==> |OldSide(EmitRegion(dels, adds))| < |dels|
  {
    hide OldSide, EmitRegion, EmitMiddle, CutOf;
    var c := CutOf(dels, adds);
    RegionOld(dels, adds);
    CutJoins(dels, adds);
    MiddlePermutes(Capped(c.dels), Capped(c.adds));
  }

  // ----- the order of the old version -----

  /** The paired removed lines come first, and in the order of their partners. */
  ghost predicate InOrder(m: Match) {
    forall k, i :: 0 <= k < i < |m.ofDel| && m.ofDel[i] >= 0 ==> 0 <= m.ofDel[k] < m.ofDel[i]
  }

  ghost predicate Identity(idx: seq<int>) {
    forall k :: 0 <= k < |idx| ==> idx[k] == k
  }

  ghost predicate Increasing(idx: seq<int>) {
    forall k, l :: 0 <= k < l < |idx| ==> idx[k] < idx[l]
  }

  lemma {:induction false} IncreasingIsIdentity(idx: seq<int>, n: nat, k: nat)
    requires Permutes(idx, n) && Increasing(idx) && k <= |idx|
    ensures forall j :: 0 <= j < k ==> idx[j] == j
  {
    if k > 0 {
      IncreasingIsIdentity(idx, n, k - 1);
      assert k > 1 ==> idx[k - 2] < idx[k - 1];
      assert idx[k - 1] >= k - 1;
      assert k - 1 in idx;
    }
  }

  lemma InOrderIncreasing(m: Match, nd: nat, na: nat)
    requires Mutual(m, nd, na) && InOrder(m)
    ensures Increasing(DelOrder(m, nd, na))
  {
    var p, idx := PairedOrder(m, nd, na, na), DelOrder(m, nd, na);
    forall k, l | 0 <= k < l < |idx| ensures idx[k] < idx[l] {
      DelOrderAt(m, nd, na, k);
      DelOrderAt(m, nd, na, l);
      if l < |p| {
        PairedLess(m, nd, na, na, k, l);
      } else if k >= |p| {
        UnpairedLess(m, nd, na, nd, k - |p|, l - |p|);
      }
    }
  }

  /** The removed lines are printed in their own order exactly when the pairing is in order. */
  lemma InOrderIsIdentity(m: Match, nd: nat, na: nat)
    requires Mutual(m, nd, na)
    ensures InOrder(m) <==> Identity(DelOrder(m, nd, na))
  {
    var p, idx := PairedOrder(m, nd, na, na), DelOrder(m, nd, na);
    DelOrderPermutes(m, nd, na);
    if InOrder(m) {
      InOrderIncreasing(m, nd, na);
      IncreasingIsIdentity(idx, nd, |idx|);
    }
    if Identity(idx) {
      forall k, i | 0 <= k < i < nd && m.ofDel[i] >= 0 ensures 0 <= m.ofDel[k] < m.ofDel[i] {
        assert i in idx;
        DelOrderAt(m, nd, na, i);
        DelOrderAt(m, nd, na, k);
        PairedLess(m, nd, na, na, k, i);
      }
    }
  }

  lemma {:induction false} PickAt(ls: seq<Line>, idx: seq<int>, n: nat)
    requires Within(idx, |ls|) && n <= |idx|
    ensures |FlatUpTo(PickOne(ls), idx, n)| == n
    ensures forall k :: 0 <= k < n ==> FlatUpTo(PickOne(ls), idx, n)[k] == ls[idx[k]]
  {
    if n > 0 {
      PickAt(ls, idx, n - 1);
    }
  }

  ghost predicate Distinct(ls: seq<Line>) {
    forall i, j :: 0 <= i < j < |ls| ==> ls[i] != ls[j]
  }

  /** Every place of the printed order shows the line that belongs there, be it that line or an equal one. */
  ghost predicate KeepsPlaces(ls: seq<Line>, idx: seq<int>) {
    |idx| == |ls| && forall k :: 0 <= k < |ls| ==> 0 <= idx[k] < |ls| && ls[idx[k]] == ls[k]
  }

  /** The pairing moves removed lines only to places of equal lines. */
  ghost predicate MovesOnlyEqual(dl: seq<Line>, al: seq<Line>) {
    KeepsPlaces(dl, DelOrder(PairingOf(dl, al), |dl|, |al|))
  }

  lemma PickKeepsPlaces(ls: seq<Line>, idx: seq<int>)
    requires Permutes(idx, |ls|) && |idx| == |ls|
    ensures Pick(ls, idx) == ls <==> KeepsPlaces(ls, idx)
  {
    PickAt(ls, idx, |idx|);
    assert forall k :: 0 <= k < |idx| ==> Pick(ls, idx)[k] == ls[idx[k]];
  }

  /** The middle's removed lines are in order exactly when the pairing moves only equal lines. */
  lemma MiddleOldOrder(dl: seq<Line>, al: seq<Line>)
    ensures OldSide(EmitMiddle(dl, al)) == dl <==> MovesOnlyEqual(dl, al)
  {
    hide EmitMiddle, DelOrder, OldSide, Permutes, Pick, KeepsPlaces;
    var idx := DelOrder(PairingOf(dl, al), |dl|, |al|);
    MiddleOld(dl, al);
    MiddlePermutes(dl, al);
    PickLength(dl, idx);
    PickKeepsPlaces(dl, idx);
  }

  lemma PickLength(ls: seq<Line>, idx: seq<int>)
    requires Permutes(idx, |ls|)
    ensures |Pick(ls, idx)| == |idx|
  {
    PickAt(ls, idx, |idx|);
  }

  /** A pairing in order moves nothing; when the removed lines differ from each other, only such a pairing does. */
  lemma InOrderMovesNothing(dl: seq<Line>, al: seq<Line>)
    ensures InOrder(PairingOf(dl, al)) ==> MovesOnlyEqual(dl, al)
    ensures Distinct(dl) && MovesOnlyEqual(dl, al) ==> InOrder(PairingOf(dl, al))
  {
    hide DelOrder, InOrder;
    var m := PairingOf(dl, al);
    DelOrderPermutes(m, |dl|, |al|);
    InOrderIsIdentity(m, |dl|, |al|);
    PermutesLength(DelOrder(m, |dl|, |al|), dl);
  }

  lemma PermutesLength(idx: seq<int>, ls: seq<Line>)
    requires Permutes(idx, |ls|)
    ensures |idx| == |ls|
  {
    PickAll(ls, idx);
    PickAt(ls, idx, |idx|);
    assert |multiset(Pick(ls, idx))| == |multiset(ls)|;
  }

  /** The old version reads back from a region, in order, exactly when no line is cut and only equal lines are moved. */
  lemma RegionOldOrder(dels: seq<Line>, adds: seq<Line>)
    ensures var c := CutOf(dels, adds);
      OldSide(EmitRegion(dels, adds)) == dels <==> |c.dels| <= REGION_MAX && MovesOnlyEqual(c.dels, Capped(c.adds))
  {
    hide OldSide, EmitRegion, EmitMiddle, CutOf, MovesOnlyEqual;
    var c := CutOf(dels, adds);
    RegionOld(dels, adds);
    CutJoins(dels, adds);
    RegionOldSide(dels, adds);
    MiddleOldOrder(c.dels, Capped(c.adds));
    var mid := OldSide(EmitMiddle(Capped(c.dels), Capped(c.adds)));
    if c.head + mid + c.tail == dels && |c.dels| <= REGION_MAX {
      SameMiddle(c.head, mid, c.dels, c.tail);
    }
  }

  lemma SameMiddle(head: seq<Line>, x: seq<Line>, y: seq<Line>, tail: seq<Line>)
    requires head + x + tail == head + y + tail
    ensures x == y
  {
    Assoc(head, x, tail);
    Assoc(head, y, tail);
    AppendParts(head, x + tail);
    AppendParts(head, y + tail);
    assert x + tail == y + tail;
    assert |x| == |y|;
    AppendParts(x, tail);
    AppendParts(y, tail);
  }

  /** Of the removed lines `x`, `aaab` against the added line `aaac`, the second is printed first. */
  lemma SwappedLines()
    ensures var dels, adds := [[120], [97, 97, 97, 98]], [[97, 97, 97, 99]];
      CutOf(dels, adds).dels == dels && CutOf(dels, adds).adds == adds && !MovesOnlyEqual(dels, adds)
  {
    var x: Line, d: Line, a: Line := [120], [97, 97, 97, 98], [97, 97, 97, 99];
    var dels, adds := [x, d], [a];
    var c := CutOf(dels, adds);
    assert c.dels == dels && c.adds == adds;
    var m, w := PairingOf(dels, adds), Weights(dels, adds);
    assert PrefixFrom(d, a, 2) == 3 && PrefixFrom(d, a, 0) == PrefixFrom(d, a, 2);
    assert w[1][0] == Weight(d, a) == 3;
    assert w[0][0] == Weight(x, a) == 0;
    assert Candidate(w, 1, 1, 0) && !Candidate(w, 1, 0, 0);
    assert m.ofDel[0] < 0 && m.ofDel[1] == 0;
    InOrderMovesNothing(dels, adds);
    assert !InOrder(m);
    assert Distinct(dels);
  }
}
