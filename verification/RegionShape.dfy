/** Where the lines of a region are printed: common ends as context, each pair together, the unpaired last. */
module RegionShape {
  import opened Seqs
  import opened Bytes
  import opened Lines
  import opened Similarity
  import opened Matching
  import opened Pairing
  import opened BodyLines
  import opened Regions
  import opened RegionLaws

  /** Leading lines both sides have in common are printed as context, first of all. */
  lemma LeadIsContext(dels: seq<Line>, adds: seq<Line>, p: nat)
    requires p <= |dels| && p <= |adds| && dels[..p] == adds[..p]
    ensures var out := EmitRegion(dels, adds);
      p <= |out| && out[..p] == Tagged(SPACE, dels[..p])
  {
    hide EmitMiddle, CommonSuffix, PrefixFrom;
    assert SameEnds(dels, adds, p, 0);
    SameEndsAtMost(dels, adds, p, 0);
  }

  /** So are, last of all, the trailing lines in common that the leading ones do not take. */
  lemma EndIsContext(dels: seq<Line>, adds: seq<Line>, p: nat, n: nat)
    requires SameEnds(dels, adds, p, n) && p == CommonPrefix(dels, adds)
    ensures var out := EmitRegion(dels, adds);
      n <= |out| && out[|out| - n..] == Tagged(SPACE, dels[|dels| - n..])
  {
    hide EmitMiddle, SuffixDown, PrefixFrom;
    SameEndsAtMost(dels, adds, p, n);
  }

  /** Between them nothing is context. */
  lemma MiddleHasNoContext(dl: seq<Line>, al: seq<Line>)
    ensures forall k :: 0 <= k < |EmitMiddle(dl, al)| ==> EmitMiddle(dl, al)[k].prefix != SPACE
  {
    var m := PairingOf(dl, al);
    AddsHaveNoContext(dl, al, m, |al|);
    UnpairedAreRemoved(dl, m, |al|, |dl|);
  }

  lemma {:induction false} AddsHaveNoContext(dl: seq<Line>, al: seq<Line>, m: Match, j: nat)
    requires Mutual(m, |dl|, |al|) && j <= |al|
    ensures forall k :: 0 <= k < |EmitAdds(dl, al, m, j)| ==> EmitAdds(dl, al, m, j)[k].prefix != SPACE
    ensures j > 0 ==> EmitAdds(dl, al, m, j) != []
    ensures var out := EmitAdds(dl, al, m, j);
      out != [] ==> out[|out| - 1].prefix == PLUS
  {
    if j > 0 {
      AddsHaveNoContext(dl, al, m, j - 1);
    }
  }

  lemma {:induction false} UnpairedAreRemoved(dl: seq<Line>, m: Match, na: nat, i: nat)
    requires Mutual(m, |dl|, na) && i <= |dl|
    ensures EmitUnpaired(dl, m, na, i) == Tagged(MINUS, Pick(dl, UnpairedOrder(m, |dl|, na, i)))
  {
    hide *;
    if i > 0 {
      UnpairedAreRemoved(dl, m, na, i - 1);
      UnpairedUnfold(dl, m, na, i);
      LeftoverIsRemoved(dl, m, na, i - 1);
      var idx, last := UnpairedOrder(m, |dl|, na, i - 1), LeftoverOf(m, |dl|, na, i - 1);
      PickAppend(dl, idx, last);
      TaggedAppend(MINUS, Pick(dl, idx), Pick(dl, last));
    } else {
      NothingEmitted(dl, [], m, na);
      NothingTagged();
    }
  }

  lemma NothingTagged()
    ensures Tagged(MINUS, []) == []
  {
  }

  lemma LeftoverIsRemoved(dl: seq<Line>, m: Match, na: nat, i: nat)
    requires Mutual(m, |dl|, na) && i < |dl|
    ensures Leftover(dl, m, na, i) == Tagged(MINUS, Pick(dl, LeftoverOf(m, |dl|, na, i)))
  {
    if m.ofDel[i] < 0 {
      PickSingle(dl, i);
    }
  }

  /** At k stands added line j, right behind its partner when it has one. */
  ghost predicate PlacedAt(out: seq<BodyLine>, k: nat, dl: seq<Line>, al: seq<Line>, m: Match, j: nat)
    requires Mutual(m, |dl|, |al|) && j < |al|
  {
    && k < |out| && out[k] == BodyLine(PLUS, al[j]) && NewSide(out[..k]) == al[..j]
    && (m.ofAdd[j] >= 0 ==> k > 0 && out[k - 1] == BodyLine(MINUS, dl[m.ofAdd[j]]))
    && (m.ofAdd[j] < 0 ==> k == 0 || out[k - 1].prefix == PLUS)
  }

  lemma PlaceStays(out: seq<BodyLine>, more: seq<BodyLine>, k: nat, dl: seq<Line>, al: seq<Line>, m: Match, j: nat)
    requires Mutual(m, |dl|, |al|) && j < |al| && PlacedAt(out, k, dl, al, m, j)
    ensures PlacedAt(out + more, k, dl, al, m, j)
  {
    hide NewSide;
    assert (out + more)[..k] == out[..k];
  }

  lemma LastPlace(dl: seq<Line>, al: seq<Line>, m: Match, j: nat) returns (k: nat)
    requires Mutual(m, |dl|, |al|) && j < |al|
    ensures PlacedAt(EmitAdds(dl, al, m, j + 1), k, dl, al, m, j)
  {
    hide NewSide, EmitAdds;
    AddsUnfold(dl, al, m, j + 1);
    AddsHaveNoContext(dl, al, m, j);
    EmitAddsNew(dl, al, m, j);
    PartnerSides(dl, m, |al|, j);
    var before, partner := EmitAdds(dl, al, m, j), Partner(dl, m, |al|, j);
    k := |before| + |partner|;
    NewAppend(before, partner);
    NilRight(al[..j]);
    assert EmitAdds(dl, al, m, j + 1)[..k] == before + partner;
  }

  lemma {:induction false} AddedPlace(dl: seq<Line>, al: seq<Line>, m: Match, j: nat, n: nat) returns (k: nat)
    requires Mutual(m, |dl|, |al|) && j < n <= |al|
    ensures PlacedAt(EmitAdds(dl, al, m, n), k, dl, al, m, j)
  {
    hide PlacedAt, EmitAdds, Partner;
    if n == j + 1 {
      k := LastPlace(dl, al, m, j);
    } else {
      k := AddedPlace(dl, al, m, j, n - 1);
      AddsUnfold(dl, al, m, n);
      PlaceStays(EmitAdds(dl, al, m, n - 1), Partner(dl, m, |al|, n - 1) + [BodyLine(PLUS, al[n - 1])], k,
                 dl, al, m, j);
    }
  }

  /** Every added line stands behind those before it; right before it stands its partner, or no removed line at all. */
  lemma PairsStandTogether(dl: seq<Line>, al: seq<Line>, j: nat)
    requires j < |al|
    ensures exists k: nat :: PlacedAt(EmitMiddle(dl, al), k, dl, al, PairingOf(dl, al), j)
  {
    hide PlacedAt, EmitAdds, EmitUnpaired;
    var m := PairingOf(dl, al);
    var k := AddedPlace(dl, al, m, j, |al|);
    PlaceStays(EmitAdds(dl, al, m, |al|), EmitUnpaired(dl, m, |al|, |dl|), k, dl, al, m, j);
    assert PlacedAt(EmitMiddle(dl, al), k, dl, al, m, j);
  }

  /** Behind the last added line stand the unpaired removed lines, in their own order. */
  lemma UnpairedComeLast(dl: seq<Line>, al: seq<Line>)
    ensures exists front, idx ::
      && EmitMiddle(dl, al) == front + Tagged(MINUS, Pick(dl, idx))
      && NewSide(front) == al && (front != [] ==> front[|front| - 1].prefix == PLUS)
      && Increasing(idx) && forall i :: i in idx <==> 0 <= i < |dl| && PairingOf(dl, al).ofDel[i] < 0
  {
    hide EmitAdds, EmitUnpaired, NewSide, Pick, UnpairedOrder, Tagged;
    var m := PairingOf(dl, al);
    var front, idx := EmitAdds(dl, al, m, |al|), UnpairedOrder(m, |dl|, |al|, |dl|);
    AddsHaveNoContext(dl, al, m, |al|);
    UnpairedAreRemoved(dl, m, |al|, |dl|);
    EmitAddsNew(dl, al, m, |al|);
    assert al[..|al|] == al;
    UnpairedListed(m, |dl|, |al|);
    assert EmitMiddle(dl, al) == front + Tagged(MINUS, Pick(dl, idx));
  }

  lemma UnpairedListed(m: Match, nd: nat, na: nat)
    requires Mutual(m, nd, na)
    ensures var idx := UnpairedOrder(m, nd, na, nd);
      Increasing(idx) && forall i :: i in idx <==> 0 <= i < nd && m.ofDel[i] < 0
  {
    hide UnpairedOrder;
    var idx := UnpairedOrder(m, nd, na, nd);
    forall k, l | 0 <= k < l < |idx| ensures idx[k] < idx[l] {
      UnpairedLess(m, nd, na, nd, k, l);
    }
    forall k | 0 <= k < |idx| ensures 0 <= idx[k] < nd && m.ofDel[idx[k]] < 0 {
      UnpairedAt(m, nd, na, nd, k);
    }
    forall i | 0 <= i < nd && m.ofDel[i] < 0 ensures i in idx {
      UnpairedCovers(m, nd, na, nd, i);
    }
  }
}
