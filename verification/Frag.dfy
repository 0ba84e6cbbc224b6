/** The percent codec for URI fragments (dog/FRAG.rl.c), sections 2.1 and 3.5 of RFC 3986. */
module Frag {
  import opened Bytes
  import opened Seqs

  const PERCENT: byte := 37
  const HASH: byte := 35

  /** Printable, and neither the fragment delimiter nor the escape sign. */
  predicate Legal(c: byte) {
    0x20 <= c <= 0x7E && c != HASH && c != PERCENT
  }

  function HexDigit(v: int): byte
    requires 0 <= v < 16
  {
    if v < 10 then 48 + v else 55 + v
  }

  /** The value of a hexadecimal digit of either case, -1 for other bytes. */
  function HexVal(c: byte): (v: int)
    ensures -1 <= v < 16
  {
    if 48 <= c <= 57 then c - 48 else if 65 <= c <= 70 then c - 55 else if 97 <= c <= 102 then c - 87 else -1
  }

  function EscByte(c: byte): seq<byte> {
    if Legal(c) then [c] else [PERCENT, HexDigit(c / 16), HexDigit(c % 16)]
  }

  function Escaped(raw: seq<byte>): seq<byte> {
    if raw == [] then [] else EscByte(raw[0]) + Escaped(raw[1..])
  }

  /** An escape stands at i. */
  predicate TripleAt(esc: seq<byte>, i: nat) {
    i + 2 < |esc| && esc[i] == PERCENT && HexVal(esc[i + 1]) >= 0 && HexVal(esc[i + 2]) >= 0
  }

  /** Escapes become their byte; everything else, incomplete escapes too, stays. */
  function Unescaped(esc: seq<byte>): seq<byte> {
    if esc == [] then []
    else if TripleAt(esc, 0) then [HexVal(esc[1]) * 16 + HexVal(esc[2])] + Unescaped(esc[3..])
    else [esc[0]] + Unescaped(esc[1..])
  }

  // ---- The laws ----

  /** The hexadecimal digits in order, of either case, are the digits 0 to 15; no other byte is one. */
  lemma DigitsOfEitherCase(c: byte, v: nat)
    requires v < 16
    ensures HexVal(c) == v <==> c == "0123456789ABCDEF"[v] as int || c == "0123456789abcdef"[v] as int
  {
  }

  lemma Digits(c: byte)
    ensures HexVal(HexDigit(c / 16)) == c / 16 && HexVal(HexDigit(c % 16)) == c % 16
    ensures Legal(HexDigit(c / 16)) && Legal(HexDigit(c % 16))
  {
  }

  /** One escaped byte in front is one byte in front of what is decoded. */
  lemma UnescapedOne(c: byte, rest: seq<byte>)
    ensures Unescaped(EscByte(c) + rest) == [c] + Unescaped(rest)
  {
    Digits(c);
    var e := EscByte(c) + rest;
    if Legal(c) {
      assert e[1..] == rest;
    } else {
      assert e[0] == PERCENT && e[1] == HexDigit(c / 16) && e[2] == HexDigit(c % 16);
      assert e[3..] == rest;
    }
  }

  /** Decoding undoes encoding, for every byte string. */
  lemma {:induction false} RoundTrip(raw: seq<byte>)
    ensures Unescaped(Escaped(raw)) == raw
  {
    if raw != [] {
      UnescapedOne(raw[0], Escaped(raw[1..]));
      RoundTrip(raw[1..]);
    }
  }

  function Illegals(raw: seq<byte>): nat {
    if raw == [] then 0 else (if Legal(raw[0]) then 0 else 1) + Illegals(raw[1..])
  }

  /** Only printable bytes other than the delimiter come out, and every escape sign starts an escape. */
  predicate Clean(esc: seq<byte>) {
    forall i :: 0 <= i < |esc| ==> (Legal(esc[i]) || TripleAt(esc, i))
  }

  lemma {:induction false} EscapedIsClean(raw: seq<byte>)
    ensures |Escaped(raw)| == |raw| + 2 * Illegals(raw) && Clean(Escaped(raw))
  {
    if raw != [] {
      EscapedIsClean(raw[1..]);
      Digits(raw[0]);
      var h, t, e := EscByte(raw[0]), Escaped(raw[1..]), Escaped(raw);
      forall i | 0 <= i < |e| ensures Legal(e[i]) || TripleAt(e, i) {
        if i >= |h| {
          assert e[i] == t[i - |h|] && (i + 2 < |e| ==> e[i + 1] == t[i - |h| + 1] && e[i + 2] == t[i - |h| + 2]);
        }
      }
    }
  }

  lemma {:induction false} LegalIsItself(raw: seq<byte>)
    ensures Illegals(raw) == 0 <==> forall c :: c in raw ==> Legal(c)
    ensures Illegals(raw) == 0 ==> Escaped(raw) == raw
  {
    if raw != [] {
      LegalIsItself(raw[1..]);
      HeadTail(raw);
      assert forall c :: c in raw <==> c == raw[0] || c in raw[1..];
    }
  }

  /** Just the printable bytes but `#` and `%` stand for themselves. */
  lemma EscapedIsItself(raw: seq<byte>)
    ensures Escaped(raw) == raw <==> forall c :: c in raw ==> 32 <= c <= 126 && c != '#' as int && c != '%' as int
  {
    LegalIsItself(raw);
    EscapedIsClean(raw);
    hide Escaped;
  }

  /** The form the encoder writes: legal bytes, and upper-case escapes of the bytes that need one. */
  predicate WellEscaped(esc: seq<byte>) {
    || esc == []
    || (Legal(esc[0]) && WellEscaped(esc[1..]))
    || (TripleAt(esc, 0) && esc[..3] == EscByte(HexVal(esc[1]) * 16 + HexVal(esc[2])) && WellEscaped(esc[3..]))
  }

  lemma {:induction false} EscapedIsWellEscaped(raw: seq<byte>)
    ensures WellEscaped(Escaped(raw))
  {
    if raw != [] {
      EscapedIsWellEscaped(raw[1..]);
      Digits(raw[0]);
      var e := Escaped(raw);
      if Legal(raw[0]) {
        assert e[1..] == Escaped(raw[1..]);
      } else {
        assert e[..3] == EscByte(raw[0]) && e[3..] == Escaped(raw[1..]);
        assert TripleAt(e, 0) && HexVal(e[1]) * 16 + HexVal(e[2]) == raw[0];
      }
    }
  }

  /** Encoding undoes decoding on exactly the strings the encoder writes. */
  lemma {:induction false} RoundTripBack(esc: seq<byte>)
    ensures Escaped(Unescaped(esc)) == esc <==> WellEscaped(esc)
  {
    EscapedIsWellEscaped(Unescaped(esc));
    if WellEscaped(esc) {
      Reencoded(esc);
    }
  }

  lemma {:induction false} Reencoded(esc: seq<byte>)
    requires WellEscaped(esc)
    ensures Escaped(Unescaped(esc)) == esc
  {
    if esc != [] {
      if Legal(esc[0]) {
        Reencoded(esc[1..]);
        ConsEscaped(esc[0], Unescaped(esc[1..]));
      } else {
        Reencoded(esc[3..]);
        ConsEscaped(HexVal(esc[1]) * 16 + HexVal(esc[2]), Unescaped(esc[3..]));
        assert esc == esc[..3] + esc[3..];
      }
    }
  }

  lemma ConsEscaped(c: byte, raw: seq<byte>)
    ensures Escaped([c] + raw) == EscByte(c) + Escaped(raw)
  {
    assert ([c] + raw)[1..] == raw;
  }

  // ---- FRAGu8sEsc and FRAGu8sUnesc ----

  /** What has been written of the output, and what it stands for. */
  lemma StepEscaped(raw: seq<byte>, p: nat, done: seq<byte>)
    requires p < |raw| && Escaped(raw) == done + Escaped(raw[p..])
    ensures Escaped(raw) == done + EscByte(raw[p]) + Escaped(raw[p + 1..])
  {
    assert raw[p..][1..] == raw[p + 1..];
    Assoc(done, EscByte(raw[p]), Escaped(raw[p + 1..]));
  }

  lemma NothingEscaped()
    ensures Escaped([]) == []
  {
  }

  /**
   * Encodes raw into the room from at on. It succeeds exactly when there is any room and the whole fits, and writes
   * nothing before at.
   */
  method Esc(into: array<byte>, at: nat, raw: seq<byte>) returns (ok: bool, end: nat)
    requires at <= into.Length
    modifies into
    ensures ok <==> at < into.Length && at + |Escaped(raw)| <= into.Length
    ensures at <= end <= into.Length && into[..at] == old(into[..at])
    ensures ok ==> into[at..end] == Escaped(raw)
    ensures !ok ==> into[at..end] <= Escaped(raw)
  {
    hide Escaped, Legal, HexDigit;
    end := at;
    if at >= into.Length {
      return false, at;
    }
    NothingEscaped();
    if raw == [] {
      return true, at;
    }
    var p := 0;
    NilLeft(Escaped(raw));
    while p < |raw|
      invariant p <= |raw| && at <= end <= into.Length && into[..at] == old(into[..at])
      invariant Escaped(raw) == into[at..end] + Escaped(raw[p..])
    {
      var c := raw[p];
      StepEscaped(raw, p, into[at..end]);
      ghost var written := into[at..end];
      p := p + 1;
      if Legal(c) {
        if end >= into.Length {
          return false, end;
        }
        into[end] := c;
        end := end + 1;
      } else {
        if end + 3 > into.Length {
          return false, end;
        }
        into[end], into[end + 1], into[end + 2] := PERCENT, HexDigit(c / 16), HexDigit(c % 16);
        end := end + 3;
      }
      assert into[at..end] == written + EscByte(c);
    }
    assert raw[p..] == [];
    NilRight(into[at..end]);
    return true, end;
  }

  lemma UnescapedFrom(esc: seq<byte>, p: nat)
    requires p < |esc|
    ensures TripleAt(esc, p) ==>
      Unescaped(esc[p..]) == [HexVal(esc[p + 1]) * 16 + HexVal(esc[p + 2])] + Unescaped(esc[p + 3..])
    ensures !TripleAt(esc, p) ==> Unescaped(esc[p..]) == [esc[p]] + Unescaped(esc[p + 1..])
  {
    var e := esc[p..];
    hide HexVal;
    assert TripleAt(e, 0) == TripleAt(esc, p);
    assert e[1..] == esc[p + 1..];
    if TripleAt(esc, p) {
      assert e[1] == esc[p + 1] && e[2] == esc[p + 2] && e[3..] == esc[p + 3..];
    }
  }

  /** Decoding leaves everything in front of the first escape as it is, makes that one byte, and goes on behind it. */
  lemma {:induction false} FirstEscape(esc: seq<byte>, p: nat)
    requires p <= |esc| && forall i :: 0 <= i < p ==> !TripleAt(esc, i)
    ensures Unescaped(esc) == esc[..p] + Unescaped(esc[p..])
    ensures p == |esc| ==> Unescaped(esc) == esc
    ensures TripleAt(esc, p) ==>
      Unescaped(esc) == esc[..p] + ([HexVal(esc[p + 1]) * 16 + HexVal(esc[p + 2])] + Unescaped(esc[p + 3..]))
  {
    hide Unescaped, HexVal;
    if p == 0 {
      NilLeft(Unescaped(esc));
      assert esc[0..] == esc && esc[..0] == [];
      if esc == [] {
        NothingUnescaped();
      }
    } else {
      FirstEscape(esc, p - 1);
      UnescapedFrom(esc, p - 1);
      TakeSnoc(esc, p - 1);
      Assoc(esc[..p - 1], [esc[p - 1]], Unescaped(esc[p..]));
      assert esc[|esc|..] == [] && esc[..|esc|] == esc;
      if p == |esc| {
        NothingUnescaped();
        NilRight(esc);
      }
    }
    if TripleAt(esc, p) {
      UnescapedFrom(esc, p);
    }
  }

  lemma StepUnescaped(esc: seq<byte>, p: nat, done: seq<byte>)
    requires p < |esc| && Unescaped(esc) == done + Unescaped(esc[p..])
    ensures TripleAt(esc, p) ==>
      Unescaped(esc) == done + [HexVal(esc[p + 1]) * 16 + HexVal(esc[p + 2])] + Unescaped(esc[p + 3..])
    ensures !TripleAt(esc, p) ==> Unescaped(esc) == done + [esc[p]] + Unescaped(esc[p + 1..])
  {
    hide Unescaped, HexVal;
    UnescapedFrom(esc, p);
    if TripleAt(esc, p) {
      Assoc(done, [HexVal(esc[p + 1]) * 16 + HexVal(esc[p + 2])], Unescaped(esc[p + 3..]));
    } else {
      Assoc(done, [esc[p]], Unescaped(esc[p + 1..]));
    }
  }

  lemma NothingUnescaped()
    ensures Unescaped([]) == []
  {
  }

  /** Decodes, on the same terms. */
  method Unesc(into: array<byte>, at: nat, esc: seq<byte>) returns (ok: bool, end: nat)
    requires at <= into.Length
    modifies into
    ensures ok <==> at < into.Length && at + |Unescaped(esc)| <= into.Length
    ensures at <= end <= into.Length && into[..at] == old(into[..at])
    ensures ok ==> into[at..end] == Unescaped(esc)
    ensures !ok ==> into[at..end] <= Unescaped(esc)
  {
    hide Unescaped, HexVal;
    end := at;
    if at >= into.Length {
      return false, at;
    }
    NothingUnescaped();
    if esc == [] {
      return true, at;
    }
    var p := 0;
    NilLeft(Unescaped(esc));
    while p < |esc|
      invariant p <= |esc| && at <= end <= into.Length && into[..at] == old(into[..at])
      invariant Unescaped(esc) == into[at..end] + Unescaped(esc[p..])
    {
      StepUnescaped(esc, p, into[at..end]);
      ghost var written := into[at..end];
      if end >= into.Length {
        return false, end;
      }
      var c := esc[p];
      p := p + 1;
      if c == PERCENT && p + 2 <= |esc| {
        var hi, lo := HexVal(esc[p]), HexVal(esc[p + 1]);
        if hi >= 0 && lo >= 0 {
          c := hi * 16 + lo;
          p := p + 2;
        }
      }
      into[end] := c;
      end := end + 1;
      assert into[at..end] == written + [c];
    }
    assert esc[p..] == [];
    NilRight(into[at..end]);
    return true, end;
  }
}
