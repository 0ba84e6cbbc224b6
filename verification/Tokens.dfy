/** Diff-marked text: a byte string with tokens whose sides say which version each byte is in. */
module Tokens {
  import opened Bytes

  datatype Side = EQ | IN | RM

  /** A token: its tag, its side, and the offset just past its last byte. */
  datatype Token = Token(tag: char, side: Side, end: nat)

  datatype Mark = Mark(b: byte, side: Side)

  /** Token ends are nondecreasing and stay within the text. */
  ghost predicate Tiles(toks: seq<Token>, length: nat) {
    && (forall i, j :: 0 <= i < j < |toks| ==> toks[i].end <= toks[j].end)
    && (forall i :: 0 <= i < |toks| ==> toks[i].end <= length)
  }

  function Start(toks: seq<Token>, i: nat): nat
    requires i <= |toks|
  {
    if i == 0 then 0 else toks[i - 1].end
  }

  /** The side of the byte at off: that of the first token ending beyond it, EQ past the last token. */
  function SideAt(toks: seq<Token>, off: nat): Side {
    if toks == [] then EQ
    else if toks[0].end > off then toks[0].side
    else SideAt(toks[1..], off)
  }

  lemma {:induction false} SideAtIs(toks: seq<Token>, off: nat, i: nat)
    requires i <= |toks|
    requires forall k :: 0 <= k < i ==> toks[k].end <= off
    requires i < |toks| ==> off < toks[i].end
    ensures SideAt(toks, off) == if i < |toks| then toks[i].side else EQ
  {
    if i > 0 {
      SideAtIs(toks[1..], off, i - 1);
    }
  }

  /** The first n bytes of the text with their sides. */
  ghost function Marks(text: seq<byte>, toks: seq<Token>, n: nat): (ms: seq<Mark>)
    requires n <= |text|
    ensures |ms| == n
  {
    seq(n, k requires 0 <= k < n => Mark(text[k], SideAt(toks, k)))
  }

  /** The old version: the bytes that are not inserted. */
  ghost function OldText(ms: seq<Mark>): seq<byte> {
    if ms == [] then []
    else OldText(ms[..|ms| - 1]) + if ms[|ms| - 1].side == IN then [] else [ms[|ms| - 1].b]
  }

  /** The new version: the bytes that are not removed. */
  ghost function NewText(ms: seq<Mark>): seq<byte> {
    if ms == [] then []
    else NewText(ms[..|ms| - 1]) + if ms[|ms| - 1].side == RM then [] else [ms[|ms| - 1].b]
  }
}
