/** The unified-diff renderer: HUNKu8sFeedLineBased of dog/HUNK.c, on buffers with room to spare. */
module Renderer {
  import opened Seqs
  import opened Bytes
  import opened Lines
  import opened Tokens
  import opened BodyLines
  import opened Regions
  import opened LineMachine
  import opened BodyLaws

  // ----- headers -----

  /** Decimal digits, as utf8sFeed10 writes them. */
  function Decimal(n: nat): seq<byte> {
    (if n < 10 then [] else Decimal(n / 10)) + [48 + n % 10]
  }

  /** The file header, when the path is known, and the hunk's range line. */
  function Header(path: seq<byte>, line: nat, oldCount: nat, newCount: nat): seq<byte> {
    var start := if line > 0 then line else 1;
    (if path == [] then []
     else Ascii("--- a/") + path + [NEWLINE] + Ascii("+++ b/") + path + [NEWLINE])
    + Ascii("@@ -") + Decimal(start) + Ascii(",") + Decimal(oldCount)
    + Ascii(" +") + Decimal(start) + Ascii(",") + Decimal(newCount) + Ascii(" @@") + [NEWLINE]
  }

  function Title(uri: seq<byte>): seq<byte> {
    if uri == [] then [] else Ascii("--- ") + uri + Ascii(" ---") + [NEWLINE]
  }

  // ----- the accumulating buffers -----

  lemma FedLine(p: byte, ls: seq<Line>, l: Line, data: seq<byte>)
    requires data == Render(Tagged(p, ls))
    ensures data + [p] + l + [NEWLINE] == Render(Tagged(p, ls + [l]))
  {
    hide Render;
    TaggedAppend(p, ls, [l]);
    RenderOne(p, l);
    Assoc(data, [p], l);
    Assoc(data, [p] + l, [NEWLINE]);
  }

  lemma FedEvent(trace: seq<Event>, e: Event, data: seq<byte>)
    requires data == Render(Body(trace))
    ensures data + Render(Emit(e)) == Render(Body(trace + [e]))
  {
    hide Render, Body;
    BodyMore(trace, e);
    RenderAppend(Body(trace), Emit(e));
  }

  lemma FedContext(l: Line)
    ensures [SPACE] + l + [NEWLINE] == Render(Emit(Context(l)))
  {
    RenderOne(SPACE, l);
  }

  class LineRenderer {
    const oldb: Buffer
    const newb: Buffer
    const dels: Buffer
    const adds: Buffer
    const body: Buffer
    var oldDirty: bool
    var newDirty: bool
    var oldCount: nat
    var newCount: nat

    /** The state of the line machine the buffers hold. */
    ghost var st: State

    ghost predicate Apart() {
      && oldb != newb && oldb != dels && oldb != adds && oldb != body
      && newb != dels && newb != adds && newb != body
      && dels != adds && dels != body && adds != body
    }

    ghost predicate Valid()
      reads this, oldb, newb, dels, adds, body
    {
      && Apart()
      && oldb.data == st.oldb && newb.data == st.newb
      && oldDirty == st.oldDirty && newDirty == st.newDirty
      && oldCount == st.oldCount && newCount == st.newCount
      && dels.data == Render(Tagged(MINUS, st.dels))
      && adds.data == Render(Tagged(PLUS, st.adds))
      && body.data == Render(Body(st.trace))
      && CleanState(st)
    }

    constructor ()
      ensures Valid() && st == INITIAL
      ensures fresh(oldb) && fresh(newb) && fresh(dels) && fresh(adds) && fresh(body)
    {
      oldb := new Buffer();
      newb := new Buffer();
      dels := new Buffer();
      adds := new Buffer();
      body := new Buffer();
      oldDirty, newDirty, oldCount, newCount := false, false, 0, 0;
      st := INITIAL;
    }

    /** The open old line goes to the pending '-' lines. */
    method PushOld()
      requires Valid()
      modifies this, dels
      ensures Valid() && st == OldLine(old(st))
    {
      hide Render, Body;
      FedLine(MINUS, st.dels, st.oldb, dels.data);
      dels.Feed1(MINUS);
      dels.Feed(oldb.data);
      dels.Feed1(NEWLINE);
      oldCount := oldCount + 1;
      st := OldLine(st);
    }

    /** The open new line goes to the pending '+' lines. */
    method PushNew()
      requires Valid()
      modifies this, adds
      ensures Valid() && st == NewLine(old(st))
    {
      hide Render, Body;
      FedLine(PLUS, st.adds, st.newb, adds.data);
      adds.Feed1(PLUS);
      adds.Feed(newb.data);
      adds.Feed1(NEWLINE);
      newCount := newCount + 1;
      st := NewLine(st);
    }

    /** Flush the pending region, then print the open old line as context. */
    method PushContext()
      requires Valid()
      modifies this, body, dels, adds
      ensures Valid() && st == ContextLine(old(st))
    {
      hide Render, Body, EmitRegion;
      Flush();
      FedEvent(st.trace, Context(st.oldb), body.data);
      FedContext(st.oldb);
      Assoc(body.data, [SPACE], st.oldb);
      Assoc(body.data, [SPACE] + st.oldb, [NEWLINE]);
      body.Feed1(SPACE);
      body.Feed(oldb.data);
      body.Feed1(NEWLINE);
      oldCount := oldCount + 1;
      newCount := newCount + 1;
      st := st.(trace := st.trace + [Context(st.oldb)], oldCount := oldCount, newCount := newCount);
    }

    method Flush()
      requires Valid()
      modifies this, body, dels, adds
      ensures Valid()
      ensures st == old(st).(dels := [], adds := [], trace := old(st).trace + [Region(old(st).dels, old(st).adds)])
    {
      hide Render, Body, EmitRegion;
      FedEvent(st.trace, Region(st.dels, st.adds), body.data);
      FlushRegion(body, dels, adds, st.dels, st.adds);
      RenderNothing([]);
      assert Render([]) == [];
      st := st.(dels := [], adds := [], trace := st.trace + [Region(st.dels, st.adds)]);
      assert Tagged(MINUS, st.dels) == [] && Tagged(PLUS, st.adds) == [];
    }

    /** One byte of the text with its side. */
    method FeedByte(c: byte, side: Side)
      requires Valid()
      modifies this, oldb, newb, dels, adds, body
      ensures Valid() && st == Step(old(st), Mark(c, side))
    {
      hide Render, Body;
      if side == RM {
        if c == NEWLINE {
          PushOld();
          oldb.Reset();
          oldDirty := false;
        } else {
          oldb.Feed1(c);
          oldDirty := true;
        }
      } else if side == IN {
        if c == NEWLINE {
          PushNew();
          newb.Reset();
          newDirty := false;
        } else {
          newb.Feed1(c);
          newDirty := true;
        }
      } else {
        if c == NEWLINE {
          if oldDirty || newDirty {
            PushOld();
            PushNew();
          } else {
            PushContext();
          }
          oldb.Reset();
          newb.Reset();
          oldDirty, newDirty := false, false;
        } else {
          oldb.Feed1(c);
          newb.Feed1(c);
        }
      }
      st := st.(oldb := oldb.data, newb := newb.data, oldDirty := oldDirty, newDirty := newDirty);
    }

    /** The trailing partial lines and the last flush. */
    method Close()
      requires Valid()
      modifies this, dels, adds, body
      ensures Valid() && st == LineMachine.Finish(old(st))
    {
      hide Render, Body;
      var modified := oldDirty || newDirty;
      if |oldb.data| > 0 || oldDirty {
        if modified {
          PushOld();
        } else {
          PushContext();
        }
      }
      if modified && |newb.data| > 0 {
        PushNew();
      }
      Flush();
    }
  }

  // ----- the renderer -----

  /** Does any token have a side other than EQ? */
  method HasDiff(toks: seq<Token>) returns (r: bool)
    ensures r <==> exists i :: 0 <= i < |toks| && toks[i].side != EQ
  {
    for i := 0 to |toks|
      invariant forall k :: 0 <= k < i ==> toks[k].side == EQ
    {
      if toks[i].side != EQ {
        return true;
      }
    }
    return false;
  }

  ghost predicate AnyDiff(toks: seq<Token>) {
    exists i :: 0 <= i < |toks| && toks[i].side != EQ
  }

  /** The marked bytes the tokens cover. */
  ghost function Covered(text: seq<byte>, toks: seq<Token>): seq<Mark>
    requires Tiles(toks, |text|)
  {
    Marks(text, toks, Start(toks, |toks|))
  }

  lemma MarksStep(text: seq<byte>, toks: seq<Token>, i: nat, p: nat)
    requires Tiles(toks, |text|) && i < |toks| && Start(toks, i) <= p < toks[i].end
    ensures Marks(text, toks, p + 1) == Marks(text, toks, p) + [Mark(text[p], toks[i].side)]
    ensures Run(Marks(text, toks, p + 1)) == Step(Run(Marks(text, toks, p)), Mark(text[p], toks[i].side))
  {
    SideAtIs(toks, p, i);
    assert Marks(text, toks, p + 1) == Marks(text, toks, p) + [Mark(text[p], toks[i].side)];
    TextStep(Marks(text, toks, p), Mark(text[p], toks[i].side));
  }

  /**
   * Render a hunk: a title and the text itself when nothing changed, otherwise the headers and the body
   * of the line machine. The path and the line are what the hunk's URI says.
   */
  method FeedLineBased(into: Buffer, uri: seq<byte>, path: seq<byte>, line: nat, text: seq<byte>, toks: seq<Token>)
    requires Tiles(toks, |text|)
    modifies into
    ensures text == [] ==> into.data == old(into.data) + Title(uri) + [NEWLINE]
    ensures text != [] && !AnyDiff(toks) ==>
              into.data == old(into.data) + Title(uri) + text
                           + (if text[|text| - 1] != NEWLINE then [NEWLINE] else []) + [NEWLINE]
    ensures text != [] && AnyDiff(toks) ==>
              var ms := Covered(text, toks);
              var f := LineMachine.Finish(Run(ms));
              into.data == old(into.data) + Header(path, line, f.oldCount, f.newCount) + Render(Body(TraceOf(ms)))
  {
    hide Render, Body, Title, Header;
    var diff := HasDiff(toks);
    if text == [] {
      into.Feed(Title(uri));
      into.Feed1(NEWLINE);
    } else if !diff {
      into.Feed(Title(uri));
      into.Feed(text);
      NilRight(into.data);
      if text[|text| - 1] != NEWLINE {
        into.Feed1(NEWLINE);
      }
      into.Feed1(NEWLINE);
    } else {
      var body, oldCount, newCount := RenderDiff(text, toks);
      into.Feed(Header(path, line, oldCount, newCount));
      into.Feed(body);
    }
  }

  lemma NothingCovered(text: seq<byte>, toks: seq<Token>)
    ensures Run(Marks(text, toks, 0)) == INITIAL
  {
  }

  lemma HoldsBody(r: LineRenderer)
    requires r.Valid()
    ensures r.body.data == Render(Body(r.st.trace)) && r.oldCount == r.st.oldCount && r.newCount == r.st.newCount
  {
  }

  /** The body and the counts of a hunk with changes. */
  method RenderDiff(text: seq<byte>, toks: seq<Token>) returns (body: seq<byte>, oldCount: nat, newCount: nat)
    requires Tiles(toks, |text|)
    ensures var ms := Covered(text, toks);
      body == Render(Body(TraceOf(ms))) && oldCount == LineMachine.Finish(Run(ms)).oldCount
      && newCount == LineMachine.Finish(Run(ms)).newCount
  {
    hide Render, Body, Marks, Run, Step, LineMachine.Finish, LineRenderer.Valid;
    NothingCovered(text, toks);
    var r := new LineRenderer();
    var prev := 0;
    for i := 0 to |toks|
      invariant prev == Start(toks, i)
      invariant r.Valid() && r.st == Run(Marks(text, toks, prev))
      invariant fresh(r) && fresh(r.oldb) && fresh(r.newb) && fresh(r.dels) && fresh(r.adds) && fresh(r.body)
    {
      for p := prev to toks[i].end
        invariant r.Valid() && r.st == Run(Marks(text, toks, p))
      {
        MarksStep(text, toks, i, p);
        r.FeedByte(text[p], toks[i].side);
      }
      prev := toks[i].end;
    }
    r.Close();
    HoldsBody(r);
    return r.body.data, r.oldCount, r.newCount;
  }
}
