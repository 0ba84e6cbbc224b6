/** The branch session of a process (dog/HOME.c): which branches are open, and which one may be written. */
module Home {
  import opened Bytes
  import opened Branches

  const OPEN_MAX: nat := 16
  const DATA_SIZE: nat := 1024
  const NORM_SIZE: nat := 256

  datatype Outcome = OK | ALREADY | ROBR | MAX | NOROOM

  /** What a session is: the open branches in order, and whether the first of them may be written. */
  datatype Session = Session(branches: seq<seq<byte>>, frozen: bool)

  /** One call: a path as the caller spells it, and whether it is to be written. */
  datatype Call = Call(branch: seq<byte>, rw: bool)

  function Total(bs: seq<seq<byte>>): nat {
    if bs == [] then 0 else Total(bs[..|bs| - 1]) + |bs[|bs| - 1]|
  }

  /** What an open is answered. */
  function Answer(s: Session, c: Call): Outcome {
    var norm := Norm(c.branch);
    if |norm| > NORM_SIZE then NOROOM
    else if norm in s.branches then
      if c.rw && !(s.frozen && norm == s.branches[0]) then ROBR else ALREADY
    else if c.rw && s.branches != [] then ROBR
    else if |s.branches| >= OPEN_MAX || Total(s.branches) + |norm| > DATA_SIZE then MAX
    else OK
  }

  /** The session after an open: only a granted one changes it. */
  function Next(s: Session, c: Call): Session {
    if Answer(s, c) != OK then s
    else Session(s.branches + [Norm(c.branch)], s.frozen || (s.branches == [] && c.rw))
  }

  ghost predicate Distinct(bs: seq<seq<byte>>) {
    forall i, j :: 0 <= i < j < |bs| ==> bs[i] != bs[j]
  }

  /** The canonical form by way of a scratch buffer. */
  method Normalized(branch: seq<byte>) returns (ok: bool, norm: seq<byte>)
    ensures ok <==> |Norm(branch)| <= NORM_SIZE
    ensures ok ==> norm == Norm(branch)
  {
    hide Norm;
    var normbuf := new Pad(NORM_SIZE);
    ok := NormFeed(normbuf, branch);
    norm := normbuf.data;
    Seqs.NilLeft(Norm(branch));
  }

  /** What every session keeps. */
  ghost predicate Sound(s: Session) {
    && |s.branches| <= OPEN_MAX
    && Total(s.branches) <= DATA_SIZE
    && Distinct(s.branches)
    && (forall i :: 0 <= i < |s.branches| ==> Canonical(s.branches[i]))
    && (s.frozen ==> s.branches != [])
  }

  lemma NextIsSound(s: Session, c: Call)
    requires Sound(s)
    ensures Sound(Next(s, c))
  {
    hide Norm, Canonical;
    NormIsCanonical(c.branch);
    if Answer(s, c) == OK {
      assert (s.branches + [Norm(c.branch)])[..|s.branches|] == s.branches;
    }
  }

  // ---- The state in memory ----

  ghost predicate SlotsFit(data: seq<byte>, slots: seq<(nat, nat)>, count: nat) {
    count <= |slots| && forall i :: 0 <= i < count ==> slots[i].0 <= slots[i].1 <= |data|
  }

  /** Slots are slices of the interned bytes. */
  ghost function Slices(data: seq<byte>, slots: seq<(nat, nat)>, count: nat): (bs: seq<seq<byte>>)
    requires SlotsFit(data, slots, count)
    ensures |bs| == count && forall i :: 0 <= i < count ==> bs[i] == data[slots[i].0..slots[i].1]
  {
    seq(count, i requires 0 <= i < count => data[slots[i].0..slots[i].1])
  }

  lemma OneMoreSlice(data: seq<byte>, slots: seq<(nat, nat)>, count: nat, norm: seq<byte>)
    requires SlotsFit(data, slots, count) && count < |slots|
    ensures var more, longer := data + norm, slots[count := (|data|, |data + norm|)];
      SlotsFit(more, longer, count + 1) && Slices(more, longer, count + 1) == Slices(data, slots, count) + [norm]
  {
    var more, longer := data + norm, slots[count := (|data|, |data + norm|)];
    forall i | 0 <= i <= count ensures more[longer[i].0..longer[i].1] == (Slices(data, slots, count) + [norm])[i] {
      if i < count {
        HeadSlice(data, norm, slots[i].0, slots[i].1);
      } else {
        TailSlice(data, norm);
      }
    }
  }

  class HomeState {
    const data: Pad
    const slots: array<(nat, nat)>
    var count: nat
    var frozen: bool

    ghost predicate Valid()
      reads this, data, slots
    {
      && slots.Length == OPEN_MAX && data.room == DATA_SIZE && data.Valid()
      && SlotsFit(data.data, slots[..], count)
      && |data.data| == Total(Branches())
      && Sound(Abstract())
    }

    function SlotAt(i: nat): seq<byte>
      requires i < slots.Length && slots[i].0 <= slots[i].1 <= |data.data|
      reads this, data, slots
    {
      data.data[slots[i].0..slots[i].1]
    }

    ghost function Branches(): (bs: seq<seq<byte>>)
      requires SlotsFit(data.data, slots[..], count)
      reads this, data, slots
    {
      Slices(data.data, slots[..], count)
    }

    ghost function Abstract(): Session
      requires SlotsFit(data.data, slots[..], count)
      reads this, data, slots
    {
      Session(Branches(), frozen)
    }

    constructor ()
      ensures Valid() && fresh(data) && fresh(slots) && Abstract() == Session([], false)
    {
      data := new Pad(DATA_SIZE);
      slots := new (nat, nat)[OPEN_MAX](_ => (0, 0));
      count, frozen := 0, false;
    }

    method OpenBranch(branch: seq<byte>, rw: bool) returns (o: Outcome)
      requires Valid()
      modifies this, data, slots
      ensures Valid()
      ensures o == Answer(old(Abstract()), Call(branch, rw))
      ensures Abstract() == Next(old(Abstract()), Call(branch, rw))
    {
      hide Norm, Canonical, Distinct;
      ghost var was := Abstract();
      ghost var c := Call(branch, rw);
      NextIsSound(was, c);
      var ok, norm := Normalized(branch);
      if !ok {
        return NOROOM;
      }
      var i := FindSlot(norm);
      if i < count {
        assert was.branches[i] == norm;
        assert i != 0 ==> was.branches[0] != norm;
        return if rw && (i != 0 || !frozen) then ROBR else ALREADY;
      }
      if rw && count > 0 {
        return ROBR;
      }
      if count >= OPEN_MAX || |norm| > data.room - |data.data| {
        return MAX;
      }
      Intern(norm, rw);
      return OK;
    }

    /** The slot that holds the branch; the number of slots when none does. */
    method FindSlot(norm: seq<byte>) returns (i: nat)
      requires Valid()
      ensures i <= count && (i < count ==> Branches()[i] == norm)
      ensures forall k :: 0 <= k < i ==> Branches()[k] != norm
      ensures i == count ==> norm !in Branches()
    {
      hide Sound, Total;
      i := 0;
      while i < count && SlotAt(i) != norm
        invariant i <= count
        invariant forall k :: 0 <= k < i ==> Branches()[k] != norm
      {
        i := i + 1;
      }
    }

    /** Appends the branch's bytes and a slot for them. */
    method Intern(norm: seq<byte>, rw: bool)
      requires Valid() && count < OPEN_MAX && |data.data| + |norm| <= data.room
      requires Sound(Session(Branches() + [norm], frozen || (count == 0 && rw)))
      modifies this, data, slots
      ensures Valid()
      ensures Abstract() == Session(old(Branches()) + [norm], old(frozen) || (old(count) == 0 && rw))
    {
      hide Sound, SlotsFit, Slices, Total;
      OneMoreSlice(data.data, slots[..], count, norm);
      TotalMore(Branches(), norm);
      FitsArray(data.data, slots[..], count);
      var at := |data.data|;
      var ok := data.Feed(norm);
      slots[count] := (at, |data.data|);
      count := count + 1;
      if count == 1 && rw {
        frozen := true;
      }
      assert slots[..] == old(slots[..])[old(count) := (at, |data.data|)];
    }

    /** The branch that may be written, if there is one. */
    method WriteBranch() returns (found: bool, out: seq<byte>)
      requires Valid()
      ensures found == Abstract().frozen
      ensures found ==> out == Branches()[0]
    {
      if !frozen || count == 0 {
        return false, [];
      }
      return true, SlotAt(0);
    }

    /** Visible are the ancestors of the open branches. */
    method BranchVisible(branch: seq<byte>) returns (yes: bool)
      requires Valid()
      ensures yes <==> Visible(Abstract(), branch)
    {
      hide Sound, Total;
      for i := 0 to count
        invariant forall k :: 0 <= k < i ==> !Ancestor(branch, Branches()[k])
      {
        if Ancestor(branch, SlotAt(i)) {
          assert Ancestor(branch, Branches()[i]);
          return true;
        }
      }
      return false;
    }
  }

  lemma FitsArray(data: seq<byte>, slots: seq<(nat, nat)>, count: nat)
    requires SlotsFit(data, slots, count)
    ensures count <= |slots|
  {
  }

  lemma TailSlice(bytes: seq<byte>, norm: seq<byte>)
    ensures (bytes + norm)[|bytes|..|bytes + norm|] == norm
  {
  }

  lemma HeadSlice(bytes: seq<byte>, norm: seq<byte>, i: nat, j: nat)
    requires i <= j <= |bytes|
    ensures (bytes + norm)[i..j] == bytes[i..j]
  {
  }

  lemma TotalMore(bs: seq<seq<byte>>, b: seq<byte>)
    ensures Total(bs + [b]) == Total(bs) + |b|
  {
    assert (bs + [b])[..|bs|] == bs;
  }

  ghost predicate Visible(s: Session, branch: seq<byte>) {
    exists i :: 0 <= i < |s.branches| && Ancestor(branch, s.branches[i])
  }

  // ---- Whole runs ----

  function Run(calls: seq<Call>): Session {
    if calls == [] then Session([], false) else Next(Run(calls[..|calls| - 1]), calls[|calls| - 1])
  }

  /** What call k of a run was answered. */
  function AnswerAt(calls: seq<Call>, k: nat): Outcome
    requires k < |calls|
  {
    Answer(Run(calls[..k]), calls[k])
  }

  /** Every session a run reaches is sound. */
  lemma {:induction false} RunIsSound(calls: seq<Call>)
    ensures Sound(Run(calls))
  {
    if calls != [] {
      RunIsSound(calls[..|calls| - 1]);
      NextIsSound(Run(calls[..|calls| - 1]), calls[|calls| - 1]);
    }
  }

  lemma RunStep(calls: seq<Call>, k: nat)
    requires k < |calls|
    ensures Run(calls[..k + 1]) == Next(Run(calls[..k]), calls[k])
  {
    assert calls[..k + 1][..k] == calls[..k] && calls[..k + 1][k] == calls[k];
  }

  /** The branches of one session are those of the other, in the same slots, and then more. */
  ghost predicate Grown(a: Session, b: Session) {
    |a.branches| <= |b.branches| && forall i :: 0 <= i < |a.branches| ==> b.branches[i] == a.branches[i]
  }

  lemma NextGrows(s: Session, c: Call)
    ensures Grown(s, Next(s, c))
    ensures Answer(s, c) == OK ==>
      |Next(s, c).branches| == |s.branches| + 1 && Next(s, c).branches[|s.branches|] == Norm(c.branch)
  {
  }

  /** Open branches stay open, in their slots. */
  lemma {:induction false} BranchesStay(calls: seq<Call>, j: nat, k: nat)
    requires j <= k <= |calls|
    ensures Grown(Run(calls[..j]), Run(calls[..k]))
    decreases k - j
  {
    hide Run, Next;
    if j < k {
      RunStep(calls, j);
      NextGrows(Run(calls[..j]), calls[j]);
      BranchesStay(calls, j + 1, k);
    }
  }

  /** A granted open has its branch in the slot that was the first free one. */
  lemma Granted(calls: seq<Call>, j: nat, k: nat)
    requires j < k <= |calls| && AnswerAt(calls, j) == OK
    ensures var at := |Run(calls[..j]).branches|;
      at < |Run(calls[..k]).branches| && Run(calls[..k]).branches[at] == Norm(calls[j].branch)
  {
    hide Run, Next, Answer;
    RunStep(calls, j);
    NextGrows(Run(calls[..j]), calls[j]);
    BranchesStay(calls, j + 1, k);
  }

  /** Call k was the first one granted. */
  ghost predicate FirstGranted(calls: seq<Call>, k: nat) {
    k < |calls| && AnswerAt(calls, k) == OK && forall j :: 0 <= j < k ==> AnswerAt(calls, j) != OK
  }

  /** Before the first granted open there is nothing, and nothing to write. */
  lemma {:induction false} NothingBefore(calls: seq<Call>, k: nat)
    requires k <= |calls| && forall j :: 0 <= j < k ==> AnswerAt(calls, j) != OK
    ensures Run(calls[..k]) == Session([], false)
    decreases k
  {
    hide Answer;
    if k > 0 {
      NothingBefore(calls, k - 1);
      RunStep(calls, k - 1);
      assert AnswerAt(calls, k - 1) != OK;
    }
  }

  /** Once a branch is open, no open makes the session writable or takes that back. */
  lemma {:induction false} FrozenStays(calls: seq<Call>, j: nat, k: nat)
    requires j <= k <= |calls| && Run(calls[..j]).branches != []
    ensures Run(calls[..k]).frozen == Run(calls[..j]).frozen
    decreases k - j
  {
    if j < k {
      hide Run, Answer;
      RunStep(calls, j);
      NextGrows(Run(calls[..j]), calls[j]);
      FrozenStays(calls, j + 1, k);
    }
  }

  /**
   * The first granted open decides for good: from then on the session is writable exactly when that open asked for it,
   * and slot 0, which is then the write branch, is that open's branch.
   */
  lemma FirstOpenDecides(calls: seq<Call>, j: nat, k: nat)
    requires FirstGranted(calls, j) && j < k <= |calls|
    ensures Run(calls[..k]).branches != [] && Run(calls[..k]).branches[0] == Norm(calls[j].branch)
    ensures Run(calls[..k]).frozen == calls[j].rw
  {
    hide Run, Answer;
    NothingBefore(calls, j);
    Granted(calls, j, k);
    Granted(calls, j, j + 1);
    RunStep(calls, j);
    FrozenStays(calls, j + 1, k);
  }

  lemma {:induction false} SomeFirst(calls: seq<Call>, n: nat) returns (k: nat)
    requires n <= |calls| && Run(calls[..n]).branches != []
    ensures k < n && FirstGranted(calls, k)
  {
    hide Run, Answer;
    if n == 0 {
      EmptyRun(calls[..0]);
      assert false;
    }
    RunStep(calls, n - 1);
    if Run(calls[..n - 1]).branches != [] {
      k := SomeFirst(calls, n - 1);
    } else {
      k := n - 1;
      forall j | 0 <= j < k ensures AnswerAt(calls, j) != OK {
        if AnswerAt(calls, j) == OK {
          Granted(calls, j, k);
          assert false;
        }
      }
    }
  }

  lemma EmptyRun(calls: seq<Call>)
    requires calls == []
    ensures Run(calls) == Session([], false)
  {
  }

  /** Only the first granted open may have been for writing; the session is writable exactly when it was. */
  lemma WritableIffGranted(calls: seq<Call>, k: nat)
    requires k <= |calls|
    ensures Run(calls[..k]).frozen <==> exists j: nat :: j < k && FirstGranted(calls, j) && calls[j].rw
    ensures forall j: nat :: j < k && AnswerAt(calls, j) == OK && calls[j].rw ==> FirstGranted(calls, j)
  {
    RunIsSound(calls[..k]);
    if Run(calls[..k]).branches != [] {
      var f := SomeFirst(calls, k);
      FirstOpenDecides(calls, f, k);
      hide Run;
      forall j: nat | j < k && AnswerAt(calls, j) == OK && calls[j].rw ensures FirstGranted(calls, j) {
        RefusedLater(calls, f, j);
      }
    } else {
      hide Run, Answer;
      forall j: nat | j < k ensures AnswerAt(calls, j) != OK {
        if AnswerAt(calls, j) == OK {
          Granted(calls, j, k);
          assert false;
        }
      }
    }
  }

  lemma RefusedLater(calls: seq<Call>, f: nat, j: nat)
    requires FirstGranted(calls, f) && j < |calls| && AnswerAt(calls, j) == OK && calls[j].rw
    ensures j == f
  {
    if f < j {
      Granted(calls, f, j);
    }
  }

  /**
   * The first call decides for good whether the session is writable exactly when its path fits the scratch buffer: on
   * an empty session nothing else refuses it.
   */
  lemma FirstCallDecides(c: Call)
    ensures (forall more :: Run([c] + more).frozen == c.rw) <==> |Norm(c.branch)| <= NORM_SIZE
  {
    if |Norm(c.branch)| <= NORM_SIZE {
      forall more ensures Run([c] + more).frozen == c.rw {
        FittingCallDecides(c, more);
      }
    } else {
      SecondCallDecides(c, Call([], !c.rw));
      assert Run([c] + [Call([], !c.rw)]).frozen != c.rw;
    }
  }

  lemma FittingCallDecides(c: Call, more: seq<Call>)
    requires |Norm(c.branch)| <= NORM_SIZE
    ensures Run([c] + more).frozen == c.rw
  {
    hide Norm;
    var calls := [c] + more;
    assert calls[..0] == [] && calls[..|calls|] == calls;
    EmptyRun([]);
    assert Answer(Run(calls[..0]), c) == OK;
    hide Run, Answer;
    assert FirstGranted(calls, 0);
    FirstOpenDecides(calls, 0, |calls|);
  }

  lemma SecondCallDecides(c: Call, d: Call)
    requires |Norm(c.branch)| > NORM_SIZE && |Norm(d.branch)| <= NORM_SIZE
    ensures Run([c] + [d]).frozen == d.rw && Run([c] + [d]).branches == [Norm(d.branch)]
  {
    hide Norm;
    var calls := [c] + [d];
    assert calls[..0] == [] && calls[..1] == [c] && calls[..2] == calls;
    EmptyRun(calls[..0]);
    RunStep(calls, 0);
    RunStep(calls, 1);
    hide Run;
    assert Answer(Session([], false), c) == NOROOM;
    assert Answer(Session([], false), d) == OK;
  }

  /** A name of 256 times `x`, one byte too long with its slash. */
  function LongName(): seq<byte> {
    seq(NORM_SIZE, _ => 120)
  }

  /**
   * Opened for writing first, it leaves a session that the trunk, opened next for reading, keeps from ever being
   * writable.
   */
  lemma FirstCallCanFail(more: seq<Call>)
    ensures Answer(Session([], false), Call(LongName(), true)) == NOROOM
    ensures !Run([Call(LongName(), true)] + [Call([], false)] + more).frozen
  {
    var long, c := LongName(), Call(LongName(), true);
    assert Bare(long);
    BareStays(long);
    assert |long| == NORM_SIZE;
    assert !TrunkAlias(long);
    hide Run, Norm, TrimLeft, TrimRight, LongName;
    SecondCallDecides(c, Call([], false));
    var calls := [c] + [Call([], false)];
    assert (calls + more)[..|calls|] == calls && (calls + more)[..|calls + more|] == calls + more;
    FrozenStays(calls + more, |calls|, |calls + more|);
  }

  /** A branch once open is never opened again, however it is spelled. */
  lemma OpenedOnce(calls: seq<Call>, j: nat, k: nat)
    requires j < k < |calls| && AnswerAt(calls, j) == OK && Norm(calls[j].branch) == Norm(calls[k].branch)
    ensures AnswerAt(calls, k) == if calls[k].rw && !(FirstGranted(calls, j) && calls[j].rw) then ROBR else ALREADY
  {
    hide Run, Norm;
    var s := Run(calls[..k]);
    Granted(calls, j, k);
    assert Norm(calls[k].branch) in s.branches;
    var f := SomeFirst(calls, k);
    FirstOpenDecides(calls, f, k);
    if f < j {
      Granted(calls, f, j);
      var at := |Run(calls[..j]).branches|;
      RunIsSound(calls[..k]);
      assert s.branches[0] != s.branches[at];
    }
  }

  // ---- Every answer, from the answers before ----

  /** How many of the first k calls were granted. */
  function GrantedCount(calls: seq<Call>, k: nat): nat
    requires k <= |calls|
  {
    if k == 0 then 0 else GrantedCount(calls, k - 1) + if AnswerAt(calls, k - 1) == OK then 1 else 0
  }

  /** How many bytes the canonical paths of those have. */
  function GrantedBytes(calls: seq<Call>, k: nat): nat
    requires k <= |calls|
  {
    if k == 0 then 0
    else GrantedBytes(calls, k - 1) + if AnswerAt(calls, k - 1) == OK then |Norm(calls[k - 1].branch)| else 0
  }

  /** Call j was granted, for this canonical path. */
  ghost predicate GrantedFor(calls: seq<Call>, j: nat, norm: seq<byte>) {
    j < |calls| && AnswerAt(calls, j) == OK && Norm(calls[j].branch) == norm
  }

  ghost predicate GrantedBefore(calls: seq<Call>, k: nat, norm: seq<byte>) {
    exists j: nat :: j < k && GrantedFor(calls, j, norm)
  }

  lemma GrantedBeforeStep(calls: seq<Call>, k: nat, norm: seq<byte>)
    ensures GrantedBefore(calls, k + 1, norm) <==> GrantedBefore(calls, k, norm) || GrantedFor(calls, k, norm)
  {
    hide GrantedFor;
  }

  lemma NoneBefore(calls: seq<Call>, norm: seq<byte>)
    ensures !GrantedBefore(calls, 0, norm)
  {
  }

  lemma BranchAdded(s: Session, c: Call, norm: seq<byte>)
    ensures var t := Next(s, c);
      |t.branches| == |s.branches| + (if Answer(s, c) == OK then 1 else 0)
      && Total(t.branches) == Total(s.branches) + (if Answer(s, c) == OK then |Norm(c.branch)| else 0)
      && (norm in t.branches <==> norm in s.branches || (Answer(s, c) == OK && Norm(c.branch) == norm))
  {
    hide Norm, Total, Answer;
    TotalMore(s.branches, Norm(c.branch));
  }

  lemma {:induction false} HistoryHolds(calls: seq<Call>, k: nat, norm: seq<byte>)
    requires k <= |calls|
    ensures var bs := Run(calls[..k]).branches;
      |bs| == GrantedCount(calls, k) && Total(bs) == GrantedBytes(calls, k)
      && (norm in bs <==> GrantedBefore(calls, k, norm))
  {
    hide Run, Norm, Answer, Next, GrantedBefore;
    if k == 0 {
      EmptyRun(calls[..0]);
      NoneBefore(calls, norm);
    } else {
      hide Total;
      HistoryHolds(calls, k - 1, norm);
      RunStep(calls, k - 1);
      BranchAdded(Run(calls[..k - 1]), calls[k - 1], norm);
      GrantedBeforeStep(calls, k - 1, norm);
    }
  }

  /** When an open is granted, and when there is no room for it or it may not be for writing. */
  lemma GrantedIff(calls: seq<Call>, k: nat)
    requires k < |calls|
    ensures var norm, rw := Norm(calls[k].branch), calls[k].rw;
      var n, unopened := GrantedCount(calls, k), !GrantedBefore(calls, k, norm);
      var full := n >= 16 || GrantedBytes(calls, k) + |norm| > 1024;
      && (AnswerAt(calls, k) == OK <==> |norm| <= 256 && unopened && (rw ==> n == 0) && !full)
      && (AnswerAt(calls, k) == NOROOM <==> |norm| > 256)
      && (AnswerAt(calls, k) == MAX <==> |norm| <= 256 && unopened && (rw ==> n == 0) && full)
      && (unopened ==> (AnswerAt(calls, k) == ROBR <==> |norm| <= 256 && rw && n > 0))
      && (AnswerAt(calls, k) == ALREADY ==> !unopened)
  {
    hide Run, Norm, Total, GrantedBefore;
    HistoryHolds(calls, k, Norm(calls[k].branch));
  }

  /** An ancestor of a visible branch is visible, and nothing stops being visible. */
  lemma VisibilityIsClosed(calls: seq<Call>, more: seq<Call>, a: seq<byte>, b: seq<byte>)
    requires Visible(Run(calls), b) && Ancestor(a, b)
    ensures Visible(Run(calls), a) && Visible(Run(calls + more), a)
  {
    var i :| 0 <= i < |Run(calls).branches| && Ancestor(b, Run(calls).branches[i]);
    AncestorIsPartialOrder(a, b, Run(calls).branches[i]);
    assert (calls + more)[..|calls|] == calls && (calls + more)[..|calls + more|] == calls + more;
    BranchesStay(calls + more, |calls|, |calls + more|);
    assert Run(calls + more).branches[i] == Run(calls).branches[i];
  }

  /** An open that is granted makes its branch visible, and every branch above it. */
  lemma GrantedIsVisible(calls: seq<Call>, c: Call, above: seq<byte>)
    requires Answer(Run(calls), c) == OK && Ancestor(above, Norm(c.branch))
    ensures Visible(Run(calls + [c]), above)
  {
    assert (calls + [c])[..|calls|] == calls;
    var n := |Run(calls).branches|;
    assert Run(calls + [c]).branches[n] == Norm(c.branch);
  }
}
