/**
  A message through a pipe (04-process-management/pipe.c).

  The parent writes until all bytes are accepted; the child reads into a buffer that doubles.
  The kernel may accept or deliver any smaller number of bytes, interrupt a write, or fail a
  call.  The pipe's capacity, BUFSIZE and the message are symbolic.
 */
module PipeTransfer {
  import opened Runs
  import opened Buffers

  // ----- The child's buffer

  datatype Store = Store(buf: seq<char>, n: nat, cap: nat) {
    predicate Valid() { |buf| == cap + 1 && n <= cap }
  }

  function Received(st: Store): seq<char> { if st.n <= |st.buf| then st.buf[..st.n] else st.buf }

  function Fill(st: Store, data: seq<char>): Store
    requires st.n + |data| <= |st.buf|
  {
    Store(st.buf[..st.n] + data + st.buf[st.n + |data|..], st.n + |data|, st.cap)
  }

  /** The doubling after a read; realloc keeps the old bytes and leaves the new ones unspecified. */
  ghost predicate Grown(st: Store, bufSize: nat, st': Store) {
    && st'.n == st.n
    && st'.cap == (if st.n + bufSize > st.cap then 2 * st.cap else st.cap)
    && |st'.buf| == st'.cap + 1
    && st.buf <= st'.buf
  }

  class ChildBuffer {
    var buf: array<char>
    var n: nat
    var cap: nat

    ghost function View(): Store
      reads this, buf
    {
      Store(buf[..], n, cap)
    }

    constructor (bufSize: nat)
      ensures fresh(buf) && View().Valid() && n == 0 && cap == bufSize
    {
      buf := new char[bufSize + 1];
      n, cap := 0, bufSize;
    }

    /** read(pd[0], buf + n, bufSize) returning the bytes in data: there must be room for bufSize. */
    method ReadChunk(bufSize: nat, data: seq<char>)
      requires n + bufSize <= buf.Length && |data| <= bufSize
      modifies this`n, buf
      ensures View() == Fill(old(View()), data)
    {
      ghost var was := buf[..];
      ReadInto(buf, n, bufSize, data);
      assert buf[..] == was[..n] + data + was[n + |data|..];
      n := n + |data|;
    }

    method Grow(bufSize: nat)
      requires View().Valid() && bufSize <= cap
      modifies this
      ensures Grown(old(View()), bufSize, View())
      ensures buf == old(buf) || fresh(buf)
    {
      if n + bufSize > cap {
        cap := cap * 2;
        buf := Realloc(buf, cap + 1);
      }
    }
  }

  // ----- The two processes

  // `interrupts` bounds how often a write fails with EINTR in the whole run.
  datatype Config = Config(msg: seq<char>, bufSize: nat, capacity: nat, interrupts: nat) {
    predicate Valid() { bufSize > 0 && capacity > 0 }
  }

  datatype ParentPc = Write | CloseRead | CloseWrite | ParentExit(ok: bool)

  datatype ChildPc = CloseOwnWrite | Read | Check | Finished | ChildFailed

  datatype State = State(
    sent: nat, pipe: seq<char>, parent: ParentPc, child: ChildPc, store: Store, overflow: bool, interrupts: nat)

  datatype Action =
    | ParentWrite(m: nat) | ParentInterrupted | ParentError | ParentStep
    | ChildRead(m: nat) | ChildEof | ChildError | ChildStep

  ghost predicate Init(cfg: Config, s: State) {
    && cfg.Valid()
    && s.store.Valid() && s.store.n == 0 && s.store.cap == cfg.bufSize
    && s == State(0, [], Write, CloseOwnWrite, s.store, false, cfg.interrupts)
  }

  /** Some process still has the write end open. */
  predicate WriterLeft(s: State) { !s.parent.ParentExit? || s.child == CloseOwnWrite }

  predicate Enabled(cfg: Config, s: State, a: Action) {
    match a
    case ParentWrite(m) =>
      s.parent == Write && s.sent < |cfg.msg| && 0 < m <= |cfg.msg| - s.sent && |s.pipe| + m <= cfg.capacity
    case ParentInterrupted => s.parent == Write && s.sent < |cfg.msg| && s.interrupts > 0
    case ParentError => s.parent == Write && s.sent < |cfg.msg|
    case ParentStep => if s.parent == Write then s.sent >= |cfg.msg| else !s.parent.ParentExit?
    case ChildRead(m) => s.child == Read && 0 < m <= |s.pipe| && m <= cfg.bufSize
    case ChildEof => s.child == Read && s.pipe == [] && !WriterLeft(s)
    case ChildError => s.child == Read
    case ChildStep => s.child == CloseOwnWrite || s.child == Check
  }

  ghost predicate Step(cfg: Config, s: State, a: Action, s': State) {
    && Enabled(cfg, s, a)
    && match a
       case ParentWrite(m) =>
         s' == s.(sent := s.sent + m, pipe := s.pipe + cfg.msg[s.sent..s.sent + m])
       case ParentInterrupted => s' == s.(interrupts := s.interrupts - 1)
       case ParentError => s' == s.(parent := ParentExit(false))
       case ParentStep =>
         s' == s.(parent := if s.parent == Write then CloseRead
                            else if s.parent == CloseRead then CloseWrite else ParentExit(true))
       case ChildRead(m) =>
         if s.store.n + cfg.bufSize > |s.store.buf| then s' == s.(overflow := true)
         else s' == s.(pipe := s.pipe[m..], store := Fill(s.store, s.pipe[..m]), child := Check)
       case ChildEof => s' == s.(child := Finished)
       case ChildError => s' == s.(child := ChildFailed)
       case ChildStep =>
         if s.child == CloseOwnWrite then s' == s.(child := Read)
         else Grown(s.store, cfg.bufSize, s'.store) && s' == s.(child := Read, store := s'.store)
  }

  ghost predicate Next(cfg: Config, s: State, s': State) {
    exists a :: Step(cfg, s, a, s')
  }

  ghost function Sys(cfg: Config): System<State> {
    System(s => Init(cfg, s), (s, s') => Next(cfg, s, s'))
  }

  // ----- The size of the buffer

  /** cap is b, 2b, 4b, ... */
  ghost predicate Doubling(b: nat, cap: nat) {
    cap == b || (cap > b && cap % 2 == 0 && Doubling(b, cap / 2))
  }

  /** The first of b, 2b, 4b, ... that is at least `need`. */
  function Doubled(b: nat, need: nat): nat
    requires b > 0
    decreases need - b
  {
    if b >= need then b else Doubled(2 * b, need)
  }

  lemma {:induction false} DoublingFromTwice(b: nat, cap: nat)
    requires b > 0 && Doubling(b, cap) && cap > b
    ensures Doubling(2 * b, cap) && cap >= 2 * b
    decreases cap
  {
    if cap / 2 > b {
      DoublingFromTwice(b, cap / 2);
    }
  }

  lemma {:induction false} DoubledIs(b: nat, cap: nat, need: nat)
    requires b > 0 && Doubling(b, cap) && need <= cap && (cap == b || cap < 2 * need)
    ensures Doubled(b, need) == cap
    decreases need - b
  {
    if cap > b {
      DoublingFromTwice(b, cap);
      DoubledIs(2 * b, cap, need);
    }
  }

  // ----- Invariant

  ghost predicate Inv(cfg: Config, s: State) {
    && cfg.Valid() && s.store.Valid() && !s.overflow
    && s.sent <= |cfg.msg| && |s.pipe| <= cfg.capacity
    && Received(s.store) + s.pipe == cfg.msg[..s.sent]
    && Doubling(cfg.bufSize, s.store.cap) && s.store.cap < 2 * (s.store.n + cfg.bufSize)
    && (s.child == CloseOwnWrite || s.child == Read ==> s.store.n + cfg.bufSize <= s.store.cap)
    && (s.child == Finished ==> s.pipe == [] && s.parent.ParentExit?)
    && (s.parent == CloseRead || s.parent == CloseWrite || s.parent == ParentExit(true) ==> s.sent == |cfg.msg|)
    && (s.parent == ParentExit(false) ==> s.sent < |cfg.msg|)
  }

  lemma ReadKeepsInv(cfg: Config, s: State, m: nat, s': State)
    requires Inv(cfg, s) && Step(cfg, s, ChildRead(m), s')
    ensures Inv(cfg, s')
  {
    assert Received(s'.store) == Received(s.store) + s.pipe[..m];
    assert s.pipe == s.pipe[..m] + s.pipe[m..];
  }

  lemma WriteKeepsInv(cfg: Config, s: State, m: nat, s': State)
    requires Inv(cfg, s) && Step(cfg, s, ParentWrite(m), s')
    ensures Inv(cfg, s')
  {
    assert cfg.msg[..s.sent + m] == cfg.msg[..s.sent] + cfg.msg[s.sent..s.sent + m];
  }

  lemma StepKeepsInv(cfg: Config, s: State, a: Action, s': State)
    requires Inv(cfg, s) && Step(cfg, s, a, s')
    ensures Inv(cfg, s')
  {
    match a
    case ChildRead(m) => ReadKeepsInv(cfg, s, m, s');
    case ParentWrite(m) => WriteKeepsInv(cfg, s, m, s');
    case _ => assert Received(s'.store) == Received(s.store);
  }

  lemma InvInductive(cfg: Config)
    ensures Inductive(Sys(cfg), s => Inv(cfg, s))
  {
    forall s, s' | Inv(cfg, s) && Next(cfg, s, s') ensures Inv(cfg, s') {
      var a :| Step(cfg, s, a, s');
      StepKeepsInv(cfg, s, a, s');
    }
  }

  lemma ReachableInv(cfg: Config, s: State)
    requires Reachable(Sys(cfg), s)
    ensures Inv(cfg, s)
  {
    InvInductive(cfg);
    InvariantIfReachable(Sys(cfg), s => Inv(cfg, s), s);
  }

  // ----- What arrives

  /**
    Every read has room for BUFSIZE bytes and the terminator: one doubling is always enough.  And the
    buffer is never larger than that takes: before a read its capacity is the first of BUFSIZE,
    2 BUFSIZE, 4 BUFSIZE, ... with that room.
   */
  lemma ReadsAlwaysFit(cfg: Config, s: State)
    requires Reachable(Sys(cfg), s)
    ensures !s.overflow && s.store.n <= s.store.cap && |s.store.buf| == s.store.cap + 1
    ensures s.store.cap < 2 * (s.store.n + cfg.bufSize)
    ensures s.child == Read ==> s.store.n + cfg.bufSize <= s.store.cap == Doubled(cfg.bufSize, s.store.n + cfg.bufSize)
  {
    ReachableInv(cfg, s);
    if s.child == Read {
      DoubledIs(cfg.bufSize, s.store.cap, s.store.n + cfg.bufSize);
    }
  }

  /**
    At end of file the child's buffer holds what the parent got written, in order; that is the
    whole message exactly when no write of the parent failed.
   */
  lemma ChildGetsTheMessage(cfg: Config, s: State)
    requires Reachable(Sys(cfg), s) && s.child == Finished
    ensures s.sent <= |cfg.msg| && Received(s.store) == cfg.msg[..s.sent]
    ensures Received(s.store) == cfg.msg <==> s.parent == ParentExit(true)
  {
    ReachableInv(cfg, s);
    assert Received(s.store) + [] == Received(s.store);
  }

  /** The parent's way along a run: it exits well only after it has closed both its ends. */
  lemma {:induction false} ParentClosesBothEnds(cfg: Config, run: seq<State>, k: nat)
    requires IsRun(Sys(cfg), run) && k < |run|
    ensures run[k].parent == CloseWrite ==> exists i :: 0 <= i < k && run[i].parent == CloseRead
    ensures run[k].parent == ParentExit(true) ==>
              exists i, j :: 0 <= i < j < k && run[i].parent == CloseRead && run[j].parent == CloseWrite
  {
    if k > 0 {
      ParentClosesBothEnds(cfg, run, k - 1);
      assert Next(cfg, run[k - 1], run[k]);
    }
  }

  // ----- Progress

  /** Actions that are neither failures nor interruptions. */
  predicate Useful(a: Action) { !a.ParentInterrupted? && !a.ParentError? && !a.ChildError? }

  predicate BothEnded(s: State) { s.parent.ParentExit? && (s.child == Finished || s.child == ChildFailed) }

  /**
    The child has failed and left the parent in front of a full pipe: the parent keeps its own read
    end open, so no error comes back.
   */
  predicate Blocked(cfg: Config, s: State) {
    s.child == ChildFailed && s.parent == Write && s.sent < |cfg.msg| && |s.pipe| == cfg.capacity
  }

  ghost predicate Stuck(cfg: Config, s: State) { forall a :: Useful(a) ==> !Enabled(cfg, s, a) }

  /** Nothing can go on exactly when both have ended or the parent is blocked. */
  lemma StuckExactlyWhen(cfg: Config, s: State)
    requires Reachable(Sys(cfg), s)
    ensures Stuck(cfg, s) <==> BothEnded(s) || Blocked(cfg, s)
  {
    ReachableInv(cfg, s);
    if Stuck(cfg, s) {
      assert !Enabled(cfg, s, ParentWrite(1)) && !Enabled(cfg, s, ParentStep);
      assert !Enabled(cfg, s, ChildRead(1)) && !Enabled(cfg, s, ChildEof) && !Enabled(cfg, s, ChildStep);
    }
  }

  // ----- When the parent can block

  lemma Move(cfg: Config, s: State, a: Action, s': State)
    requires Reachable(Sys(cfg), s) && Step(cfg, s, a, s')
    ensures Reachable(Sys(cfg), s')
  {
    assert Next(cfg, s, s');
    ReachableNext(Sys(cfg), s, s');
  }

  lemma ChildReads(cfg: Config) returns (s: State)
    requires cfg.Valid()
    ensures Reachable(Sys(cfg), s) && s.child == Read && s.parent == Write && s.sent == 0 && s.pipe == []
  {
    var store := Store(seq(cfg.bufSize + 1, _ => 'x'), 0, cfg.bufSize);
    var s0 := State(0, [], Write, CloseOwnWrite, store, false, cfg.interrupts);
    InitialIsReachable(Sys(cfg), s0);
    s := s0.(child := Read);
    Move(cfg, s0, ChildStep, s);
  }

  lemma ChildFailsFirst(cfg: Config) returns (s: State)
    requires cfg.Valid()
    ensures Reachable(Sys(cfg), s) && s.child == ChildFailed && s.parent == Write && s.sent == 0 && s.pipe == []
  {
    var before := ChildReads(cfg);
    s := before.(child := ChildFailed);
    Move(cfg, before, ChildError, s);
  }

  /** With nobody reading, the parent fills the pipe byte by byte. */
  lemma {:induction false} PipeFills(cfg: Config, k: nat) returns (s: State)
    requires cfg.Valid() && k <= cfg.capacity && k <= |cfg.msg|
    ensures Reachable(Sys(cfg), s) && s.child == ChildFailed && s.parent == Write && s.sent == |s.pipe| == k
  {
    if k == 0 {
      s := ChildFailsFirst(cfg);
    } else {
      var before := PipeFills(cfg, k - 1);
      s := before.(sent := k, pipe := before.pipe + cfg.msg[k - 1..k]);
      Move(cfg, before, ParentWrite(1), s);
    }
  }

  /** A run that blocks the parent: only a failing or interrupted write could follow. */
  lemma ParentBlocks(cfg: Config) returns (s: State)
    requires cfg.Valid() && |cfg.msg| > cfg.capacity
    ensures Reachable(Sys(cfg), s) && Blocked(cfg, s)
    ensures forall a :: Enabled(cfg, s, a) ==> a.ParentInterrupted? || a.ParentError?
  {
    s := PipeFills(cfg, cfg.capacity);
  }

  lemma BlockedMessageIsLonger(cfg: Config, s: State)
    requires Reachable(Sys(cfg), s) && Blocked(cfg, s)
    ensures |cfg.msg| > cfg.capacity
  {
    ReachableInv(cfg, s);
    assert |Received(s.store) + s.pipe| == s.sent;
  }

  /** The parent can block exactly when the message is longer than the pipe; otherwise both always end. */
  lemma ParentCanBlockIff(cfg: Config)
    requires cfg.Valid()
    ensures (exists s :: Reachable(Sys(cfg), s) && Blocked(cfg, s)) <==> |cfg.msg| > cfg.capacity
    ensures (forall s :: Reachable(Sys(cfg), s) && Stuck(cfg, s) ==> BothEnded(s)) <==> |cfg.msg| <= cfg.capacity
  {
    forall s | Reachable(Sys(cfg), s) ensures Stuck(cfg, s) <==> BothEnded(s) || Blocked(cfg, s) {
      StuckExactlyWhen(cfg, s);
    }
    if |cfg.msg| > cfg.capacity {
      var s := ParentBlocks(cfg);
      assert Stuck(cfg, s) && !BothEnded(s);
    } else {
      forall s | Reachable(Sys(cfg), s) ensures !Blocked(cfg, s) {
        if Blocked(cfg, s) {
          BlockedMessageIsLonger(cfg, s);
        }
      }
    }
  }

  /** Both processes keep pace: k bytes are through, and the child waits for the next. */
  lemma {:induction false} BytesGetThrough(cfg: Config, k: nat) returns (s: State)
    requires cfg.Valid() && k <= |cfg.msg|
    ensures Reachable(Sys(cfg), s) && s.parent == Write && s.child == Read && s.sent == k && s.pipe == []
  {
    if k == 0 {
      s := ChildReads(cfg);
    } else {
      s := BytesGetThrough(cfg, k - 1);
      s := Take(cfg, s, ParentWrite(1));
      s := Take(cfg, s, ChildRead(1));
      s := Take(cfg, s, ChildStep);
    }
  }

  lemma Take(cfg: Config, s: State, a: Action) returns (s': State)
    requires Reachable(Sys(cfg), s) && Enabled(cfg, s, a) && Useful(a)
    ensures Reachable(Sys(cfg), s') && Step(cfg, s, a, s') && Inv(cfg, s')
  {
    ReachableInv(cfg, s);
    s' := SomeStep(cfg, s, a);
    Move(cfg, s, a, s');
    ReachableInv(cfg, s');
  }

  /** A write can fail at any point, and then any proper prefix of the message may be all that arrives. */
  lemma AnyPrefixCanArrive(cfg: Config, k: nat) returns (s: State)
    requires cfg.Valid() && k < |cfg.msg|
    ensures Reachable(Sys(cfg), s) && s.child == Finished && Received(s.store) == cfg.msg[..k]
  {
    var before := BytesGetThrough(cfg, k);
    var failed := before.(parent := ParentExit(false));
    Move(cfg, before, ParentError, failed);
    s := Take(cfg, failed, ChildEof);
    ChildGetsTheMessage(cfg, s);
  }

  // ----- Every run ends

  function ParentCost(p: ParentPc): nat {
    match p
    case Write => 3
    case CloseRead => 2
    case CloseWrite => 1
    case ParentExit(_) => 0
  }

  function ChildCost(p: ChildPc): nat {
    match p
    case CloseOwnWrite => 2
    case Check => 2
    case Read => 1
    case _ => 0
  }

  function Measure(cfg: Config, s: State): int {
    3 * (|cfg.msg| - s.sent) + 2 * |s.pipe| + ParentCost(s.parent) + ChildCost(s.child) + s.interrupts
  }

  lemma StepMakesProgress(cfg: Config, s: State, a: Action, s': State)
    requires Inv(cfg, s) && Step(cfg, s, a, s')
    ensures Measure(cfg, s') < Measure(cfg, s)
  {
  }

  lemma NextMakesProgress(cfg: Config, s: State, s': State)
    requires Inv(cfg, s) && Next(cfg, s, s')
    ensures 0 <= Measure(cfg, s') < Measure(cfg, s)
  {
    var a :| Step(cfg, s, a, s');
    StepMakesProgress(cfg, s, a, s');
    StepKeepsInv(cfg, s, a, s');
  }

  lemma DeadEnd(cfg: Config, s: State)
    requires Reachable(Sys(cfg), s) && forall s' :: !Next(cfg, s, s')
    requires s.child != ChildFailed && s.parent != ParentExit(false)
    ensures s.child == Finished && Received(s.store) == cfg.msg
  {
    ReachableInv(cfg, s);
    NothingEnabled(cfg, s);
    StuckExactlyWhen(cfg, s);
    ChildGetsTheMessage(cfg, s);
  }

  /** Every run ends; one without a failed call ends with the whole message in the child's buffer. */
  lemma EveryRunEnds(cfg: Config, run: seq<State>)
    requires IsRun(Sys(cfg), run)
    ensures |run| <= 3 * |cfg.msg| + cfg.interrupts + 6
    ensures var last := run[|run| - 1];
            (forall s' :: !Next(cfg, last, s')) && last.child != ChildFailed && last.parent != ParentExit(false) ==>
              last.child == Finished && Received(last.store) == cfg.msg
  {
    InvInductive(cfg);
    var measure: State -> nat := (s: State) => if Measure(cfg, s) < 0 then 0 else Measure(cfg, s);
    forall s, s' | Inv(cfg, s) && Next(cfg, s, s') ensures measure(s') < measure(s) {
      NextMakesProgress(cfg, s, s');
    }
    RunIsBounded(Sys(cfg), s => Inv(cfg, s), measure, run, |run| - 1);
    var last := run[|run| - 1];
    assert Reachable(Sys(cfg), last);
    if (forall s' :: !Next(cfg, last, s')) && last.child != ChildFailed && last.parent != ParentExit(false) {
      DeadEnd(cfg, last);
    }
  }

  /** acts are the actions behind the run. */
  ghost predicate IsTrace(cfg: Config, run: seq<State>, acts: seq<Action>) {
    && run != [] && Init(cfg, run[0]) && |acts| == |run| - 1
    && forall i :: 0 <= i < |acts| ==> Step(cfg, run[i], acts[i], run[i + 1])
  }

  lemma TraceIsRun(cfg: Config, run: seq<State>, acts: seq<Action>)
    requires IsTrace(cfg, run, acts)
    ensures IsRun(Sys(cfg), run)
  {
    forall i | 0 < i < |run| ensures Next(cfg, run[i - 1], run[i]) {
      assert Step(cfg, run[i - 1], acts[i - 1], run[i - 1 + 1]);
    }
  }

  lemma {:induction false} NothingFails(cfg: Config, run: seq<State>, acts: seq<Action>, k: nat)
    requires IsTrace(cfg, run, acts) && k < |run|
    requires forall i :: 0 <= i < |acts| ==> !acts[i].ParentError? && !acts[i].ChildError?
    ensures run[k].parent != ParentExit(false) && run[k].child != ChildFailed
  {
    if k > 0 {
      NothingFails(cfg, run, acts, k - 1);
      assert Step(cfg, run[k - 1], acts[k - 1], run[k - 1 + 1]);
    }
  }

  /**
    Interrupted and partial writes and short reads do no harm: a run in which no call fails otherwise
    can end only with the whole message in the child's buffer.
   */
  lemma InterruptionsDoNoHarm(cfg: Config, run: seq<State>, acts: seq<Action>)
    requires IsTrace(cfg, run, acts)
    requires forall i :: 0 <= i < |acts| ==> !acts[i].ParentError? && !acts[i].ChildError?
    ensures var last := run[|run| - 1];
            (forall s' :: !Next(cfg, last, s')) ==>
              last.parent == ParentExit(true) && last.child == Finished && Received(last.store) == cfg.msg
  {
    TraceIsRun(cfg, run, acts);
    NothingFails(cfg, run, acts, |run| - 1);
    var last := run[|run| - 1];
    assert Reachable(Sys(cfg), last);
    if forall s' :: !Next(cfg, last, s') {
      DeadEnd(cfg, last);
      ChildGetsTheMessage(cfg, last);
    }
  }

  lemma NothingEnabled(cfg: Config, s: State)
    requires Inv(cfg, s) && forall s' :: !Next(cfg, s, s')
    ensures Stuck(cfg, s)
  {
    forall a | Useful(a) ensures !Enabled(cfg, s, a) {
      if Enabled(cfg, s, a) {
        var s' := SomeStep(cfg, s, a);
        assert Next(cfg, s, s');
      }
    }
  }

  lemma SomeStep(cfg: Config, s: State, a: Action) returns (s': State)
    requires Inv(cfg, s) && Enabled(cfg, s, a) && Useful(a)
    ensures Step(cfg, s, a, s')
  {
    match a
    case ParentWrite(m) => s' := s.(sent := s.sent + m, pipe := s.pipe + cfg.msg[s.sent..s.sent + m]);
    case ParentStep =>
      s' := s.(parent := if s.parent == Write then CloseRead
                         else if s.parent == CloseRead then CloseWrite else ParentExit(true));
    case ChildRead(m) => s' := s.(pipe := s.pipe[m..], store := Fill(s.store, s.pipe[..m]), child := Check);
    case ChildEof => s' := s.(child := Finished);
    case ChildStep =>
      if s.child == CloseOwnWrite {
        s' := s.(child := Read);
      } else {
        var st := s.store;
        var more := if st.n + cfg.bufSize > st.cap then st.cap else 0;
        var grown := Store(st.buf + seq(more, _ => 'x'), st.n, st.cap + more);
        assert Grown(st, cfg.bufSize, grown);
        s' := s.(child := Read, store := grown);
      }
  }
}
