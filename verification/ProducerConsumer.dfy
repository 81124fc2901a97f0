/**
  Bounded buffer with two condition variables (05-threading/examples/src/producer_consumer2.c).

  The ring is a class with put and get as in the source; the threads are a step relation in
  which a call of put or get is one action, taken with the mutex held.  The buffer size and the
  number of rounds are symbolic, and a waiting thread may also wake for no reason.
 */
module ProducerConsumer {
  import opened Runs
  import opened Arith

  // ----- The ring

  /** The k-th position after `use`, going round. */
  function Slot(use: nat, k: nat, max: nat): nat
    requires use < max && k <= max
  {
    if use + k < max then use + k else use + k - max
  }

  datatype Ring = Ring(buffer: seq<int>, fill: nat, use: nat, count: int) {
    ghost predicate Valid() {
      && |buffer| > 0 && fill < |buffer| && use < |buffer|
      && 0 <= count <= |buffer|
      && fill == Slot(use, count, |buffer|)
    }

    /** The values in the buffer, oldest first. */
    ghost function Contents(): seq<int>
      requires Valid()
    {
      seq(count, k requires 0 <= k < count => buffer[Slot(use, k, |buffer|)])
    }
  }

  function PutRing(r: Ring, value: int): Ring
    requires r.fill < |r.buffer|
  {
    Ring(r.buffer[r.fill := value], (r.fill + 1) % |r.buffer|, r.use, r.count + 1)
  }

  function GetRing(r: Ring): Ring
    requires r.use < |r.buffer|
  {
    Ring(r.buffer, r.fill, (r.use + 1) % |r.buffer|, r.count - 1)
  }

  class BoundedBuffer {
    const buffer: array<int>
    var fillPtr: nat
    var usePtr: nat
    var count: int

    ghost function View(): Ring
      reads this, buffer
    {
      Ring(buffer[..], fillPtr, usePtr, count)
    }

    constructor (max: nat)
      requires max > 0
      ensures fresh(buffer) && buffer.Length == max
      ensures View().Valid() && View().Contents() == []
    {
      buffer := new int[max];
      fillPtr, usePtr, count := 0, 0, 0;
    }

    /** Appends when there is room.  It does not look at count: when full, it overwrites the oldest value. */
    method Put(value: int)
      requires fillPtr < buffer.Length
      modifies this, buffer
      ensures View() == PutRing(old(View()), value)
      ensures old(View().Valid()) && old(count) < buffer.Length ==>
                View().Valid() && View().Contents() == old(View().Contents()) + [value]
    {
      ghost var was := View();
      buffer[fillPtr] := value;
      fillPtr := (fillPtr + 1) % buffer.Length;
      count := count + 1;
      if was.Valid() && was.count < buffer.Length {
        PutAppends(was, value);
      }
    }

    /** Removes and returns the oldest value when there is one. */
    method Get() returns (tmp: int)
      requires usePtr < buffer.Length
      modifies this
      ensures View() == GetRing(old(View())) && tmp == old(buffer[usePtr])
      ensures old(View().Valid()) && old(count) > 0 ==>
                View().Valid() && old(View().Contents()) == [tmp] + View().Contents()
    {
      ghost var was := View();
      tmp := buffer[usePtr];
      usePtr := (usePtr + 1) % buffer.Length;
      count := count - 1;
      if was.Valid() && was.count > 0 {
        GetRemovesOldest(was);
      }
    }
  }

  lemma Advance(x: nat, max: nat)
    requires x < max
    ensures (x + 1) % max == Slot(x, 1, max)
  {
    SmallRemainder(x, max);
    NextRemainder(x, max);
  }

  /** put appends, as long as the buffer is not full. */
  lemma PutAppends(r: Ring, value: int)
    requires r.Valid() && r.count < |r.buffer|
    ensures PutRing(r, value).Valid()
    ensures PutRing(r, value).Contents() == r.Contents() + [value]
  {
    Advance(r.fill, |r.buffer|);
  }

  /** get removes the oldest value, as long as there is one. */
  lemma GetRemovesOldest(r: Ring)
    requires r.Valid() && r.count > 0
    ensures GetRing(r).Valid()
    ensures r.Contents() == [r.buffer[r.use]] + GetRing(r).Contents()
  {
    Advance(r.use, |r.buffer|);
  }

  // ----- The two threads

  // `wakeups` bounds how often a waiting thread wakes for no reason in the whole run.
  datatype Config = Config(max: nat, rounds: nat, wakeups: nat)

  datatype Who = Producer | Consumer

  // Relock is a thread that has been woken and must take the mutex again before it tests.
  datatype Pc = Lock | Test | Waiting | Relock | Act | Signal | Unlock | Finished

  // i and j are the loop counters; `consumed` lists what get returned.
  datatype State = State(
    ring: Ring, mutex: Option<Who>, p: Pc, i: nat, c: Pc, j: nat, consumed: seq<int>, wakeups: nat)

  datatype Action = Step(who: Who) | Spurious(who: Who)

  function Top(cfg: Config, i: nat): Pc { if i < cfg.rounds then Lock else Finished }

  ghost predicate Init(cfg: Config, s: State) {
    && cfg.max > 0
    && s.ring == Ring(s.ring.buffer, 0, 0, 0) && |s.ring.buffer| == cfg.max
    && s == State(s.ring, None, Top(cfg, 0), 0, Top(cfg, 0), 0, [], cfg.wakeups)
  }

  predicate CanMove(s: State, pc: Pc, slot: nat) {
    match pc
    case Lock => s.mutex == None
    case Relock => s.mutex == None
    case Act => slot < |s.ring.buffer|
    case Waiting => false
    case Finished => false
    case _ => true
  }

  predicate Enabled(s: State, a: Action) {
    match a
    case Step(Producer) => CanMove(s, s.p, s.ring.fill)
    case Step(Consumer) => CanMove(s, s.c, s.ring.use)
    case Spurious(Producer) => s.p == Waiting && s.wakeups > 0
    case Spurious(Consumer) => s.c == Waiting && s.wakeups > 0
  }

  /** pthread_cond_signal: a waiting thread wakes; with nobody waiting the signal is lost. */
  function Wake(pc: Pc): Pc { if pc == Waiting then Relock else pc }

  function ProducerDo(cfg: Config, s: State): State
    requires Enabled(s, Step(Producer))
  {
    match s.p
    case Test =>
      if s.ring.count == |s.ring.buffer| then s.(p := Waiting, mutex := None) else s.(p := Act)
    case Act => s.(ring := PutRing(s.ring, s.i), p := Signal)
    case Signal => s.(c := Wake(s.c), p := Unlock)
    case Unlock => s.(i := s.i + 1, p := Top(cfg, s.i + 1), mutex := None)
    case _ => s.(mutex := Some(Producer), p := Test)
  }

  function ConsumerDo(cfg: Config, s: State): State
    requires Enabled(s, Step(Consumer))
  {
    match s.c
    case Test => if s.ring.count == 0 then s.(c := Waiting, mutex := None) else s.(c := Act)
    case Act => s.(ring := GetRing(s.ring), consumed := s.consumed + [s.ring.buffer[s.ring.use]], c := Signal)
    case Signal => s.(p := Wake(s.p), c := Unlock)
    case Unlock => s.(j := s.j + 1, c := Top(cfg, s.j + 1), mutex := None)
    case _ => s.(mutex := Some(Consumer), c := Test)
  }

  function Do(cfg: Config, s: State, a: Action): State
    requires Enabled(s, a)
  {
    match a
    case Step(Producer) => ProducerDo(cfg, s)
    case Step(Consumer) => ConsumerDo(cfg, s)
    case Spurious(Producer) => s.(p := Relock, wakeups := s.wakeups - 1)
    case Spurious(Consumer) => s.(c := Relock, wakeups := s.wakeups - 1)
  }

  ghost predicate Next(cfg: Config, s: State, s': State) {
    exists a :: Enabled(s, a) && s' == Do(cfg, s, a)
  }

  ghost function Sys(cfg: Config): System<State> {
    System(s => Init(cfg, s), (s, s') => Next(cfg, s, s'))
  }

  // ----- Invariant

  predicate Holds(pc: Pc) { pc == Test || pc == Act || pc == Signal || pc == Unlock }

  predicate PastAct(pc: Pc) { pc == Signal || pc == Unlock }

  function Produced(s: State): nat { s.i + (if PastAct(s.p) then 1 else 0) }

  function Consumed(s: State): nat { s.j + (if PastAct(s.c) then 1 else 0) }

  ghost predicate Counting(s: seq<int>, first: int) {
    forall k :: 0 <= k < |s| ==> s[k] == first + k
  }

  ghost predicate RingInv(cfg: Config, s: State) {
    && s.ring.Valid() && |s.ring.buffer| == cfg.max
    && s.ring.count == Produced(s) - Consumed(s)
    && s.ring.fill == Produced(s) % cfg.max
    && s.ring.use == Consumed(s) % cfg.max
    && |s.consumed| == Consumed(s) && Counting(s.consumed, 0)
    && Counting(s.ring.Contents(), Consumed(s))
  }

  predicate ThreadInv(cfg: Config, s: State) {
    && (s.mutex == Some(Producer) <==> Holds(s.p))
    && (s.mutex == Some(Consumer) <==> Holds(s.c))
    && s.i <= cfg.rounds && (s.p == Finished <==> s.i == cfg.rounds)
    && s.j <= cfg.rounds && (s.c == Finished <==> s.j == cfg.rounds)
    && (s.p == Act ==> s.ring.count < cfg.max)
    && (s.c == Act ==> s.ring.count > 0)
    && (s.p == Waiting ==> s.ring.count == cfg.max || s.c == Signal)
    && (s.c == Waiting ==> s.ring.count == 0 || s.p == Signal)
  }

  ghost predicate Inv(cfg: Config, s: State) { cfg.max > 0 && RingInv(cfg, s) && ThreadInv(cfg, s) }

  lemma InitInv(cfg: Config, s: State)
    requires Init(cfg, s)
    ensures Inv(cfg, s)
  {
    SmallRemainder(0, cfg.max);
  }

  lemma PutKeepsRing(cfg: Config, s: State)
    requires Inv(cfg, s) && s.p == Act && Enabled(s, Step(Producer))
    ensures RingInv(cfg, ProducerDo(cfg, s))
  {
    PutAppends(s.ring, s.i);
    NextRemainder(s.i, cfg.max);
    Advance(s.ring.fill, cfg.max);
  }

  lemma GetKeepsRing(cfg: Config, s: State)
    requires Inv(cfg, s) && s.c == Act && Enabled(s, Step(Consumer))
    ensures RingInv(cfg, ConsumerDo(cfg, s))
  {
    GetRemovesOldest(s.ring);
    NextRemainder(s.j, cfg.max);
    Advance(s.ring.use, cfg.max);
    var before, after := s.ring.Contents(), GetRing(s.ring).Contents();
    assert before[0] == Consumed(s);
    assert forall k :: 0 <= k < |after| ==> after[k] == before[k + 1];
  }

  lemma OthersKeepRing(cfg: Config, s: State, a: Action)
    requires RingInv(cfg, s) && Enabled(s, a)
    requires a == Step(Producer) ==> s.p != Act
    requires a == Step(Consumer) ==> s.c != Act
    ensures RingInv(cfg, Do(cfg, s, a))
  {
    var s' := Do(cfg, s, a);
    assert s'.ring == s.ring && s'.consumed == s.consumed;
    assert Produced(s') == Produced(s) && Consumed(s') == Consumed(s);
  }

  /** The part of the ring that the threads' tests look at. */
  predicate CountInv(cfg: Config, s: State) {
    |s.ring.buffer| == cfg.max > 0 && s.ring.count == Produced(s) - Consumed(s) && 0 <= s.ring.count <= cfg.max
  }

  lemma StepKeepsThreads(cfg: Config, s: State, a: Action)
    requires CountInv(cfg, s) && ThreadInv(cfg, s) && Enabled(s, a)
    ensures ThreadInv(cfg, Do(cfg, s, a))
  {
  }

  lemma StepKeepsInv(cfg: Config, s: State, a: Action)
    requires Inv(cfg, s) && Enabled(s, a)
    ensures Inv(cfg, Do(cfg, s, a))
  {
    StepKeepsThreads(cfg, s, a);
    if a == Step(Producer) && s.p == Act {
      PutKeepsRing(cfg, s);
    } else if a == Step(Consumer) && s.c == Act {
      GetKeepsRing(cfg, s);
    } else {
      OthersKeepRing(cfg, s, a);
    }
  }

  lemma InvInductive(cfg: Config)
    ensures Inductive(Sys(cfg), s => Inv(cfg, s))
  {
    forall s | Init(cfg, s) ensures Inv(cfg, s) {
      InitInv(cfg, s);
    }
    forall s, s' | Inv(cfg, s) && Next(cfg, s, s') ensures Inv(cfg, s') {
      var a :| Enabled(s, a) && s' == Do(cfg, s, a);
      StepKeepsInv(cfg, s, a);
    }
  }

  lemma ReachableInv(cfg: Config, s: State)
    requires Reachable(Sys(cfg), s)
    ensures Inv(cfg, s)
  {
    InvInductive(cfg);
    InvariantIfReachable(Sys(cfg), s => Inv(cfg, s), s);
  }

  // ----- What the protocol guarantees

  /**
    The ring is a FIFO: what was consumed followed by what is in the buffer is 0, 1, 2, ... up to
    the number produced, and the pointers are the two totals modulo the size.
   */
  lemma RingIsFifo(cfg: Config, s: State)
    requires Reachable(Sys(cfg), s)
    ensures s.ring.Valid() && 0 <= s.ring.count <= cfg.max && s.ring.count == Produced(s) - Consumed(s)
    ensures Counting(s.consumed + s.ring.Contents(), 0) && |s.consumed + s.ring.Contents()| == Produced(s)
    ensures s.ring.fill == Produced(s) % cfg.max && s.ring.use == Consumed(s) % cfg.max
    ensures s.mutex == None ==> Produced(s) == s.i && Consumed(s) == s.j
  {
    ReachableInv(cfg, s);
  }

  /** No lost wakeup: a waiting thread has nothing to do, or the other one is about to signal it. */
  lemma NoLostWakeup(cfg: Config, s: State)
    requires Reachable(Sys(cfg), s)
    ensures s.p == Waiting ==> s.ring.count == cfg.max || s.c == Signal
    ensures s.c == Waiting ==> s.ring.count == 0 || s.p == Signal
    ensures !(s.p == Waiting && s.c == Waiting)
    ensures !(Holds(s.p) && Holds(s.c))
  {
    ReachableInv(cfg, s);
  }

  /** A woken thread finds room, or a value, and so does one about to be signalled. */
  predicate WokenIsWanted(cfg: Config, s: State) {
    && s.wakeups == 0
    && (s.p == Relock || s.c == Signal ==> s.ring.count < cfg.max)
    && (s.c == Relock || s.p == Signal ==> s.ring.count > 0)
  }

  lemma StepWakesWanted(cfg: Config, s: State, who: Who)
    requires CountInv(cfg, s) && ThreadInv(cfg, s) && WokenIsWanted(cfg, s) && Enabled(s, Step(who))
    ensures WokenIsWanted(cfg, Do(cfg, s, Step(who)))
  {
  }

  /** Nobody is signalled in vain: without spurious wakeups a woken thread never has to wait again. */
  lemma NoWakeupInVain(cfg: Config, s: State)
    requires cfg.wakeups == 0 && Reachable(Sys(cfg), s)
    ensures s.p == Relock ==> s.ring.count < cfg.max
    ensures s.c == Relock ==> s.ring.count > 0
  {
    forall s, s' | Inv(cfg, s) && WokenIsWanted(cfg, s) && Next(cfg, s, s')
      ensures Inv(cfg, s') && WokenIsWanted(cfg, s')
    {
      var a :| Enabled(s, a) && s' == Do(cfg, s, a);
      StepKeepsInv(cfg, s, a);
      StepWakesWanted(cfg, s, a.who);
    }
    InvInductive(cfg);
    InvariantIfReachable(Sys(cfg), s => Inv(cfg, s) && WokenIsWanted(cfg, s), s);
  }

  /** Until both have finished, a thread can move, without any spurious wakeup. */
  lemma NeverStuck(cfg: Config, s: State)
    requires Reachable(Sys(cfg), s) && !(s.p == Finished && s.c == Finished)
    ensures Enabled(s, Step(Producer)) || Enabled(s, Step(Consumer))
  {
    ReachableInv(cfg, s);
    match s.mutex
    case None => assert !Holds(s.p) && !Holds(s.c);
    case Some(Producer) => assert Holds(s.p);
    case Some(Consumer) => assert Holds(s.c);
  }

  // ----- The bounds are reached

  lemma Move(cfg: Config, s: State, who: Who) returns (s': State)
    requires Reachable(Sys(cfg), s) && Enabled(s, Step(who))
    ensures Reachable(Sys(cfg), s') && s' == Do(cfg, s, Step(who))
  {
    s' := Do(cfg, s, Step(who));
    assert Next(cfg, s, s');
    ReachableNext(Sys(cfg), s, s');
  }

  /** The producer need not wait for the consumer until the buffer is full... */
  lemma {:induction false} BufferFills(cfg: Config, k: nat) returns (s: State)
    requires cfg.max > 0 && k <= cfg.max && k <= cfg.rounds
    ensures Reachable(Sys(cfg), s) && s.ring.count == s.i == k && s.mutex == None
    ensures s.p == Top(cfg, k) && s.c == Top(cfg, 0)
  {
    if k == 0 {
      s := State(Ring(seq(cfg.max, _ => 0), 0, 0, 0), None, Top(cfg, 0), 0, Top(cfg, 0), 0, [], cfg.wakeups);
      InitialIsReachable(Sys(cfg), s);
    } else {
      s := BufferFills(cfg, k - 1);
      ReachableInv(cfg, s);
      s := Move(cfg, s, Producer);
      s := Move(cfg, s, Producer);
      s := Move(cfg, s, Producer);
      s := Move(cfg, s, Producer);
      s := Move(cfg, s, Producer);
    }
  }

  /** ...and the consumer waits when it finds nothing, as the producer does when it finds no room. */
  lemma BothCanWait(cfg: Config) returns (full: State, empty: State)
    requires cfg.max > 0 && cfg.rounds > cfg.max
    ensures Reachable(Sys(cfg), full) && full.p == Waiting && full.ring.count == cfg.max && full.c == Lock
    ensures Reachable(Sys(cfg), empty) && empty.c == Waiting && empty.ring.count == 0 && empty.p == Lock
  {
    full := BufferFills(cfg, cfg.max);
    ReachableInv(cfg, full);
    full := Move(cfg, full, Producer);
    full := Move(cfg, full, Producer);
    empty := BufferFills(cfg, 0);
    empty := Move(cfg, empty, Consumer);
    empty := Move(cfg, empty, Consumer);
  }

  // ----- Every run ends

  function Cost(pc: Pc): nat {
    match pc
    case Lock => 8
    case Relock => 8
    case Test => 7
    case Waiting => 6
    case Act => 6
    case Signal => 5
    case Unlock => 1
    case Finished => 0
  }

  function Measure(cfg: Config, s: State): int {
    8 * (cfg.rounds - s.i) + Cost(s.p) + 8 * (cfg.rounds - s.j) + Cost(s.c) + 3 * s.wakeups
  }

  lemma StepMakesProgress(cfg: Config, s: State, a: Action)
    requires ThreadInv(cfg, s) && Enabled(s, a)
    ensures Measure(cfg, Do(cfg, s, a)) < Measure(cfg, s)
  {
  }

  lemma NextMakesProgress(cfg: Config, s: State, s': State)
    requires Inv(cfg, s) && Next(cfg, s, s')
    ensures 0 <= Measure(cfg, s') < Measure(cfg, s)
  {
    var a :| Enabled(s, a) && s' == Do(cfg, s, a);
    StepMakesProgress(cfg, s, a);
    StepKeepsThreads(cfg, s, a);
  }

  lemma StuckIsDone(cfg: Config, s: State)
    requires Reachable(Sys(cfg), s) && forall s' :: !Next(cfg, s, s')
    ensures s.p == s.c == Finished && s.ring.count == 0
    ensures |s.consumed| == cfg.rounds && Counting(s.consumed, 0)
  {
    ReachableInv(cfg, s);
    if !(s.p == Finished && s.c == Finished) {
      NeverStuck(cfg, s);
      var a := if Enabled(s, Step(Producer)) then Step(Producer) else Step(Consumer);
      assert Next(cfg, s, Do(cfg, s, a));
    }
  }

  /**
    Every run ends, whatever the scheduler does, and it can end only with every value 0..rounds-1
    produced and consumed in order.
   */
  lemma EveryRunEnds(cfg: Config, run: seq<State>)
    requires IsRun(Sys(cfg), run)
    ensures |run| <= 16 * cfg.rounds + 3 * cfg.wakeups + 17
    ensures var last := run[|run| - 1];
            (forall s' :: !Next(cfg, last, s')) ==>
              && last.p == last.c == Finished && last.ring.count == 0
              && |last.consumed| == cfg.rounds && Counting(last.consumed, 0)
  {
    InvInductive(cfg);
    var measure: State -> nat := (s: State) => if Measure(cfg, s) < 0 then 0 else Measure(cfg, s);
    forall s, s' | Inv(cfg, s) && Next(cfg, s, s') ensures measure(s') < measure(s) {
      NextMakesProgress(cfg, s, s');
    }
    RunIsBounded(Sys(cfg), s => Inv(cfg, s), measure, run, |run| - 1);
    var last := run[|run| - 1];
    assert Reachable(Sys(cfg), last);
    if forall s' :: !Next(cfg, last, s') {
      StuckIsDone(cfg, last);
    }
  }
}
