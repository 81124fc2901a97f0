/**
  Select loop with a wake-up indicator (00-network-programming/examples/select_client.py).

  The main thread appends messages to a queue under a mutex and then sends one byte on the
  indicator, which a full channel may reject.  The loop thread builds its write list, blocks in
  select and drains the queue.  The channel capacity is symbolic.
 */
module SelectClient {
  import opened Runs

  type Message = string

  datatype Who = Main | Loop

  // wantsWrite: sock is in wlist.  sockWritable: sock is in selected[1].
  datatype LoopPc =
    | AcquireBuild
    | Build
    | Select(wantsWrite: bool)
    | Selected(indReadable: bool, sockWritable: bool)
    | Decided(sockWritable: bool)
    | AcquireDrain
    | Drain
    | Sending(msg: Message)

  datatype MainPc = Input | Acquire(msg: Message) | Append(msg: Message) | Release | Send

  // `appended` and `handed` record the history.
  datatype State = State(
    queue: seq<Message>, mutex: Option<Who>, ind: nat, loop: LoopPc, main: MainPc, exited: bool,
    appended: seq<Message>, handed: seq<Message>)

  // The environment chooses the typed message, end of input, and which sockets select finds ready.
  datatype Action = TypeMessage(msg: Message) | EndOfInput | MainStep | LoopStep(sockReadable: bool, sockWritable: bool)

  ghost predicate Init(capacity: nat, s: State) {
    capacity > 0 && s == State([], None, 0, AcquireBuild, Input, false, [], [])
  }

  /** select returns only when something is ready; it reports sock writable only if asked. */
  predicate SelectReturns(s: State, sockReadable: bool, sockWritable: bool) {
    s.loop.Select? ==>
      && (sockWritable ==> s.loop.wantsWrite)
      && (sockReadable || sockWritable || s.ind > 0)
  }

  predicate Enabled(s: State, a: Action) {
    && !s.exited
    && match a
       case TypeMessage(_) => s.main == Input
       case EndOfInput => s.main == Input
       case MainStep => !s.main.Input? && (s.main.Acquire? ==> s.mutex == None)
       case LoopStep(r, w) =>
         && SelectReturns(s, r, w)
         && (s.loop == AcquireBuild || s.loop == AcquireDrain ==> s.mutex == None)
  }

  function MainDo(capacity: nat, s: State): State {
    match s.main
    case Input => s
    case Acquire(msg) => s.(mutex := Some(Main), main := Append(msg))
    case Append(msg) => s.(queue := s.queue + [msg], appended := s.appended + [msg], main := Release)
    case Release => s.(mutex := None, main := Send)
    case Send => s.(ind := if s.ind < capacity then s.ind + 1 else s.ind, main := Input)
  }

  function LoopDo(s: State, sockReadable: bool, sockWritable: bool): State
    requires SelectReturns(s, sockReadable, sockWritable)
  {
    match s.loop
    case AcquireBuild => s.(mutex := Some(Loop), loop := Build)
    case Build => s.(mutex := None, loop := Select(s.queue != []))
    case Select(_) => s.(loop := Selected(s.ind > 0, sockWritable))
    case Selected(indReadable, writable) =>
      if indReadable && !writable then s.(ind := if s.ind > 0 then s.ind - 1 else 0, loop := Decided(true))
      else s.(loop := Decided(writable))
    case Decided(writable) => s.(loop := if writable then AcquireDrain else AcquireBuild)
    case AcquireDrain => s.(mutex := Some(Loop), loop := Drain)
    case Drain =>
      if s.queue == [] then s.(mutex := None, loop := AcquireBuild)
      else s.(queue := s.queue[1..], loop := Sending(s.queue[0]))
    case Sending(msg) => s.(handed := s.handed + [msg], loop := Drain)
  }

  function Do(capacity: nat, s: State, a: Action): State
    requires Enabled(s, a)
  {
    match a
    case TypeMessage(msg) => s.(main := Acquire(msg))
    case EndOfInput => s.(exited := true)
    case MainStep => MainDo(capacity, s)
    case LoopStep(r, w) => LoopDo(s, r, w)
  }

  ghost predicate Next(capacity: nat, s: State, s': State) {
    exists a :: Enabled(s, a) && s' == Do(capacity, s, a)
  }

  ghost function Sys(capacity: nat): System<State> {
    System(s => Init(capacity, s), (s, s') => Next(capacity, s, s'))
  }

  // ----- Invariant

  function InFlight(s: State): seq<Message> { if s.loop.Sending? then [s.loop.msg] else [] }

  predicate AboutToSend(m: MainPc) { m == Release || m == Send }

  predicate Conserved(s: State) { s.handed + InFlight(s) + s.queue == s.appended }

  predicate Synchronised(capacity: nat, s: State) {
    && 0 < capacity && s.ind <= capacity
    && (s.mutex == Some(Main) <==> s.main.Append? || s.main.Release?)
    && (s.mutex == Some(Loop) <==> s.loop.Build? || s.loop.Drain? || s.loop.Sending?)
    && (s.loop.Selected? && s.loop.indReadable ==> s.ind > 0)
    && (s.loop == Select(true) ==> s.queue != [])
    && (s.loop.Selected? && s.loop.sockWritable ==> s.queue != [])
    && (s.loop == Select(false) && s.queue != [] ==> s.ind > 0 || AboutToSend(s.main))
  }

  predicate Inv(capacity: nat, s: State) { Synchronised(capacity, s) && Conserved(s) }

  lemma MainConserves(capacity: nat, s: State)
    requires Conserved(s)
    ensures Conserved(MainDo(capacity, s))
  {
    var s' := MainDo(capacity, s);
    if s.main.Append? {
      assert s'.handed + InFlight(s') + s'.queue == s.handed + InFlight(s) + s.queue + [s.main.msg];
    }
  }

  lemma LoopConserves(s: State, r: bool, w: bool)
    requires Conserved(s) && SelectReturns(s, r, w)
    ensures Conserved(LoopDo(s, r, w))
  {
    var s' := LoopDo(s, r, w);
    if s.loop == Drain && s.queue != [] {
      assert s.queue == [s.queue[0]] + s.queue[1..];
      assert s'.handed + InFlight(s') + s'.queue == s.handed + InFlight(s) + s.queue;
    } else if s.loop.Sending? {
      assert s'.handed + InFlight(s') == s.handed + InFlight(s);
    }
  }

  lemma StepKeepsSynchronised(capacity: nat, s: State, a: Action)
    requires Synchronised(capacity, s) && Enabled(s, a)
    ensures Synchronised(capacity, Do(capacity, s, a))
  {
  }

  lemma StepKeepsInv(capacity: nat, s: State, a: Action)
    requires Inv(capacity, s) && Enabled(s, a)
    ensures Inv(capacity, Do(capacity, s, a))
  {
    StepKeepsSynchronised(capacity, s, a);
    match a
    case MainStep => MainConserves(capacity, s);
    case LoopStep(r, w) => LoopConserves(s, r, w);
    case _ =>
  }

  lemma InvInductive(capacity: nat)
    ensures Inductive(Sys(capacity), s => Inv(capacity, s))
  {
    forall s, s' | Inv(capacity, s) && Next(capacity, s, s') ensures Inv(capacity, s') {
      var a :| Enabled(s, a) && s' == Do(capacity, s, a);
      StepKeepsInv(capacity, s, a);
    }
  }

  lemma ReachableInv(capacity: nat, s: State)
    requires Reachable(Sys(capacity), s)
    ensures Inv(capacity, s)
  {
    InvInductive(capacity);
    InvariantIfReachable(Sys(capacity), s => Inv(capacity, s), s);
  }

  /** Every message appended is handed over once and in order, in flight, or still queued. */
  lemma NothingLostOrDuplicated(capacity: nat, s: State)
    requires Reachable(Sys(capacity), s)
    ensures s.handed + InFlight(s) + s.queue == s.appended
    ensures s.handed <= s.appended
  {
    ReachableInv(capacity, s);
  }

  /** Blocked without asking to write while a message waits: a byte is there, or about to be sent. */
  lemma NoMissedWakeup(capacity: nat, s: State)
    requires Reachable(Sys(capacity), s) && s.loop == Select(false) && s.queue != []
    ensures s.ind > 0 || AboutToSend(s.main)
  {
    ReachableInv(capacity, s);
  }

  // ----- Schedules

  /** The schedule acts can be carried out from s. */
  ghost predicate CanRun(capacity: nat, s: State, acts: seq<Action>)
    decreases acts
  {
    acts == [] || (Enabled(s, acts[0]) && CanRun(capacity, Do(capacity, s, acts[0]), acts[1..]))
  }

  ghost function After(capacity: nat, s: State, acts: seq<Action>): State
    requires CanRun(capacity, s, acts)
    decreases acts
  {
    if acts == [] then s else After(capacity, Do(capacity, s, acts[0]), acts[1..])
  }

  lemma {:induction false} ReachableAfter(capacity: nat, s: State, acts: seq<Action>)
    requires Reachable(Sys(capacity), s) && CanRun(capacity, s, acts)
    ensures Reachable(Sys(capacity), After(capacity, s, acts))
    decreases acts
  {
    if acts != [] {
      var s' := Do(capacity, s, acts[0]);
      assert Next(capacity, s, s');
      ReachableNext(Sys(capacity), s, s');
      ReachableAfter(capacity, s', acts[1..]);
    }
  }

  // ----- From what was typed

  /** The messages typed along a schedule. */
  function Typed(acts: seq<Action>): seq<Message> {
    if acts == [] then [] else (if acts[0].TypeMessage? then [acts[0].msg] else []) + Typed(acts[1..])
  }

  /** The message that main has read and not yet appended. */
  function InMain(m: MainPc): seq<Message> {
    match m
    case Acquire(msg) => [msg]
    case Append(msg) => [msg]
    case _ => []
  }

  lemma StepAppendsTyped(capacity: nat, s: State, a: Action)
    requires Enabled(s, a)
    ensures var s' := Do(capacity, s, a);
            s'.appended + InMain(s'.main) == s.appended + InMain(s.main) + Typed([a])
  {
    var s' := Do(capacity, s, a);
    if s.main.Append? && a.MainStep? {
      assert s'.appended + [] == s.appended + [s.main.msg] + [];
    }
  }

  lemma TypedFirst(acts: seq<Action>)
    requires acts != []
    ensures Typed(acts) == Typed([acts[0]]) + Typed(acts[1..])
  {
  }

  lemma Regroup(x: seq<Message>, y: seq<Message>, z: seq<Message>)
    ensures (x + y) + z == x + (y + z)
  {
  }

  lemma {:induction false} AppendedAreTyped(capacity: nat, s: State, acts: seq<Action>)
    requires CanRun(capacity, s, acts)
    ensures var end := After(capacity, s, acts);
            end.appended + InMain(end.main) == s.appended + InMain(s.main) + Typed(acts)
    decreases acts
  {
    if acts == [] {
      assert s.appended + InMain(s.main) + [] == s.appended + InMain(s.main);
    } else {
      StepAppendsTyped(capacity, s, acts[0]);
      AppendedAreTyped(capacity, Do(capacity, s, acts[0]), acts[1..]);
      TypedFirst(acts);
      Regroup(s.appended + InMain(s.main), Typed([acts[0]]), Typed(acts[1..]));
    }
  }

  /**
    Every message typed since the start was handed over, is in flight, is queued, or is still in the
    hands of main: each once, in the order of typing.
   */
  lemma TypedIsConserved(capacity: nat, s: State, acts: seq<Action>)
    requires Init(capacity, s) && CanRun(capacity, s, acts)
    ensures var end := After(capacity, s, acts);
            end.handed + InFlight(end) + end.queue + InMain(end.main) == Typed(acts)
  {
    InitialIsReachable(Sys(capacity), s);
    ReachableAfter(capacity, s, acts);
    NothingLostOrDuplicated(capacity, After(capacity, s, acts));
    AppendedAreTyped(capacity, s, acts);
    assert [] + [] + Typed(acts) == Typed(acts);
  }

  // ----- The bytes on the indicator

  /** What an action does to the channel: main tries to send a byte, or the loop receives one. */
  predicate TriesToSend(s: State, a: Action) { a.MainStep? && s.main == Send }

  predicate Receives(s: State, a: Action) { a.LoopStep? && s.loop == Selected(true, false) }

  /** Bytes sent less those that a full channel rejected, and less those received. */
  ghost function NetBytes(capacity: nat, s: State, acts: seq<Action>): int
    requires CanRun(capacity, s, acts)
    decreases acts
  {
    if acts == [] then 0
    else
      (if TriesToSend(s, acts[0]) && s.ind < capacity then 1 else 0)
      - (if Receives(s, acts[0]) then 1 else 0)
      + NetBytes(capacity, Do(capacity, s, acts[0]), acts[1..])
  }

  ghost function SendTries(capacity: nat, s: State, acts: seq<Action>): nat
    requires CanRun(capacity, s, acts)
    decreases acts
  {
    if acts == [] then 0
    else (if TriesToSend(s, acts[0]) then 1 else 0) + SendTries(capacity, Do(capacity, s, acts[0]), acts[1..])
  }

  /**
    The channel holds what was accepted and not yet received; a byte is received only by a wakeup
    without a writable socket; and main tries to send exactly one byte for each message typed.
   */
  lemma {:induction false} OneBytePerMessage(capacity: nat, s: State, acts: seq<Action>)
    requires Inv(capacity, s) && CanRun(capacity, s, acts)
    ensures var end := After(capacity, s, acts);
            && end.ind == s.ind + NetBytes(capacity, s, acts)
            && SendTries(capacity, s, acts) + (if end.main == Input then 0 else 1)
                 == |Typed(acts)| + (if s.main == Input then 0 else 1)
    decreases acts
  {
    if acts != [] {
      StepKeepsInv(capacity, s, acts[0]);
      OneBytePerMessage(capacity, Do(capacity, s, acts[0]), acts[1..]);
    }
  }

  function Least(a: nat, b: nat): nat { if a <= b then a else b }

  lemma Move(capacity: nat, s: State, a: Action) returns (s': State)
    requires Reachable(Sys(capacity), s) && Enabled(s, a)
    ensures Reachable(Sys(capacity), s') && s' == Do(capacity, s, a)
  {
    s' := Do(capacity, s, a);
    assert Next(capacity, s, s');
    ReachableNext(Sys(capacity), s, s');
  }

  /**
    Main never waits for the loop: any messages can be typed and queued before the loop has moved at
    all; the channel fills up and then rejects the further bytes.
   */
  lemma {:induction false} MainNeverWaits(capacity: nat, msgs: seq<Message>) returns (s: State)
    requires capacity > 0
    ensures Reachable(Sys(capacity), s)
    ensures s == State(msgs, None, Least(|msgs|, capacity), AcquireBuild, Input, false, msgs, [])
    decreases |msgs|
  {
    if msgs == [] {
      s := State([], None, 0, AcquireBuild, Input, false, [], []);
      InitialIsReachable(Sys(capacity), s);
    } else {
      var n := |msgs| - 1;
      s := MainNeverWaits(capacity, msgs[..n]);
      s := Move(capacity, s, TypeMessage(msgs[n]));
      s := Move(capacity, s, MainStep);
      s := Move(capacity, s, MainStep);
      s := Move(capacity, s, MainStep);
      s := Move(capacity, s, MainStep);
      assert msgs == msgs[..n] + [msgs[n]];
    }
  }

  // ----- Delivery

  /** Actions of the loop still needed before message number k is handed over, when it is pending. */
  function Rank(s: State, k: int): int {
    var atDrain := 2 * (k - |s.handed|) + 2;
    match s.loop
    case Sending(_) => atDrain - 1
    case Drain => atDrain
    case AcquireDrain => atDrain + 1
    case Decided(writable) => if writable then atDrain + 2 else atDrain + 7
    case Selected(indReadable, writable) => if indReadable || writable then atDrain + 3 else atDrain + 8
    case Select(wantsWrite) => if wantsWrite || s.ind > 0 then atDrain + 4 else atDrain + 9
    case Build => atDrain + 5
    case AcquireBuild => atDrain + 6
  }

  /** The socket accepts data: select reports it writable whenever it is asked to. */
  predicate Writable(s: State, a: Action) {
    a.LoopStep? && s.loop == Select(true) ==> a.sockWritable
  }

  lemma StepLowersRank(capacity: nat, s: State, a: Action, k: nat)
    requires Inv(capacity, s) && Enabled(s, a) && Writable(s, a)
    requires |s.handed| <= k < |s.appended|
    ensures var s' := Do(capacity, s, a);
            |s'.handed| > k || Rank(s', k) <= Rank(s, k) - (if a.LoopStep? then 1 else 0)
  {
  }

  /** All along the schedule the socket accepts data. */
  ghost predicate StaysWritable(capacity: nat, s: State, acts: seq<Action>)
    requires CanRun(capacity, s, acts)
    decreases acts
  {
    acts == [] || (Writable(s, acts[0]) && StaysWritable(capacity, Do(capacity, s, acts[0]), acts[1..]))
  }

  function LoopSteps(acts: seq<Action>): nat {
    if acts == [] then 0 else (if acts[0].LoopStep? then 1 else 0) + LoopSteps(acts[1..])
  }

  lemma {:induction false} HandedOnlyGrows(capacity: nat, s: State, acts: seq<Action>)
    requires CanRun(capacity, s, acts)
    ensures |s.handed| <= |After(capacity, s, acts).handed|
    decreases acts
  {
    if acts != [] {
      HandedOnlyGrows(capacity, Do(capacity, s, acts[0]), acts[1..]);
    }
  }

  lemma {:induction false} DeliveredWithinRank(capacity: nat, s: State, acts: seq<Action>, k: nat)
    requires Inv(capacity, s) && CanRun(capacity, s, acts) && StaysWritable(capacity, s, acts) && k < |s.appended|
    requires LoopSteps(acts) >= Rank(s, k)
    ensures |After(capacity, s, acts).handed| > k
    decreases acts
  {
    if |s.handed| > k {
      HandedOnlyGrows(capacity, s, acts);
    } else {
      assert Rank(s, k) > 0;
      var s' := Do(capacity, s, acts[0]);
      StepKeepsInv(capacity, s, acts[0]);
      StepLowersRank(capacity, s, acts[0], k);
      if |s'.handed| > k {
        HandedOnlyGrows(capacity, s', acts[1..]);
      } else {
        DeliveredWithinRank(capacity, s', acts[1..], k);
      }
    }
  }

  /**
    However the threads interleave, message k is handed over once the loop has had eleven turns and
    two more for each message in front of it.
   */
  lemma MessageIsDelivered(capacity: nat, s: State, acts: seq<Action>, k: nat)
    requires Reachable(Sys(capacity), s) && CanRun(capacity, s, acts) && StaysWritable(capacity, s, acts)
    requires k < |s.appended| && LoopSteps(acts) >= 2 * (k - |s.handed|) + 11
    ensures |After(capacity, s, acts).handed| > k
  {
    ReachableInv(capacity, s);
    DeliveredWithinRank(capacity, s, acts, k);
  }

  /** A byte on the indicator, like a request to write, lets the loop drain within three moves of its select. */
  lemma ByteWakesAtOnce(capacity: nat, s: State, acts: seq<Action>, k: nat)
    requires Reachable(Sys(capacity), s) && CanRun(capacity, s, acts) && StaysWritable(capacity, s, acts)
    requires s.loop.Select? && (s.loop.wantsWrite || s.ind > 0)
    requires k < |s.appended| && LoopSteps(acts) >= 2 * (k - |s.handed|) + 6
    ensures |After(capacity, s, acts).handed| > k
  {
    ReachableInv(capacity, s);
    DeliveredWithinRank(capacity, s, acts, k);
  }

  /** Actions of main before it is back at input. */
  function MainRank(m: MainPc): nat {
    match m
    case Input => 0
    case Acquire(_) => 4
    case Append(_) => 3
    case Release => 2
    case Send => 1
  }

  /**
    The loop gets its turns: while a message is pending and the program has not exited, the loop can
    move, or main can, and main is within three actions of having freed the mutex and sent its byte.
   */
  lemma LoopIsNeverStranded(capacity: nat, s: State)
    requires Reachable(Sys(capacity), s) && !s.exited && |s.handed| < |s.appended|
    ensures Enabled(s, LoopStep(false, s.loop == Select(true)))
         || (Enabled(s, MainStep) && MainRank(s.main) <= 3 && MainRank(MainDo(capacity, s).main) < MainRank(s.main))
  {
    ReachableInv(capacity, s);
    match s.mutex
    case None =>
    case Some(Main) => assert s.main.Append? || s.main.Release?;
    case Some(Loop) => assert s.loop.Build? || s.loop.Drain? || s.loop.Sending?;
  }

  // ----- Coming to rest

  predicate BeforeDrain(p: LoopPc) {
    p == AcquireBuild || p == Build || p.Select? || p.Selected? || p == Decided(false)
  }

  function RestCost(p: LoopPc): nat {
    match p
    case Decided(writable) => if writable then 8 else 5
    case AcquireDrain => 7
    case Sending(_) => 7
    case Drain => 6
    case AcquireBuild => 4
    case Build => 3
    case Select(_) => 2
    case Selected(indReadable, writable) => if indReadable || writable then 1 else 6
  }

  /** A bound on what the loop can still do while main stays at input and the server is silent. */
  function RestMeasure(s: State): nat {
    8 * s.ind + 2 * |s.queue| + RestCost(s.loop) + (if s.queue != [] && BeforeDrain(s.loop) then 8 else 0)
  }

  lemma StepTowardsRest(capacity: nat, s: State, sockWritable: bool)
    requires Inv(capacity, s) && Enabled(s, LoopStep(false, sockWritable))
    ensures RestMeasure(LoopDo(s, false, sockWritable)) < RestMeasure(s)
  {
  }

  /** Only the loop moves, and the server sends nothing. */
  predicate LoopAlone(acts: seq<Action>) {
    forall i :: 0 <= i < |acts| ==> acts[i].LoopStep? && !acts[i].sockReadable
  }

  lemma {:induction false} RestIsNear(capacity: nat, s: State, acts: seq<Action>)
    requires Inv(capacity, s) && CanRun(capacity, s, acts) && LoopAlone(acts)
    ensures |acts| + RestMeasure(After(capacity, s, acts)) <= RestMeasure(s)
    ensures After(capacity, s, acts).main == s.main && After(capacity, s, acts).exited == s.exited
    decreases acts
  {
    if acts != [] {
      StepTowardsRest(capacity, s, acts[0].sockWritable);
      StepKeepsInv(capacity, s, acts[0]);
      RestIsNear(capacity, Do(capacity, s, acts[0]), acts[1..]);
    }
  }

  lemma BlockedIsDrained(capacity: nat, s: State)
    requires Inv(capacity, s) && s.main == Input && !s.exited
    requires forall w: bool :: !Enabled(s, LoopStep(false, w))
    ensures s.loop == Select(false) && s.ind == 0 && s.handed == s.appended
  {
    assert !Enabled(s, LoopStep(false, false)) && !Enabled(s, LoopStep(false, true));
    assert s.handed + [] + [] == s.handed;
    match s.mutex
    case None =>
    case Some(Main) => assert false;
    case Some(Loop) =>
  }

  /**
    Wakeups do not pile up and none is missed: with main at input and a silent server the loop makes
    a bounded number of moves, whether or not the socket accepts data, and it can block only when
    every message has been handed over and every byte consumed.
   */
  lemma LoopComesToRest(capacity: nat, s: State, acts: seq<Action>)
    requires Reachable(Sys(capacity), s) && CanRun(capacity, s, acts) && LoopAlone(acts)
    requires s.main == Input && !s.exited
    ensures |acts| <= RestMeasure(s)
    ensures var last := After(capacity, s, acts);
            (forall w: bool :: !Enabled(last, LoopStep(false, w))) ==>
              last.loop == Select(false) && last.ind == 0 && last.handed == last.appended
  {
    ReachableInv(capacity, s);
    RestIsNear(capacity, s, acts);
    var last := After(capacity, s, acts);
    ReachableAfter(capacity, s, acts);
    ReachableInv(capacity, last);
    if forall w: bool :: !Enabled(last, LoopStep(false, w)) {
      BlockedIsDrained(capacity, last);
    }
  }

  // ----- End of input

  /**
    The loop thread is a daemon: at end of input the process exits at once, and whatever is still
    queued or in flight is lost.  With the mutex free nothing is in flight, so then an empty queue
    decides, which main could look at before it exits.
   */
  lemma ExitKeepsAllIffDrained(capacity: nat, s: State)
    requires Reachable(Sys(capacity), s)
    ensures s.mutex == None ==> (s.handed == s.appended <==> s.queue == [])
    ensures s.handed == s.appended <==> s.queue == [] && !s.loop.Sending?
  {
    ReachableInv(capacity, s);
    assert |s.appended| == |s.handed| + |InFlight(s)| + |s.queue|;
  }

  /**
    End of input loses nothing that the loop has had nine turns, and two for each message then
    pending, to hand over: at the end of such a schedule, if no message was appended meanwhile,
    everything has been handed over.
   */
  lemma ExitAfterEnoughTurns(capacity: nat, s: State, acts: seq<Action>)
    requires Reachable(Sys(capacity), s) && CanRun(capacity, s, acts) && StaysWritable(capacity, s, acts)
    requires LoopSteps(acts) >= 2 * (|s.appended| - |s.handed|) + 9
    requires After(capacity, s, acts).appended == s.appended
    ensures var end := After(capacity, s, acts); end.handed == end.appended
  {
    var end := After(capacity, s, acts);
    NothingLostOrDuplicated(capacity, s);
    ReachableAfter(capacity, s, acts);
    NothingLostOrDuplicated(capacity, end);
    if s.appended != [] {
      MessageIsDelivered(capacity, s, acts, |s.appended| - 1);
    }
  }

  /** Main at input can exit whatever the loop is doing, and the loop then does nothing more. */
  lemma ExitLosesTheRest(capacity: nat, s: State) returns (end: State)
    requires Reachable(Sys(capacity), s) && s.main == Input && !s.exited
    ensures Reachable(Sys(capacity), end) && end.exited && forall s' :: !Next(capacity, end, s')
    ensures end.appended == s.appended == end.handed + InFlight(s) + s.queue
  {
    ReachableInv(capacity, s);
    end := Do(capacity, s, EndOfInput);
    assert Next(capacity, s, end);
    ReachableNext(Sys(capacity), s, end);
  }

  lemma ExitCanLoseAMessage(capacity: nat, msg: Message) returns (s: State)
    requires capacity > 0
    ensures Reachable(Sys(capacity), s) && s.exited && s.appended == [msg] && s.handed == []
    ensures forall s' :: !Next(capacity, s, s')
  {
    var s0 := State([], None, 0, AcquireBuild, Input, false, [], []);
    var s1 := Do(capacity, s0, TypeMessage(msg));
    var s2 := Do(capacity, s1, MainStep);
    var s3 := Do(capacity, s2, MainStep);
    var s4 := Do(capacity, s3, MainStep);
    var s5 := Do(capacity, s4, MainStep);
    s := Do(capacity, s5, EndOfInput);
    assert Next(capacity, s0, s1) && Next(capacity, s1, s2) && Next(capacity, s2, s3);
    assert Next(capacity, s3, s4) && Next(capacity, s4, s5) && Next(capacity, s5, s);
    var run := [s0, s1, s2, s3, s4, s5, s];
    assert IsRun(Sys(capacity), run) && run[|run| - 1] == s;
  }
}
