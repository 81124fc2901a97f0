/**
  Two threads handing a counter back and forth (05-threading/examples/src/condition.c).

  Thread One counts except while the count is in the window [halt1, halt2], where thread Two
  counts.  Two may return with the mutex still locked.  The thresholds are symbolic, and a
  waiting thread may also wake for no reason.
 */
module HandOff {
  import opened Runs

  datatype Config = Config(halt1: nat, halt2: nat, done: nat, wakeups: nat) {
    predicate Valid() { halt1 <= halt2 && halt2 + 1 < done }
    predicate InWindow(count: nat) { halt1 <= count <= halt2 }
  }

  datatype Who = One | Two

  // Arrived is Two's test for COUNT_DONE; FinalSignal is One's signal after its last unlock.
  datatype Pc =
    | Lock | Test | Waiting | Relock | Arrived | Inc | SetDone | Signal | Unlock | FinalSignal | Returned

  // movers[c] records which thread moved the count from c to c + 1.
  datatype State = State(
    count: nat, mutex: Option<Who>, one: Pc, two: Pc, done1: bool, done2: bool, movers: seq<Who>, wakeups: nat)

  datatype Action = Step(who: Who) | Spurious(who: Who)

  ghost predicate Init(cfg: Config, s: State) {
    s == State(0, None, Lock, Lock, false, false, [], cfg.wakeups)
  }

  predicate CanMove(s: State, pc: Pc) {
    match pc
    case Lock => s.mutex == None
    case Relock => s.mutex == None
    case Waiting => false
    case Returned => false
    case _ => true
  }

  predicate Enabled(s: State, a: Action) {
    match a
    case Step(One) => CanMove(s, s.one)
    case Step(Two) => CanMove(s, s.two)
    case Spurious(One) => s.one == Waiting && s.wakeups > 0
    case Spurious(Two) => s.two == Waiting && s.wakeups > 0
  }

  function Wake(pc: Pc): Pc { if pc == Waiting then Relock else pc }

  function OneDo(cfg: Config, s: State): State {
    match s.one
    case Test => if cfg.InWindow(s.count) then s.(one := Waiting, mutex := None) else s.(one := Inc)
    case Inc => s.(count := s.count + 1, movers := s.movers + [One], one := SetDone)
    case SetDone => s.(done1 := s.done1 || s.count >= cfg.done, one := Signal)
    case Signal => s.(two := if cfg.InWindow(s.count) then Wake(s.two) else s.two, one := Unlock)
    case Unlock => s.(mutex := None, one := if s.done1 then FinalSignal else Lock)
    case FinalSignal => s.(two := Wake(s.two), one := Returned)
    case _ => s.(mutex := Some(One), one := Test)
  }

  function TwoDo(cfg: Config, s: State): State {
    match s.two
    case Test =>
      if s.count < cfg.halt1 || (s.count > cfg.halt2 && s.count < cfg.done) then s.(two := Waiting, mutex := None)
      else s.(two := Arrived)
    case Arrived => s.(two := if s.count == cfg.done then Returned else Inc)
    case Inc => s.(count := s.count + 1, movers := s.movers + [Two], two := SetDone)
    case SetDone => s.(done2 := s.done2 || s.count >= cfg.done, two := Signal)
    case Signal => s.(one := if !cfg.InWindow(s.count) then Wake(s.one) else s.one, two := Unlock)
    case Unlock => s.(mutex := None, two := if s.done2 then Returned else Lock)
    case _ => s.(mutex := Some(Two), two := Test)
  }

  function Do(cfg: Config, s: State, a: Action): State
    requires Enabled(s, a)
  {
    match a
    case Step(One) => OneDo(cfg, s)
    case Step(Two) => TwoDo(cfg, s)
    case Spurious(One) => s.(one := Relock, wakeups := s.wakeups - 1)
    case Spurious(Two) => s.(two := Relock, wakeups := s.wakeups - 1)
  }

  ghost predicate Next(cfg: Config, s: State, s': State) {
    exists a :: Enabled(s, a) && s' == Do(cfg, s, a)
  }

  ghost function Sys(cfg: Config): System<State> {
    System(s => Init(cfg, s), (s, s') => Next(cfg, s, s'))
  }

  // ----- Invariant

  predicate Holds(pc: Pc) {
    pc == Test || pc == Arrived || pc == Inc || pc == SetDone || pc == Signal || pc == Unlock
  }

  /** One before its increment. */
  predicate Before(pc: Pc) { pc == Lock || pc == Test || pc == Waiting || pc == Relock || pc == Inc }

  ghost predicate Shared(cfg: Config, s: State) {
    && |s.movers| == s.count
    && forall c :: 0 <= c < |s.movers| ==> (s.movers[c] == Two <==> cfg.InWindow(c))
  }

  predicate OneInv(cfg: Config, s: State) {
    && (s.mutex == Some(One) <==> Holds(s.one))
    && s.one != Arrived
    && (Before(s.one) ==> s.count < cfg.done && !s.done1)
    && (s.one == SetDone ==> !s.done1)
    && (s.one == Inc ==> !cfg.InWindow(s.count))
    && (s.one == Signal || s.one == Unlock ==> (s.done1 <==> s.count == cfg.done))
    && (s.one == FinalSignal || s.one == Returned ==> s.count == cfg.done)
  }

  predicate TwoInv(cfg: Config, s: State) {
    && (s.mutex == Some(Two) <==> Holds(s.two) || s.two == Returned)
    && s.two != FinalSignal && !s.done2
    && (s.two == Arrived ==> cfg.InWindow(s.count) || s.count == cfg.done)
    && (s.two == Inc ==> cfg.InWindow(s.count))
    && (s.two == SetDone || s.two == Signal || s.two == Unlock ==> cfg.halt1 < s.count <= cfg.halt2 + 1)
    && (s.two == Returned ==> s.count == cfg.done)
  }

  /** One has counted and will still signal Two about it. */
  predicate OneWillSignal(cfg: Config, s: State) {
    || ((s.one == SetDone || s.one == Signal) && cfg.InWindow(s.count))
    || ((s.one == SetDone || s.one == Signal || s.one == Unlock || s.one == FinalSignal) && s.count == cfg.done)
  }

  predicate TwoWillSignal(cfg: Config, s: State) {
    (s.two == SetDone || s.two == Signal) && s.count == cfg.halt2 + 1
  }

  predicate WaitInv(cfg: Config, s: State) {
    && (s.one == Waiting ==> cfg.InWindow(s.count) || TwoWillSignal(cfg, s))
    && (s.two == Waiting ==> (!cfg.InWindow(s.count) && s.count < cfg.done) || OneWillSignal(cfg, s))
  }

  ghost predicate Inv(cfg: Config, s: State) {
    cfg.Valid() && s.count <= cfg.done && Shared(cfg, s) && OneInv(cfg, s) && TwoInv(cfg, s) && WaitInv(cfg, s)
  }

  lemma OneKeepsInv(cfg: Config, s: State)
    requires Inv(cfg, s) && CanMove(s, s.one)
    ensures Inv(cfg, OneDo(cfg, s))
  {
  }

  lemma TwoKeepsInv(cfg: Config, s: State)
    requires Inv(cfg, s) && CanMove(s, s.two)
    ensures Inv(cfg, TwoDo(cfg, s))
  {
  }

  lemma StepKeepsInv(cfg: Config, s: State, a: Action)
    requires Inv(cfg, s) && Enabled(s, a)
    ensures Inv(cfg, Do(cfg, s, a))
  {
    if a == Step(One) {
      OneKeepsInv(cfg, s);
    } else if a == Step(Two) {
      TwoKeepsInv(cfg, s);
    }
  }

  lemma InvInductive(cfg: Config)
    requires cfg.Valid()
    ensures Inductive(Sys(cfg), s => Inv(cfg, s))
  {
    forall s, s' | Inv(cfg, s) && Next(cfg, s, s') ensures Inv(cfg, s') {
      var a :| Enabled(s, a) && s' == Do(cfg, s, a);
      StepKeepsInv(cfg, s, a);
    }
  }

  lemma ReachableInv(cfg: Config, s: State)
    requires cfg.Valid() && Reachable(Sys(cfg), s)
    ensures Inv(cfg, s)
  {
    InvInductive(cfg);
    InvariantIfReachable(Sys(cfg), s => Inv(cfg, s), s);
  }

  // ----- What the hand-off guarantees

  /** Two makes exactly the increments in the window, One all the others, and nobody overshoots. */
  lemma WindowBelongsToTwo(cfg: Config, s: State)
    requires cfg.Valid() && Reachable(Sys(cfg), s)
    ensures |s.movers| == s.count <= cfg.done
    ensures forall c :: 0 <= c < s.count ==> (s.movers[c] == Two <==> cfg.halt1 <= c <= cfg.halt2)
  {
    ReachableInv(cfg, s);
  }

  /** A waiting thread is not wanted, or the other is about to signal it. */
  lemma NoLostWakeup(cfg: Config, s: State)
    requires cfg.Valid() && Reachable(Sys(cfg), s)
    ensures s.one == Waiting ==> cfg.InWindow(s.count) || TwoWillSignal(cfg, s)
    ensures s.two == Waiting ==> (!cfg.InWindow(s.count) && s.count < cfg.done) || OneWillSignal(cfg, s)
    ensures !(s.one == Waiting && s.two == Waiting)
  {
    ReachableInv(cfg, s);
  }

  /** A woken thread is wanted, by its own count or because the other one has finished. */
  predicate WokenIsWanted(cfg: Config, s: State) {
    && s.wakeups == 0
    && (s.two == Relock ==> cfg.InWindow(s.count) || s.count == cfg.done)
    && (s.one == Relock ==> !cfg.InWindow(s.count))
  }

  lemma StepWakesWanted(cfg: Config, s: State, who: Who)
    requires Inv(cfg, s) && WokenIsWanted(cfg, s) && Enabled(s, Step(who))
    ensures WokenIsWanted(cfg, Do(cfg, s, Step(who)))
  {
  }

  /** Nobody is signalled in vain: without spurious wakeups a thread wakes only when it is wanted. */
  lemma NoWakeupInVain(cfg: Config, s: State)
    requires cfg.Valid() && cfg.wakeups == 0 && Reachable(Sys(cfg), s)
    ensures s.two == Relock ==> cfg.InWindow(s.count) || s.count == cfg.done
    ensures s.one == Relock ==> !cfg.InWindow(s.count)
  {
    forall s, s' | Inv(cfg, s) && WokenIsWanted(cfg, s) && Next(cfg, s, s')
      ensures Inv(cfg, s') && WokenIsWanted(cfg, s')
    {
      var a :| Enabled(s, a) && s' == Do(cfg, s, a);
      StepKeepsInv(cfg, s, a);
      StepWakesWanted(cfg, s, a.who);
    }
    InvInductive(cfg);
    InvariantIfReachable(Sys(cfg), s => Inv(cfg, s) && WokenIsWanted(cfg, s), s);
  }

  /** Two returns with the mutex locked, but by then One has unlocked it for the last time. */
  lemma MutexLeftLockedBlocksNobody(cfg: Config, s: State)
    requires cfg.Valid() && Reachable(Sys(cfg), s) && s.two == Returned
    ensures s.mutex == Some(Two) && s.count == cfg.done
    ensures s.one == FinalSignal || s.one == Returned
  {
    ReachableInv(cfg, s);
  }

  lemma NeverStuck(cfg: Config, s: State)
    requires cfg.Valid() && Reachable(Sys(cfg), s) && !(s.one == Returned && s.two == Returned)
    ensures Enabled(s, Step(One)) || Enabled(s, Step(Two))
  {
    ReachableInv(cfg, s);
    match s.mutex
    case None => assert !Holds(s.one) && !Holds(s.two);
    case Some(One) => assert Holds(s.one);
    case Some(Two) => assert Holds(s.two) || s.two == Returned;
  }

  function Cost(pc: Pc): nat {
    match pc
    case Lock => 10
    case Relock => 10
    case Test => 9
    case Waiting => 8
    case Arrived => 8
    case Inc => 7
    case SetDone => 16
    case Signal => 15
    case Unlock => 12
    case FinalSignal => 3
    case Returned => 0
  }

  function Measure(cfg: Config, s: State): int {
    10 * (cfg.done - s.count) + Cost(s.one) + Cost(s.two) + 3 * s.wakeups
  }

  lemma OneMakesProgress(cfg: Config, s: State)
    requires CanMove(s, s.one) && s.one != Arrived
    ensures Measure(cfg, OneDo(cfg, s)) < Measure(cfg, s)
  {
  }

  lemma TwoMakesProgress(cfg: Config, s: State)
    requires CanMove(s, s.two) && s.two != FinalSignal
    ensures Measure(cfg, TwoDo(cfg, s)) < Measure(cfg, s)
  {
  }

  lemma StepMakesProgress(cfg: Config, s: State, a: Action)
    requires Enabled(s, a) && s.one != Arrived && s.two != FinalSignal
    ensures Measure(cfg, Do(cfg, s, a)) < Measure(cfg, s)
  {
    if a == Step(One) {
      OneMakesProgress(cfg, s);
    } else if a == Step(Two) {
      TwoMakesProgress(cfg, s);
    }
  }

  lemma NextMakesProgress(cfg: Config, s: State, s': State)
    requires Inv(cfg, s) && Next(cfg, s, s')
    ensures 0 <= Measure(cfg, s') < Measure(cfg, s)
  {
    var a :| Enabled(s, a) && s' == Do(cfg, s, a);
    StepMakesProgress(cfg, s, a);
    StepKeepsInv(cfg, s, a);
  }

  lemma StuckIsDone(cfg: Config, s: State)
    requires cfg.Valid() && Reachable(Sys(cfg), s) && forall s' :: !Next(cfg, s, s')
    ensures s.one == s.two == Returned && s.count == cfg.done
  {
    ReachableInv(cfg, s);
    if !(s.one == Returned && s.two == Returned) {
      NeverStuck(cfg, s);
      var a := if Enabled(s, Step(One)) then Step(One) else Step(Two);
      assert Next(cfg, s, Do(cfg, s, a));
    }
  }

  /** Every run ends, and it can end only with both threads returned and the count at `done`. */
  lemma EveryRunEnds(cfg: Config, run: seq<State>)
    requires cfg.Valid() && IsRun(Sys(cfg), run)
    ensures |run| <= 10 * cfg.done + 3 * cfg.wakeups + 21
    ensures var last := run[|run| - 1];
            (forall s' :: !Next(cfg, last, s')) ==> last.one == last.two == Returned && last.count == cfg.done
  {
    InvInductive(cfg);
    var measure: State -> nat := (s: State) => if Measure(cfg, s) < 0 then 0 else Measure(cfg, s);
    forall s, s' | Inv(cfg, s) && Next(cfg, s, s') ensures measure(s') < measure(s) {
      NextMakesProgress(cfg, s, s');
    }
    RunIsBounded(Sys(cfg), s => Inv(cfg, s), measure, run, |run| - 1);
    var last := run[|run| - 1];
    assert Reachable(Sys(cfg), last);
    if forall s' :: !Next(cfg, last, s') {
      StuckIsDone(cfg, last);
    }
  }

  // ----- Why there must be room after the window

  lemma Move(cfg: Config, s: State, who: Who) returns (s': State)
    requires Reachable(Sys(cfg), s) && Enabled(s, Step(who))
    ensures Reachable(Sys(cfg), s') && s' == Do(cfg, s, Step(who))
  {
    s' := Do(cfg, s, Step(who));
    assert Next(cfg, s, s');
    ReachableNext(Sys(cfg), s, s');
  }

  /** Between rounds: nobody holds the mutex and both threads are about to lock it. */
  predicate Idle(s: State, count: nat) {
    s.count == count && s.mutex == None && s.one == s.two == Lock && !s.done1 && !s.done2
  }

  lemma RoundOfOne(cfg: Config, s: State) returns (s': State)
    requires Reachable(Sys(cfg), s) && Idle(s, s.count) && !cfg.InWindow(s.count) && s.count + 1 < cfg.done
    ensures Reachable(Sys(cfg), s') && Idle(s', s.count + 1)
  {
    s' := Move(cfg, s, One);
    s' := Move(cfg, s', One);
    s' := Move(cfg, s', One);
    s' := Move(cfg, s', One);
    s' := Move(cfg, s', One);
    s' := Move(cfg, s', One);
  }

  lemma TwoCounts(cfg: Config, s: State) returns (s': State)
    requires Reachable(Sys(cfg), s) && Idle(s, s.count) && cfg.InWindow(s.count) && s.count < cfg.done
    ensures Reachable(Sys(cfg), s')
    ensures s' == s.(count := s.count + 1, movers := s'.movers, mutex := Some(Two), two := SetDone)
  {
    s' := Move(cfg, s, Two);
    s' := Move(cfg, s', Two);
    s' := Move(cfg, s', Two);
    s' := Move(cfg, s', Two);
  }

  lemma RoundOfTwo(cfg: Config, s: State) returns (s': State)
    requires Reachable(Sys(cfg), s) && Idle(s, s.count) && cfg.InWindow(s.count) && s.count < cfg.done
    ensures Reachable(Sys(cfg), s')
    ensures if s.count + 1 < cfg.done then Idle(s', s.count + 1)
            else s' == s'.(count := cfg.done, mutex := None, one := Lock, two := Returned)
  {
    s' := TwoCounts(cfg, s);
    s' := Move(cfg, s', Two);
    s' := Move(cfg, s', Two);
    s' := Move(cfg, s', Two);
  }

  lemma {:induction false} CountTo(cfg: Config, count: nat) returns (s: State)
    requires count < cfg.done
    ensures Reachable(Sys(cfg), s) && Idle(s, count)
  {
    if count == 0 {
      s := State(0, None, Lock, Lock, false, false, [], cfg.wakeups);
      InitialIsReachable(Sys(cfg), s);
    } else {
      var before := CountTo(cfg, count - 1);
      if cfg.InWindow(count - 1) {
        s := RoundOfTwo(cfg, before);
      } else {
        s := RoundOfOne(cfg, before);
      }
    }
  }

  /** With the window ending right before `done`, Two makes the last increment and One one too many. */
  lemma Overshoot(cfg: Config) returns (s: State)
    requires cfg.halt1 <= cfg.halt2 && cfg.halt2 + 1 == cfg.done
    ensures Reachable(Sys(cfg), s) && s.count == cfg.done + 1
  {
    s := CountTo(cfg, cfg.halt2);
    s := RoundOfTwo(cfg, s);
    s := Move(cfg, s, One);
    s := Move(cfg, s, One);
    s := Move(cfg, s, One);
  }

  /** For a window below `done`, the count never passes `done` exactly when room is left after the window. */
  lemma NeverOvershootsIff(cfg: Config)
    requires cfg.halt1 <= cfg.halt2 < cfg.done
    ensures (forall s :: Reachable(Sys(cfg), s) ==> s.count <= cfg.done) <==> cfg.halt2 + 1 < cfg.done
  {
    if cfg.halt2 + 1 < cfg.done {
      forall s | Reachable(Sys(cfg), s) ensures s.count <= cfg.done {
        WindowBelongsToTwo(cfg, s);
      }
    } else {
      var s := Overshoot(cfg);
    }
  }
}
