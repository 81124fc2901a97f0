/**
  Which tasks go unreported: exactly those whose elf is cancelled between finishing a task and
  printing that it did.  Two concrete runs show that this happens, and that Dobby and the elves overlap.
 */
module HogwartsReports {
  import opened Runs
  import opened Hogwarts
  import opened HogwartsProofs
  import opened HogwartsTheorems

  /** The elves that a step cuts off in front of their report. */
  function CutElves(es: seq<ElfPc>, es': seq<ElfPc>): set<nat> {
    set k: nat | k < |es| && k < |es'| && es[k] == Report && es'[k] == Gone
  }

  /** The tasks cut off along a run. */
  function Cuts(run: seq<State>): nat {
    if |run| <= 1 then 0
    else Cuts(run[..|run| - 1]) + |CutElves(run[|run| - 2].elves, run[|run| - 1].elves)|
  }

  /** What the equation between tasks taken, reported, in hand and cut off says of one step. */
  predicate StepAccounts(s: State, s': State) {
    |s'.taken| + s.reported + Sum(s.elves, InHand)
      == |s.taken| + s'.reported + Sum(s'.elves, InHand) + |CutElves(s.elves, s'.elves)|
  }

  lemma DobbyAccounts(c: Config, s: State)
    requires Shape(c, s) && CancelInv(s) && DobbyEnabled(s)
    ensures StepAccounts(s, DobbyDo(c, s))
  {
    if s.dobby.Spawn? {
      SumUpdate(s.elves, s.dobby.i, WaitFull, InHand);
    }
    assert CutElves(s.elves, DobbyDo(c, s).elves) == {};
  }

  lemma ElfAccounts(s: State, k: nat)
    requires k < |s.elves| && ElfEnabled(s, k) && s.elves[k] != Handler
    requires s.elves[k] == Take ==> s.list != []
    ensures StepAccounts(s, ElfDo(s, k))
  {
    ElfMovesInHand(s, k);
    var s' := ElfDo(s, k);
    assert s'.elves == s.elves[k := s'.elves[k]] && s'.elves[k] != Gone;
    assert CutElves(s.elves, s'.elves) == {};
  }

  lemma CancelAccounts(s: State, k: nat)
    requires k < |s.elves| && (s.elves[k] == WaitFull || s.elves[k] == Report)
    ensures StepAccounts(s, CancelDo(s, k))
  {
    SumUpdate(s.elves, k, Gone, InHand);
    assert CutElves(s.elves, CancelDo(s, k).elves) == if s.elves[k] == Report then {k} else {};
  }

  lemma EveryStepAccounts(c: Config, s: State, s': State)
    requires Inv(c, s) && Next(c, s, s')
    ensures StepAccounts(s, s')
  {
    var a :| Enabled(s, a) && s' == Do(c, s, a);
    match a
    case DobbyStep => DobbyAccounts(c, s);
    case ElfStep(k) =>
      if s.elves[k] == Take {
        TakeFindsTask(s, k);
      }
      ElfAccounts(s, k);
    case ElfCancel(k) =>
      Quiet(c, s);
      CancelAccounts(s, k);
  }

  lemma FirstStateAccounts(c: Config, s: State)
    requires Init(c, s)
    ensures |s.taken| == s.reported + Sum(s.elves, InHand)
  {
    SumConstant(s.elves, InHand, 0);
  }

  lemma {:induction false} RunAccounts(c: Config, run: seq<State>)
    requires IsRun(Sys(c), run)
    ensures var s := run[|run| - 1]; |s.taken| == s.reported + Sum(s.elves, InHand) + Cuts(run)
  {
    if |run| == 1 {
      FirstStateAccounts(c, run[0]);
    } else {
      var before := run[..|run| - 1];
      assert IsRun(Sys(c), before);
      RunAccounts(c, before);
      assert Reachable(Sys(c), before[|before| - 1]);
      ReachableInv(c, before[|before| - 1]);
      assert Sys(c).next(run[|run| - 2], run[|run| - 1]);
      EveryStepAccounts(c, run[|run| - 2], run[|run| - 1]);
    }
  }

  /**
    A task taken is reported, is in an elf's hands, or was cut off by a cancellation in front of its
    report; when Dobby has returned, the reports and the cuts make up all tasks.
   */
  lemma UnreportedAreCut(c: Config, run: seq<State>)
    requires IsRun(Sys(c), run)
    ensures var s := run[|run| - 1];
            && |s.taken| == s.reported + Sum(s.elves, InHand) + Cuts(run)
            && (s.dobby == Returned ==> s.reported + Cuts(run) == c.tasks)
  {
    RunAccounts(c, run);
    var s := run[|run| - 1];
    if s.dobby == Returned {
      assert Reachable(Sys(c), s);
      EndAccounts(c, s);
    }
  }

  lemma EndAccounts(c: Config, s: State)
    requires Reachable(Sys(c), s) && s.dobby == Returned
    ensures |s.taken| == c.tasks && Sum(s.elves, InHand) == 0
  {
    ReachableInv(c, s);
    NothingInHand(c, s);
    AllTaken(c, s);
  }

  lemma NothingInHand(c: Config, s: State)
    requires Shape(c, s) && CancelInv(s) && s.dobby == Returned
    ensures Sum(s.elves, InHand) == 0
  {
    SumConstant(s.elves, InHand, 0);
  }

  lemma AllTaken(c: Config, s: State)
    requires Reachable(Sys(c), s) && s.dobby == Returned
    ensures |s.taken| == c.tasks
  {
    TasksAreConserved(c, s);
    AllTasksTakenAtTheEnd(c, s);
  }

  // ----- A run that cuts a task off

  lemma Move(c: Config, s: State, a: Action) returns (s': State)
    requires Reachable(Sys(c), s) && Enabled(s, a)
    ensures Reachable(Sys(c), s') && s' == Do(c, s, a)
  {
    s' := Do(c, s, a);
    assert Next(c, s, s');
    ReachableNext(Sys(c), s, s');
  }

  /** One elf and one task: Dobby has posted the task and waits. */
  lemma OneTaskPosted() returns (s: State)
    ensures Reachable(Sys(Config(1, 1, 1)), s)
    ensures s == State(0, [1], 1, 1, 0, 1, None, Wait, [WaitFull], [false], false, [], 1, 0)
  {
    var c := Config(1, 1, 1);
    s := State(1, [], 0, 0, 1, 0, None, Spawn(0), [Unborn], [false], false, [], 0, 0);
    InitialIsReachable(Sys(c), s);
    s := Move(c, s, DobbyStep);
    assert s.elves == [WaitFull];
    s := Move(c, s, DobbyStep);
    s := Move(c, s, DobbyStep);
    assert s.dobby == Post(1, 0);
    s := Move(c, s, DobbyStep);
    assert s.list == [1];
    s := Move(c, s, DobbyStep);
    s := Move(c, s, DobbyStep);
  }

  lemma OneTaskTaken() returns (s: State)
    ensures Reachable(Sys(Config(1, 1, 1)), s)
    ensures s == State(0, [], 0, 1, 0, 0, Some(0), Wait, [Test], [false], false, [1], 1, 0)
  {
    var c := Config(1, 1, 1);
    s := OneTaskPosted();
    s := Move(c, s, ElfStep(0));
    s := Move(c, s, ElfStep(0));
    assert s.elves == [Take] && s.list[1..] == [] && s.taken + [s.list[0]] == [1];
    s := Move(c, s, ElfStep(0));
    assert s.elves == [Dec];
    s := Move(c, s, ElfStep(0));
  }

  /** The elf has done the task and woken Dobby, and stands in front of its report. */
  lemma OneTaskDone() returns (s: State)
    ensures Reachable(Sys(Config(1, 1, 1)), s)
    ensures s == State(0, [], 0, 1, 1, 0, None, Wait, [Report], [false], false, [1], 1, 0)
  {
    var c := Config(1, 1, 1);
    s := OneTaskTaken();
    s := Move(c, s, ElfStep(0));
    s := Move(c, s, ElfStep(0));
    s := Move(c, s, ElfStep(0));
    s := Move(c, s, ElfStep(0));
    s := Move(c, s, ElfStep(0));
  }

  lemma OneTaskCut() returns (s: State)
    ensures Reachable(Sys(Config(1, 1, 1)), s)
    ensures s.dobby == Returned && s.taken == [1] && s.reported == 0
  {
    var c := Config(1, 1, 1);
    s := OneTaskDone();
    s := Move(c, s, DobbyStep);
    s := Move(c, s, DobbyStep);
    s := Move(c, s, DobbyStep);
    s := Move(c, s, ElfCancel(0));
    s := Move(c, s, DobbyStep);
  }

  /** A task can be cut off: the only task is done, and Dobby returns without its report. */
  lemma TaskCanBeCut() returns (run: seq<State>)
    ensures IsRun(Sys(Config(1, 1, 1)), run) && Cuts(run) == 1
    ensures var s := run[|run| - 1]; s.dobby == Returned && s.taken == [1] && s.reported == 0
  {
    var c := Config(1, 1, 1);
    var s := OneTaskCut();
    run :| IsRun(Sys(c), run) && run[|run| - 1] == s;
    UnreportedAreCut(c, run);
  }

  // ----- A run in which Dobby and an elf are busy at once

  /** One elf, two tasks in a batch: the elf is already at the list while Dobby still signals. */
  lemma ElfTakesWhileDobbySignals() returns (s: State)
    ensures Reachable(Sys(Config(1, 2, 2)), s)
    ensures s.dobby == SemPost(1) && s.elves == [Take] && s.list == [2, 1]
  {
    var c := Config(1, 2, 2);
    s := State(2, [], 0, 0, 1, 0, None, Spawn(0), [Unborn], [false], false, [], 0, 0);
    InitialIsReachable(Sys(c), s);
    s := Move(c, s, DobbyStep);
    s := Move(c, s, DobbyStep);
    s := Move(c, s, DobbyStep);
    s := Move(c, s, DobbyStep);
    s := Move(c, s, DobbyStep);
    assert s.list == [2, 1];
    s := Move(c, s, DobbyStep);
    s := Move(c, s, DobbyStep);
    s := Move(c, s, ElfStep(0));
    s := Move(c, s, ElfStep(0));
  }
}
