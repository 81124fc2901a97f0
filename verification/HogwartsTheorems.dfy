/**
  What the refill protocol guarantees in every reachable state and over whole runs.
 */
module HogwartsTheorems {
  import opened Runs
  import opened Hogwarts
  import opened HogwartsProofs
  import opened Arith

  // ----- Safety

  predicate DobbyWrites(d: DobbyPc) { d.Post? || d.SetActive? }

  predicate ElfTouches(p: ElfPc) { p == Take || p == Dec || p == Test }

  /** No elf takes from an empty list, and no two threads are ever at the shared list or counter together. */
  lemma NoEmptyTakeNoRace(c: Config, s: State)
    requires Reachable(Sys(c), s)
    ensures !s.exited
    ensures forall k :: 0 <= k < |s.elves| && s.elves[k] == Take ==> s.list != [] && s.active > 0
    ensures DobbyWrites(s.dobby) ==> forall k :: 0 <= k < |s.elves| ==> !ElfTouches(s.elves[k])
    ensures forall j, k :: 0 <= j < |s.elves| && 0 <= k < |s.elves| && Critical(s.elves[j]) && Critical(s.elves[k]) ==> j == k
  {
    ReachableInv(c, s);
    forall k | 0 <= k < |s.elves| && s.elves[k] == Take ensures s.list != [] && s.active > 0 {
      TakeFindsTask(s, k);
    }
    if DobbyWrites(s.dobby) {
      Quiet(c, s);
    }
  }

  /** Exactly one refill token exists. */
  lemma OneToken(c: Config, s: State)
    requires Reachable(Sys(c), s)
    ensures s.emptyList <= 1
    ensures s.emptyList == 1 ==> !DobbyHolds(s.dobby) && !BatchHolds(s)
    ensures DobbyHolds(s.dobby) ==> s.emptyList == 0 && !BatchHolds(s)
    ensures BatchHolds(s) ==> s.emptyList == 0 && !DobbyHolds(s.dobby)
    ensures s.emptyList == 1 || DobbyHolds(s.dobby) || BatchHolds(s)
  {
    ReachableInv(c, s);
  }

  /**
    No cancellation is delivered to an elf that holds the mutex, so house_elf_cleanup never runs;
    once Dobby is cancelling, an elf that still holds the mutex has only the unlock left.
   */
  lemma CancellationIsHarmless(c: Config, s: State)
    requires Reachable(Sys(c), s)
    ensures forall k: nat :: Enabled(s, ElfCancel(k)) ==> s.mutex != Some(k) && Closing(s.dobby)
    ensures forall k :: 0 <= k < |s.elves| ==> s.elves[k] != Handler
    ensures Closing(s.dobby) ==>
              forall k :: 0 <= k < |s.elves| && (s.mutex == Some(k) || s.elves[k] == Lock) ==> s.elves[k] == Unlock
  {
    ReachableInv(c, s);
    if Closing(s.dobby) {
      Quiet(c, s);
      HolderIsUnlocking(s);
    } else {
      NobodyIsCancelled(s);
    }
  }

  lemma HolderIsUnlocking(s: State)
    requires MutexInv(s)
    requires forall k :: 0 <= k < |s.elves| ==> s.elves[k] !in {Lock, Take, Dec, Test, WakePrint, PostEmpty}
    ensures forall k: nat :: Enabled(s, ElfCancel(k)) ==> s.mutex != Some(k)
    ensures forall k :: 0 <= k < |s.elves| && (s.mutex == Some(k) || s.elves[k] == Lock) ==> s.elves[k] == Unlock
  {
  }

  lemma NobodyIsCancelled(s: State)
    requires |s.cancelled| == |s.elves| && CancelInv(s) && !Closing(s.dobby)
    ensures forall k: nat :: !Enabled(s, ElfCancel(k))
  {
  }

  /**
    Dobby and an elf never get in each other's way: when both can move, either can go first, the other
    can still move, and the outcome is the same, although Dobby writes the list and the counter unlocked.
   */
  lemma DobbyAndElfCommute(c: Config, s: State, k: nat)
    requires Reachable(Sys(c), s) && Enabled(s, DobbyStep) && Enabled(s, ElfStep(k))
    ensures Enabled(DobbyDo(c, s), ElfStep(k)) && Enabled(ElfDo(s, k), DobbyStep)
    ensures ElfDo(DobbyDo(c, s), k) == DobbyDo(c, ElfDo(s, k))
  {
    NoEmptyTakeNoRace(c, s);
    ReachableInv(c, s);
    match s.dobby {
      case Spawn(_) => SpawnCommutes(c, s, k);
      case Wait => WaitCommutes(c, s, k);
      case Check => CheckCommutes(c, s, k);
      case SemPost(_) => SemPostCommutes(c, s, k);
      case Cancel(_) => CancelCommutes(c, s, k);
      case Join(_) => JoinCommutes(c, s, k);
      case Post(_, _) => PostCommutes(c, s, k);
      case SetActive(_) => SetActiveCommutes(c, s, k);
    }
    NeitherExits(c, s, k);
  }

  lemma NeitherExits(c: Config, s: State, k: nat)
    requires Inv(c, s) && DobbyEnabled(s) && k < |s.elves| && ElfEnabled(s, k)
    ensures !DobbyDo(c, s).exited && !ElfDo(s, k).exited && |ElfDo(s, k).elves| == |s.elves|
  {
    DobbyKeepsInv(c, s);
    ElfKeepsInv(c, s, k);
  }

  ghost predicate Commute(c: Config, s: State, k: nat)
    requires DobbyEnabled(s) && k < |s.elves| && ElfEnabled(s, k)
  {
    && k < |DobbyDo(c, s).elves| && ElfEnabled(DobbyDo(c, s), k) && DobbyEnabled(ElfDo(s, k))
    && ElfDo(DobbyDo(c, s), k) == DobbyDo(c, ElfDo(s, k))
  }

  lemma SpawnCommutes(c: Config, s: State, k: nat)
    requires Shape(c, s) && CancelInv(s) && s.dobby.Spawn? && k < |s.elves| && ElfEnabled(s, k)
    requires s.elves[k] == Take ==> s.list != []
    ensures Commute(c, s, k)
  {
    var i, p := s.dobby.i, ElfDo(s, k).elves[k];
    assert s.elves[k := p][i := WaitFull] == s.elves[i := WaitFull][k := p];
  }

  /** An elf's step neither looks at Dobby's own data nor changes it. */
  lemma ElfIgnoresDobby(s: State, k: nat, total: nat, dobby: DobbyPc, cancelled: seq<bool>)
    requires k < |s.elves| && ElfEnabled(s, k) && (s.elves[k] == Take ==> s.list != [])
    ensures ElfDo(s.(total := total, dobby := dobby, cancelled := cancelled), k)
         == ElfDo(s, k).(total := total, dobby := dobby, cancelled := cancelled)
    ensures var s' := ElfDo(s, k); s'.total == s.total && s'.dobby == s.dobby && s'.cancelled == s.cancelled
  {
  }

  lemma PostCommutes(c: Config, s: State, k: nat)
    requires s.dobby.Post? && k < |s.elves| && ElfEnabled(s, k) && !ElfTouches(s.elves[k])
    ensures Commute(c, s, k)
  {
  }

  lemma SetActiveCommutes(c: Config, s: State, k: nat)
    requires s.dobby.SetActive? && k < |s.elves| && ElfEnabled(s, k) && !ElfTouches(s.elves[k])
    ensures Commute(c, s, k)
  {
  }

  lemma WaitCommutes(c: Config, s: State, k: nat)
    requires s.dobby == Wait && DobbyEnabled(s) && k < |s.elves| && ElfEnabled(s, k)
    requires s.elves[k] == Take ==> s.list != []
    ensures Commute(c, s, k)
  {
  }

  lemma SemPostCommutes(c: Config, s: State, k: nat)
    requires s.dobby.SemPost? && k < |s.elves| && ElfEnabled(s, k) && (s.elves[k] == Take ==> s.list != [])
    ensures Commute(c, s, k)
  {
  }

  lemma CheckCommutes(c: Config, s: State, k: nat)
    requires s.dobby == Check && k < |s.elves| && ElfEnabled(s, k) && (s.elves[k] == Take ==> s.list != [])
    ensures Commute(c, s, k)
  {
    var s' := DobbyDo(c, s);
    ElfIgnoresDobby(s, k, s'.total, s'.dobby, s'.cancelled);
  }

  lemma CancelCommutes(c: Config, s: State, k: nat)
    requires s.dobby.Cancel? && DobbyEnabled(s) && k < |s.elves| && ElfEnabled(s, k)
    requires s.elves[k] == Take ==> s.list != []
    ensures Commute(c, s, k)
  {
    var s' := DobbyDo(c, s);
    ElfIgnoresDobby(s, k, s'.total, s'.dobby, s'.cancelled);
  }

  lemma JoinCommutes(c: Config, s: State, k: nat)
    requires s.dobby.Join? && DobbyEnabled(s) && k < |s.elves| && ElfEnabled(s, k)
    requires s.elves[k] == Take ==> s.list != []
    ensures Commute(c, s, k)
  {
    var s' := DobbyDo(c, s);
    ElfIgnoresDobby(s, k, s'.total, s'.dobby, s'.cancelled);
  }

  // ----- Conservation and order

  /** Tasks already subtracted from total_tasks and not yet pushed. */
  function InPost(d: DobbyPc): int { if d.Post? then d.n - d.i else 0 }

  function UpTo(n: nat): seq<nat> {
    if n == 0 then [] else UpTo(n - 1) + [n]
  }

  lemma PushIsAppend(x: seq<nat>, y: seq<nat>, z: seq<nat>, id: nat)
    requires multiset(x) + multiset(y) == multiset(z)
    ensures multiset(x) + multiset([id] + y) == multiset(z + [id])
  {
  }

  lemma {:induction false} DownIsUpTo(lo: nat, hi: nat)
    requires lo <= hi
    ensures multiset(UpTo(lo)) + multiset(Down(lo, hi)) == multiset(UpTo(hi))
  {
    if lo < hi {
      DownIsUpTo(lo, hi - 1);
      PushIsAppend(UpTo(lo), Down(lo, hi - 1), UpTo(hi - 1), hi);
    }
  }

  lemma PostedGrows(c: Config, r: nat)
    requires r > 0
    ensures Posted(c, r - 1) <= Posted(c, r)
  {
    assert c.batch * r == c.batch * (r - 1) + c.batch;
  }

  lemma Together(x: seq<nat>, y: seq<nat>, before: seq<nat>, after: seq<nat>)
    requires multiset(x) == multiset(before) && multiset(before) + multiset(y) == multiset(after)
    ensures multiset(x + y) == multiset(after)
  {
  }

  lemma {:induction false} BatchesLength(c: Config, r: nat)
    ensures |Batches(c, r)| == Posted(c, r)
  {
    if r > 0 {
      BatchesLength(c, r - 1);
      PostedGrows(c, r);
      DownCountsDown(Posted(c, r - 1), Posted(c, r));
    }
  }

  lemma NextBatch(ids: seq<nat>, lo: nat, hi: nat)
    requires lo <= hi && multiset(ids) == multiset(UpTo(lo))
    ensures multiset(ids + Down(lo, hi)) == multiset(UpTo(hi))
  {
    DownIsUpTo(lo, hi);
    Together(ids, Down(lo, hi), UpTo(lo), UpTo(hi));
  }

  lemma {:induction false} BatchesArePermutation(c: Config, r: nat)
    ensures multiset(Batches(c, r)) == multiset(UpTo(Posted(c, r)))
  {
    if r > 0 {
      BatchesArePermutation(c, r - 1);
      PostedGrows(c, r);
      NextBatch(Batches(c, r - 1), Posted(c, r - 1), Posted(c, r));
    } else {
      assert Posted(c, r) == 0;
    }
  }

  lemma TasksAreConserved(c: Config, s: State)
    requires Reachable(Sys(c), s)
    ensures s.total + InPost(s.dobby) + |s.list| + |s.taken| == c.tasks
    ensures s.nextId == |s.list| + |s.taken|
    ensures multiset(s.taken) + multiset(s.list) == multiset(UpTo(s.nextId))
  {
    ReachableInv(c, s);
    var r := Refills(s);
    if s.dobby.Post? {
      BatchesLength(c, r - 1);
      BatchesArePermutation(c, r - 1);
      DownIsUpTo(Posted(c, r - 1), s.nextId);
      DownCountsDown(Posted(c, r - 1), s.nextId);
    } else {
      BatchesLength(c, r);
      BatchesArePermutation(c, r);
      assert multiset(s.taken + s.list) == multiset(s.taken) + multiset(s.list);
    }
  }

  lemma CeilDivIs(n: nat, b: nat, r: nat)
    requires b > 0 && n <= b * r && (r > 0 ==> b * (r - 1) < n)
    ensures CeilDiv(n, b) == r
  {
    assert r > 0 ==> b * (r - 1) == b * r - b;
    QuotientIs(n + b - 1, b, r);
  }

  /**
    When Dobby has left his loop the list is empty, every task 1..N was taken exactly once, newest
    first within each batch, and he was woken ceil(N / batch) + 1 times.  When he has returned,
    at most one task per elf went unreported.
   */
  lemma AllTasksTakenAtTheEnd(c: Config, s: State)
    requires Reachable(Sys(c), s) && Closing(s.dobby)
    ensures s.total == 0 && s.list == [] && s.active == 0
    ensures s.wakes == CeilDiv(c.tasks, c.batch) + 1
    ensures s.taken == Batches(c, CeilDiv(c.tasks, c.batch))
    ensures multiset(s.taken) == multiset(UpTo(c.tasks))
    ensures s.dobby == Returned ==> c.tasks - c.elves <= s.reported <= c.tasks
  {
    ReachableInv(c, s);
    Quiet(c, s);
    NothingLeft(c, s);
    EveryIdTaken(c, s);
    if s.dobby == Returned {
      FewUnreported(c, s);
    }
  }

  lemma NothingLeft(c: Config, s: State)
    requires c.Valid() && OrderInv(c, s) && CountInv(s) && Closing(s.dobby) && s.active == 0
    ensures s.list == [] && Refills(s) >= 0 && c.tasks == Posted(c, Refills(s))
    ensures Refills(s) == CeilDiv(c.tasks, c.batch) && s.taken == Batches(c, Refills(s))
  {
    assert s.list == [];
    assert s.taken + s.list == s.taken;
    CeilDivIs(c.tasks, c.batch, Refills(s));
  }

  lemma EveryIdTaken(c: Config, s: State)
    requires Refills(s) >= 0 && s.taken == Batches(c, Refills(s)) && c.tasks == Posted(c, Refills(s))
    ensures |s.taken| == c.tasks && multiset(s.taken) == multiset(UpTo(c.tasks))
  {
    BatchesLength(c, Refills(s));
    BatchesArePermutation(c, Refills(s));
  }

  lemma FewUnreported(c: Config, s: State)
    requires WorkInv(s) && Shape(c, s) && CancelInv(s) && s.dobby == Returned
    ensures |s.taken| - c.elves <= s.reported <= |s.taken|
  {
    SumConstant(s.elves, InHand, 0);
    SumAtMost(s.elves, IsGone);
  }

  // ----- Progress

  /** Some action is enabled until Dobby has joined every elf: the protocol cannot deadlock. */
  lemma NeverStuck(c: Config, s: State)
    requires Reachable(Sys(c), s) && s.dobby != Returned
    ensures exists s' :: Next(c, s, s')
  {
    ReachableInv(c, s);
    var a := SomeAction(c, s);
    assert Next(c, s, Do(c, s, a));
  }

  lemma SomeAction(c: Config, s: State) returns (a: Action)
    requires Inv(c, s) && s.dobby != Returned
    ensures Enabled(s, a)
  {
    if DobbyEnabled(s) {
      a := DobbyStep;
    } else if s.mutex.Some? {
      a := ElfStep(s.mutex.value);
    } else if s.dobby.Join? {
      Quiet(c, s);
      var k := s.dobby.i;
      a := if CancellationPoint(s.elves[k]) then ElfCancel(k) else ElfStep(k);
    } else {
      a := SomeElf(c, s);
    }
  }

  /** Dobby waits, no token is in empty_list and the mutex is free: some elf can move. */
  lemma SomeElf(c: Config, s: State) returns (a: Action)
    requires Inv(c, s) && s.dobby == Wait && s.emptyList == 0 && s.mutex == None
    ensures Enabled(s, a)
  {
    if Sum(s.elves, AtLock) > 0 {
      var k := SumWitness(s.elves, AtLock);
      a := ElfStep(k);
    } else {
      assert s.fullList > 0;
      assert s.elves[0] != Gone && s.elves[0] != Unborn;
      a := ElfStep(0);
    }
  }

  // ----- Termination

  function ElfCost(p: ElfPc): nat {
    match p
    case Unborn => 2
    case WaitFull => 2
    case Lock => 15
    case Take => 14
    case Dec => 13
    case Test => 12
    case WakePrint => 11
    case PostEmpty => 10
    case Unlock => 5
    case Hash => 4
    case Report => 3
    case Handler => 1
    case Gone => 0
  }

  function DobbyCost(c: Config, d: DobbyPc): int {
    var atWait := 2 * c.elves + 1;
    match d
    case Spawn(i) => atWait + c.elves - i
    case Wait => atWait
    case Check => atWait + 3
    case Post(n, i) => atWait + 2 + 15 * n + (n - i)
    case SetActive(n) => atWait + 1 + 15 * n
    case SemPost(left) => atWait + 15 * left
    case Cancel(i) => 2 * (c.elves - i)
    case Join(i) => 2 * (c.elves - i) - 1
    case Returned => 0
  }

  /** A bound on the number of actions still to come. */
  function Measure(c: Config, s: State): int {
    16 * s.total + DobbyCost(c, s.dobby) + Sum(s.elves, ElfCost) + 14 * s.fullList + 4 * s.emptyList
  }

  lemma MeasureIsNat(c: Config, s: State)
    requires Shape(c, s)
    ensures Measure(c, s) >= 0
  {
  }

  lemma DobbyLowersCost(c: Config, s: State)
    requires Shape(c, s) && DobbyEnabled(s)
    ensures var s' := DobbyDo(c, s);
            16 * s'.total + DobbyCost(c, s'.dobby) + 14 * s'.fullList + 4 * s'.emptyList
              < 16 * s.total + DobbyCost(c, s.dobby) + 14 * s.fullList + 4 * s.emptyList
  {
  }

  lemma DobbyLeavesElfCost(c: Config, s: State)
    requires Shape(c, s) && CancelInv(s) && DobbyEnabled(s)
    ensures Sum(DobbyDo(c, s).elves, ElfCost) == Sum(s.elves, ElfCost)
  {
    if s.dobby.Spawn? {
      SumUpdate(s.elves, s.dobby.i, WaitFull, ElfCost);
    }
  }

  lemma DobbyMakesProgress(c: Config, s: State)
    requires Shape(c, s) && CancelInv(s) && DobbyEnabled(s)
    ensures Measure(c, DobbyDo(c, s)) < Measure(c, s)
  {
    DobbyLowersCost(c, s);
    DobbyLeavesElfCost(c, s);
  }

  lemma ElfLowersCost(s: State, k: nat)
    requires k < |s.elves| && ElfEnabled(s, k) && (s.elves[k] == Take ==> s.list != [])
    ensures var s' := ElfDo(s, k);
            ElfCost(s'.elves[k]) + 14 * s'.fullList + 4 * s'.emptyList < ElfCost(s.elves[k]) + 14 * s.fullList + 4 * s.emptyList
  {
  }

  lemma ElfLeavesTheRest(s: State, k: nat)
    requires k < |s.elves| && ElfEnabled(s, k) && (s.elves[k] == Take ==> s.list != [])
    ensures var s' := ElfDo(s, k); s'.elves == s.elves[k := s'.elves[k]] && s'.total == s.total && s'.dobby == s.dobby
  {
  }

  lemma ElfMakesProgress(c: Config, s: State, k: nat)
    requires k < |s.elves| && ElfEnabled(s, k) && (s.elves[k] == Take ==> s.list != [])
    ensures Measure(c, ElfDo(s, k)) < Measure(c, s)
  {
    ElfLowersCost(s, k);
    ElfLeavesTheRest(s, k);
    SumUpdate(s.elves, k, ElfDo(s, k).elves[k], ElfCost);
  }

  lemma CancelMakesProgress(c: Config, s: State, k: nat)
    requires Enabled(s, ElfCancel(k))
    ensures Measure(c, CancelDo(s, k)) < Measure(c, s)
  {
    SumUpdate(s.elves, k, CancelDo(s, k).elves[k], ElfCost);
  }

  lemma EveryActionMakesProgress(c: Config, s: State, s': State)
    requires Inv(c, s) && Next(c, s, s')
    ensures 0 <= Measure(c, s') < Measure(c, s)
  {
    InvInductive(c);
    assert Sys(c).next(s, s');
    assert Shape(c, s');
    MeasureIsNat(c, s');
    var a :| Enabled(s, a) && s' == Do(c, s, a);
    match a
    case DobbyStep => DobbyMakesProgress(c, s);
    case ElfStep(k) =>
      if s.elves[k] == Take {
        TakeFindsTask(s, k);
      }
      ElfMakesProgress(c, s, k);
    case ElfCancel(k) => CancelMakesProgress(c, s, k);
  }

  /**
    Every run has at most 16 N + 5 elves + 5 actions; with NeverStuck, every schedule that keeps
    choosing an enabled action ends with Dobby returned.
   */
  lemma EveryRunEnds(c: Config, run: seq<State>)
    requires IsRun(Sys(c), run)
    ensures |run| <= 16 * c.tasks + 5 * c.elves + 6
    ensures var last := run[|run| - 1]; (forall s' :: !Next(c, last, s')) ==> last.dobby == Returned
  {
    InvInductive(c);
    var measure: State -> nat := s => if Measure(c, s) < 0 then 0 else Measure(c, s);
    forall s, s' | Inv(c, s) && Next(c, s, s') ensures measure(s') < measure(s) {
      EveryActionMakesProgress(c, s, s');
    }
    RunIsBounded(Sys(c), s => Inv(c, s), measure, run, |run| - 1);
    SumConstant(run[0].elves, ElfCost, 2);
    assert Reachable(Sys(c), run[|run| - 1]);
    if run[|run| - 1].dobby != Returned {
      NeverStuck(c, run[|run| - 1]);
    }
  }
}
