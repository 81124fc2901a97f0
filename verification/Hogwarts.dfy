/**
  Dobby and the house elves (05-threading/class/hogwarts/hogwarts.c).

  One refiller (Dobby) and `elves` workers share a linked list, two counters, a mutex and two
  semaphores.  Dobby writes the list and `active_tasks` without the mutex; what keeps the elves
  away meanwhile is a single token that travels between `empty_list`, Dobby and the batch of
  tasks being taken.  The number of elves, the batch size and the number of tasks are symbolic.
 */
module Hogwarts {
  import opened Runs

  datatype Config = Config(elves: nat, batch: nat, tasks: nat) {
    predicate Valid() { elves > 0 && batch > 0 }
  }

  // Where Dobby is: run_dobby with post_tasks expanded in place.
  datatype DobbyPc =
    | Spawn(i: nat)
    | Wait
    | Check
    | Post(n: nat, i: nat)
    | SetActive(n: nat)
    | SemPost(left: nat)
    | Cancel(i: nat)
    | Join(i: nat)
    | Returned

  // Where an elf is: run_house_elf with take_task and do_work expanded in place.
  // Handler is house_elf_cleanup run by a cancellation inside the critical section.
  datatype ElfPc =
    | Unborn | WaitFull | Lock | Take | Dec | Test | WakePrint | PostEmpty | Unlock
    | Hash | Report | Handler | Gone

  // `taken`, `wakes` and `reported` record the history; no branch reads them.
  datatype State = State(
    total: nat, list: seq<nat>, active: int, nextId: nat,
    emptyList: nat, fullList: nat, mutex: Option<nat>,
    dobby: DobbyPc, elves: seq<ElfPc>, cancelled: seq<bool>, exited: bool,
    taken: seq<nat>, wakes: nat, reported: nat)

  datatype Action = DobbyStep | ElfStep(k: nat) | ElfCancel(k: nat)

  ghost predicate Init(c: Config, s: State) {
    && c.Valid()
    && s == State(c.tasks, [], 0, 0, 1, 0, None, Spawn(0), seq(c.elves, _ => Unborn),
                  seq(c.elves, _ => false), false, [], 0, 0)
  }

  // Deferred cancellation acts only here: sem_wait, and the printf calls, which POSIX allows
  // to be cancellation points.
  predicate CancellationPoint(p: ElfPc) { p == WaitFull || p == WakePrint || p == Report }

  predicate DobbyEnabled(s: State) {
    match s.dobby
    case Wait => s.emptyList > 0
    case Spawn(i) => i < |s.elves|
    case Cancel(i) => i < |s.cancelled|
    case Join(i) => i < |s.elves| && s.elves[i] == Gone
    case Returned => false
    case _ => true
  }

  predicate ElfEnabled(s: State, k: nat)
    requires k < |s.elves|
  {
    match s.elves[k]
    case Unborn => false
    case Gone => false
    case WaitFull => s.fullList > 0
    case Lock => s.mutex == None
    case _ => true
  }

  predicate Enabled(s: State, a: Action) {
    && !s.exited
    && match a
       case DobbyStep => DobbyEnabled(s)
       case ElfStep(k) => k < |s.elves| && ElfEnabled(s, k)
       case ElfCancel(k) => k < |s.elves| && k < |s.cancelled| && s.cancelled[k] && CancellationPoint(s.elves[k])
  }

  function DobbyDo(c: Config, s: State): State
    requires DobbyEnabled(s)
  {
    match s.dobby
    case Spawn(i) =>
      s.(elves := s.elves[i := WaitFull], dobby := if i + 1 < c.elves then Spawn(i + 1) else Wait)
    case Wait => s.(emptyList := s.emptyList - 1, wakes := s.wakes + 1, dobby := Check)
    case Check =>
      if s.total == 0 then s.(dobby := Cancel(0))
      else var n := if s.total >= c.batch then c.batch else s.total;
        s.(total := s.total - n, dobby := Post(n, 0))
    case Post(n, i) =>
      s.(nextId := s.nextId + 1, list := [s.nextId + 1] + s.list,
         dobby := if i + 1 < n then Post(n, i + 1) else SetActive(n))
    case SetActive(n) => s.(active := n, dobby := SemPost(n))
    case SemPost(left) =>
      s.(fullList := s.fullList + 1, dobby := if left > 1 then SemPost(left - 1) else Wait)
    case Cancel(i) => s.(cancelled := s.cancelled[i := true], dobby := Join(i))
    case Join(i) => s.(dobby := if i + 1 < c.elves then Cancel(i + 1) else Returned)
    case Returned => s
  }

  function Go(s: State, k: nat, p: ElfPc): State
    requires k < |s.elves|
  {
    s.(elves := s.elves[k := p])
  }

  function ElfDo(s: State, k: nat): State
    requires k < |s.elves| && ElfEnabled(s, k)
  {
    match s.elves[k]
    case WaitFull => Go(s, k, Lock).(fullList := s.fullList - 1)
    case Lock => Go(s, k, Take).(mutex := Some(k))
    case Take =>
      if s.list == [] then s.(exited := true)
      else Go(s, k, Dec).(list := s.list[1..], taken := s.taken + [s.list[0]])
    case Dec => Go(s, k, Test).(active := s.active - 1)
    case Test => Go(s, k, if s.active == 0 then WakePrint else Unlock)
    case WakePrint => Go(s, k, PostEmpty)
    case PostEmpty => Go(s, k, Unlock).(emptyList := s.emptyList + 1)
    case Unlock => Go(s, k, Hash).(mutex := None)
    case Hash => Go(s, k, Report)
    case Report => Go(s, k, WaitFull).(reported := s.reported + 1)
    case Handler => Go(s, k, Gone).(mutex := None)
    case _ => s
  }

  function CancelDo(s: State, k: nat): State
    requires k < |s.elves|
  {
    Go(s, k, if s.elves[k] == WakePrint then Handler else Gone)
  }

  function Do(c: Config, s: State, a: Action): State
    requires Enabled(s, a)
  {
    match a
    case DobbyStep => DobbyDo(c, s)
    case ElfStep(k) => ElfDo(s, k)
    case ElfCancel(k) => CancelDo(s, k)
  }

  ghost predicate Next(c: Config, s: State, s': State) {
    exists a :: Enabled(s, a) && s' == Do(c, s, a)
  }

  ghost function Sys(c: Config): System<State> {
    System(s => Init(c, s), (s, s') => Next(c, s, s'))
  }

  // ----- The order in which tasks leave the list

  /** hi, hi-1, ..., lo+1: what pushing lo+1, ..., hi on the front of an empty list leaves. */
  function Down(lo: nat, hi: nat): seq<nat> {
    if hi <= lo then [] else [hi] + Down(lo, hi - 1)
  }

  lemma {:induction false} DownCountsDown(lo: nat, hi: nat)
    requires lo <= hi
    ensures |Down(lo, hi)| == hi - lo
    ensures forall k :: 0 <= k < hi - lo ==> Down(lo, hi)[k] == hi - k
  {
    if lo < hi {
      DownCountsDown(lo, hi - 1);
    }
  }

  lemma PushOnDown(lo: nat, hi: nat, rest: seq<nat>)
    requires lo <= hi
    ensures [hi + 1] + (Down(lo, hi) + rest) == Down(lo, hi + 1) + rest
  {
  }

  lemma {:induction false} DownFromBelow(lo: nat, hi: nat)
    requires lo < hi
    ensures Down(lo, hi) == Down(lo + 1, hi) + [lo + 1]
  {
    if lo + 1 < hi {
      DownFromBelow(lo, hi - 1);
    }
  }

  /** A node of the task list, linked in when it is created; `ids` lists the tasks from here on. */
  class Node {
    const id: nat
    const next: Node?
    ghost const ids: seq<nat>

    ghost predicate Linked()
      decreases |ids|
    {
      ids == [id] + Ids(next) && (next != null ==> |next.ids| < |ids| && next.Linked())
    }

    constructor (id: nat, next: Node?)
      requires next != null ==> next.Linked()
      ensures this.id == id && this.next == next && Linked()
    {
      this.id, this.next := id, next;
      ids := [id] + Ids(next);
    }
  }

  ghost function Ids(head: Node?): seq<nat> { if head == null then [] else head.ids }

  /** The task list as run by one thread: post_tasks and take_task on the global list head. */
  class TaskList {
    var listHead: Node?
    var taskIdCounter: nat

    ghost predicate Valid()
      reads this
    {
      listHead != null ==> listHead.Linked()
    }

    method PostTasks(howmany: nat)
      requires Valid()
      modifies this
      ensures Valid() && taskIdCounter == old(taskIdCounter) + howmany
      ensures Ids(listHead) == Down(old(taskIdCounter), taskIdCounter) + old(Ids(listHead))
    {
      ghost var ids, counter := Ids(listHead), taskIdCounter;
      for i := 0 to howmany
        invariant Valid() && taskIdCounter == counter + i
        invariant Ids(listHead) == Down(counter, taskIdCounter) + ids
      {
        PushOnDown(counter, taskIdCounter, ids);
        PostTask();
      }
    }

    /** The body of the loop in post_tasks. */
    method PostTask()
      requires Valid()
      modifies this
      ensures Valid() && taskIdCounter == old(taskIdCounter) + 1
      ensures Ids(listHead) == [taskIdCounter] + old(Ids(listHead))
    {
      taskIdCounter := taskIdCounter + 1;
      listHead := new Node(taskIdCounter, listHead);
    }

    /** None stands for the exit(-1) of a take from an empty list. */
    method TakeTask() returns (t: Option<nat>)
      requires Valid()
      modifies this`listHead
      ensures Valid() && (t == None <==> old(Ids(listHead)) == [])
      ensures t.Some? ==> old(listHead) != null && listHead == old(listHead).next
      ensures t.Some? ==> old(Ids(listHead)) == [t.value] + Ids(listHead)
      ensures t == None ==> listHead == old(listHead)
    {
      if listHead == null {
        return None;
      }
      t := Some(listHead.id);
      listHead := listHead.next;
    }
  }

  /** Dobby's Post steps up to the end of the loop in post_tasks. */
  function PostAll(c: Config, s: State): State
    requires s.dobby.Post? && s.dobby.i < s.dobby.n
    decreases s.dobby.n - s.dobby.i
  {
    var s' := DobbyDo(c, s);
    if s'.dobby.Post? then PostAll(c, s') else s'
  }

  /** They do to the list and the counter of the protocol what PostTasks does to its own. */
  lemma {:induction false} PostStepsArePostTasks(c: Config, s: State)
    requires s.dobby.Post? && s.dobby.i < s.dobby.n
    ensures var counter := s.nextId + (s.dobby.n - s.dobby.i);
            PostAll(c, s) == s.(nextId := counter, list := Down(s.nextId, counter) + s.list, dobby := SetActive(s.dobby.n))
    decreases s.dobby.n - s.dobby.i
  {
    var s' := DobbyDo(c, s);
    var counter := s.nextId + (s.dobby.n - s.dobby.i);
    DownFromBelow(s.nextId, counter);
    if s'.dobby.Post? {
      PostStepsArePostTasks(c, s');
      assert Down(s'.nextId, counter) + s'.list == Down(s.nextId, counter) + s.list;
    }
  }

  /** A Take step does to the list what TakeTask does, and exits exactly when that refuses. */
  lemma TakeStepIsTakeTask(s: State, k: nat)
    requires k < |s.elves| && s.elves[k] == Take && !s.exited
    ensures ElfDo(s, k).exited <==> s.list == []
    ensures s.list != [] ==> exists t :: s.list == [t] + ElfDo(s, k).list && ElfDo(s, k).taken == s.taken + [t]
  {
    if s.list != [] {
      assert s.list == [s.list[0]] + ElfDo(s, k).list;
    }
  }

  function Min(a: nat, b: nat): nat { if a <= b then a else b }

  /** How many tasks the first `r` refills post. */
  function Posted(c: Config, r: nat): nat { Min(c.tasks, c.batch * r) }

  function Batches(c: Config, r: nat): seq<nat> {
    if r == 0 then [] else Batches(c, r - 1) + Down(Posted(c, r - 1), Posted(c, r))
  }

  function CeilDiv(a: nat, b: nat): nat
    requires b > 0
  {
    (a + b - 1) / b
  }

  // ----- Invariant

  function Sum(es: seq<ElfPc>, f: ElfPc -> nat): nat {
    if es == [] then 0 else f(es[0]) + Sum(es[1..], f)
  }

  function AtLock(p: ElfPc): nat { if p == Lock then 1 else 0 }

  function InHand(p: ElfPc): nat {
    if p == Dec || p == Test || p == WakePrint || p == PostEmpty || p == Unlock || p == Hash || p == Report
      || p == Handler then 1 else 0
  }

  function IsGone(p: ElfPc): nat { if p == Gone then 1 else 0 }

  predicate Critical(p: ElfPc) {
    p == Take || p == Dec || p == Test || p == WakePrint || p == PostEmpty || p == Unlock || p == Handler
  }

  /** The last elf of a batch between taking its task and waking Dobby. */
  predicate Late(p: ElfPc) { p == Test || p == WakePrint || p == PostEmpty }

  /** Where the elf holding the mutex is; WaitFull, which is outside, when nobody holds it. */
  function Holder(s: State): ElfPc {
    if s.mutex.Some? && s.mutex.value < |s.elves| then s.elves[s.mutex.value] else WaitFull
  }

  predicate DobbyHolds(d: DobbyPc) { !d.Spawn? && !d.Wait? && !d.SemPost? }

  predicate BatchHolds(s: State) { s.active > 0 || Late(Holder(s)) }

  predicate Closing(d: DobbyPc) { d.Cancel? || d.Join? || d.Returned? }

  function Unsignalled(d: DobbyPc): nat { if d.SemPost? then d.left else 0 }

  function Offered(d: DobbyPc): nat {
    match d
    case Post(_, i) => i
    case SetActive(n) => n
    case SemPost(left) => left
    case _ => 0
  }

  function Refills(s: State): int { if s.dobby.Check? || Closing(s.dobby) then s.wakes - 1 else s.wakes }

  predicate Shape(c: Config, s: State) {
    && c.Valid() && !s.exited
    && |s.elves| == |s.cancelled| == c.elves
    && match s.dobby
       case Spawn(i) => i < c.elves
       case Post(n, i) => i < n
       case SetActive(n) => n > 0
       case SemPost(left) => left > 0
       case Cancel(i) => i < c.elves
       case Join(i) => i < c.elves
       case _ => true
  }

  predicate OneHolder(s: State) {
    && (forall k :: 0 <= k < |s.elves| ==> (Critical(s.elves[k]) <==> s.mutex == Some(k)))
    && (s.mutex.Some? ==> s.mutex.value < |s.elves|)
    && (forall k :: 0 <= k < |s.elves| ==> s.elves[k] != Handler)
  }

  predicate WakesWhenNoneActive(s: State) {
    Holder(s) == WakePrint || Holder(s) == PostEmpty ==> s.active == 0
  }

  predicate MutexInv(s: State) { OneHolder(s) && WakesWhenNoneActive(s) }

  predicate ActiveCount(s: State) {
    s.active == s.fullList + Unsignalled(s.dobby) + Sum(s.elves, AtLock) + (if Holder(s) == Take || Holder(s) == Dec then 1 else 0)
  }

  predicate ListCount(s: State) {
    |s.list| == s.fullList + Offered(s.dobby) + Sum(s.elves, AtLock) + (if Holder(s) == Take then 1 else 0)
  }

  predicate CountInv(s: State) { ActiveCount(s) && ListCount(s) }

  /** The refill token: held by empty_list, by Dobby, or by the current batch, and only one exists. */
  predicate TokenInv(s: State) {
    && s.emptyList + (if DobbyHolds(s.dobby) then 1 else 0) + (if BatchHolds(s) then 1 else 0) == 1
    && (s.dobby.Spawn? ==> s.emptyList == 1)
  }

  predicate CancelInv(s: State)
    requires |s.cancelled| == |s.elves|
  {
    && (forall k :: 0 <= k < |s.elves| ==>
          (s.cancelled[k] <==>
             (s.dobby.Cancel? && k < s.dobby.i) || (s.dobby.Join? && k <= s.dobby.i) || s.dobby.Returned?))
    && (forall k :: 0 <= k < |s.elves| ==> (s.elves[k] == Gone ==> s.cancelled[k]))
    && (forall k :: 0 <= k < |s.elves| ==> (s.elves[k] == Unborn <==> s.dobby.Spawn? && s.dobby.i <= k))
    && (forall k :: 0 <= k < |s.elves| ==>
          ((s.dobby.Cancel? || s.dobby.Join?) && k < s.dobby.i) || s.dobby.Returned? ==> s.elves[k] == Gone)
  }

  predicate OrderInv(c: Config, s: State) {
    var r := Refills(s);
    && r >= 0
    && s.total == c.tasks - Posted(c, r)
    && (r > 0 ==> c.batch * (r - 1) < c.tasks)
    && (Closing(s.dobby) ==> s.total == 0)
    && if s.dobby.Post? then
         && r > 0
         && s.dobby.n == Posted(c, r) - Posted(c, r - 1)
         && s.nextId == Posted(c, r - 1) + s.dobby.i
         && s.taken == Batches(c, r - 1)
         && s.list == Down(Posted(c, r - 1), s.nextId)
       else
         && s.nextId == Posted(c, r)
         && s.taken + s.list == Batches(c, r)
         && (s.dobby.SetActive? ==> s.dobby.n == |s.list|)
  }

  /** Every task taken was reported, is in an elf's hands, or was cut off by that elf's cancellation. */
  predicate WorkInv(s: State) {
    && s.reported + Sum(s.elves, InHand) <= |s.taken|
    && |s.taken| <= s.reported + Sum(s.elves, InHand) + Sum(s.elves, IsGone)
  }

  predicate Inv(c: Config, s: State) {
    && Shape(c, s)
    && MutexInv(s)
    && CountInv(s)
    && TokenInv(s)
    && CancelInv(s)
    && OrderInv(c, s)
    && WorkInv(s)
  }
}
