/**
  merge_sort with a thread per left half (05-threading/class/merge_sort.c).

  Every call of merge_sort is a `Task`; a task whose two halves are running is a `Fork`, and the
  scheduler may let any running task, at any depth, do its next action on the shared array: fork,
  join, one comparison of the merge, or one write of the copy back.
 */
module SortThreads {
  import opened Runs
  import opened Sorting
  import opened MergeSort

  datatype Task =
    | Start(lo: nat, hi: nat)
    | Fork(lo: nat, hi: nat, left: Task, right: Task)
    | Merge(lo: nat, hi: nat, ai: nat, bi: nat, tmp: seq<Key>)
    | Copy(lo: nat, hi: nat, tmp: seq<Key>, i: nat)
    | Done(lo: nat, hi: nat)

  datatype Event = Create | Joined | Other

  datatype State = State(a: seq<Key>, root: Task, created: nat, joined: nat)

  function Mid(lo: nat, hi: nat): int { (lo + hi) / 2 }

  /** One action of some thread below t. */
  ghost predicate TaskStep(a: seq<Key>, t: Task, e: Event, a': seq<Key>, t': Task) {
    match t
    case Start(lo, hi) =>
      && a' == a
      && if lo >= hi then e == Other && t' == Done(lo, hi)
         else var mid := RealMid(lo, hi);
           e == Create && mid >= 0 && t' == Fork(lo, hi, Start(lo, mid), Start(mid + 1, hi))
    case Fork(lo, hi, left, right) =>
      || (t'.Fork? && t' == Fork(lo, hi, t'.left, right) && TaskStep(a, left, e, a', t'.left))
      || (t'.Fork? && t' == Fork(lo, hi, left, t'.right) && TaskStep(a, right, e, a', t'.right))
      || (left.Done? && right.Done? && e == Joined && a' == a && t' == Merge(lo, hi, lo, Mid(lo, hi) + 1, []))
    case Merge(lo, hi, ai, bi, tmp) =>
      var mid := Mid(lo, hi);
      && e == Other && a' == a
      && if ai <= mid && bi <= hi then
           && bi < |a| && ai < |a|
           && t' == (if a[ai] < a[bi] then Merge(lo, hi, ai + 1, bi, tmp + [a[ai]])
                     else Merge(lo, hi, ai, bi + 1, tmp + [a[bi]]))
         else if ai <= mid then ai < |a| && t' == Merge(lo, hi, ai + 1, bi, tmp + [a[ai]])
         else if bi <= hi then bi < |a| && t' == Merge(lo, hi, ai, bi + 1, tmp + [a[bi]])
         else t' == Copy(lo, hi, tmp, 0)
    case Copy(lo, hi, tmp, i) =>
      && e == Other
      && if lo + i <= hi then
           i < |tmp| && lo + i < |a| && a' == a[lo + i := tmp[i]] && t' == Copy(lo, hi, tmp, i + 1)
         else a' == a && t' == Done(lo, hi)
    case Done(_, _) => false
  }

  ghost predicate Init(a0: seq<Key>, lo: nat, hi: nat, s: State) {
    lo <= hi < |a0| && s == State(a0, Start(lo, hi), 0, 0)
  }

  ghost predicate Counts(s: State, e: Event, s': State) {
    && s'.created == s.created + (if e == Create then 1 else 0)
    && s'.joined == s.joined + (if e == Joined then 1 else 0)
  }

  ghost predicate Next(s: State, s': State) {
    exists e :: TaskStep(s.a, s.root, e, s'.a, s'.root) && Counts(s, e, s')
  }

  ghost function Sys(a0: seq<Key>, lo: nat, hi: nat): System<State> {
    System(s => Init(a0, lo, hi, s), Next)
  }

  // ----- Invariant

  type Goal = (nat, nat) -> seq<Key>

  /** The sorted content of each range of a0. */
  ghost function SortedRanges(a0: seq<Key>): Goal {
    (lo: nat, hi: nat) => if lo <= hi < |a0| then Sort(a0[lo..hi + 1]) else []
  }

  /** What the proofs below need of a goal: a single element is its own goal, and halves merge. */
  ghost predicate IsGoal(goal: Goal, a0: seq<Key>) {
    && (forall lo: nat :: lo < |a0| ==> goal(lo, lo) == a0[lo..lo + 1])
    && (forall lo: nat, hi: nat :: lo < hi < |a0| ==> HalvesMerge(goal, lo, hi))
  }

  ghost predicate HalvesMerge(goal: Goal, lo: nat, hi: nat) {
    MergeSeq(goal(lo, Mid(lo, hi)), goal(Mid(lo, hi) + 1, hi)) == goal(lo, hi)
  }

  lemma SortingIsAGoal(a0: seq<Key>)
    ensures IsGoal(SortedRanges(a0), a0)
  {
    forall lo: nat | lo < |a0| ensures SortedRanges(a0)(lo, lo) == a0[lo..lo + 1] {
      OneIsSorted(a0, lo);
    }
    forall lo: nat, hi: nat | lo < hi < |a0| ensures HalvesMerge(SortedRanges(a0), lo, hi) {
      SortedHalvesMerge(a0, lo, hi);
    }
  }

  lemma SortedRangeIs(a0: seq<Key>, lo: nat, hi: nat)
    requires lo <= hi < |a0|
    ensures SortedRanges(a0)(lo, hi) == Sort(a0[lo..hi + 1])
  {
  }

  lemma SortedHalvesMerge(a0: seq<Key>, lo: nat, hi: nat)
    requires lo < hi < |a0|
    ensures HalvesMerge(SortedRanges(a0), lo, hi)
  {
    var g, mid := SortedRanges(a0), Mid(lo, hi);
    SortedRangeIs(a0, lo, mid);
    SortedRangeIs(a0, mid + 1, hi);
    SortedRangeIs(a0, lo, hi);
    SortOfHalves(a0, lo, mid, hi, g(lo, mid), g(mid + 1, hi), g(lo, hi));
  }

  /** What task t has achieved of turning its range of a0 into goal, looking only at that range of a. */
  ghost predicate Ok(goal: Goal, a0: seq<Key>, a: seq<Key>, t: Task)
    decreases t
  {
    && t.lo <= t.hi < |a| == |a0|
    && match t
       case Start(lo, hi) => a[lo..hi + 1] == a0[lo..hi + 1]
       case Fork(lo, hi, left, right) =>
         && lo < hi && left.lo == lo && left.hi == Mid(lo, hi) && right.lo == Mid(lo, hi) + 1 && right.hi == hi
         && Ok(goal, a0, a, left) && Ok(goal, a0, a, right)
       case Merge(lo, hi, ai, bi, tmp) =>
         lo < hi && Merging(a, lo, Mid(lo, hi), hi, ai, bi, tmp, goal(lo, hi))
       case Copy(lo, hi, tmp, i) =>
         lo < hi && tmp == goal(lo, hi) && i <= |tmp| == hi + 1 - lo && a[lo..lo + i] == tmp[..i]
       case Done(lo, hi) => a[lo..hi + 1] == goal(lo, hi)
  }

  ghost predicate SameRange(a: seq<Key>, a': seq<Key>, lo: nat, hi: nat) {
    |a'| == |a| && forall k :: lo <= k <= hi < |a| ==> a'[k] == a[k]
  }

  ghost predicate SameOutside(a: seq<Key>, a': seq<Key>, lo: nat, hi: nat) {
    |a'| == |a| && forall k :: 0 <= k < |a| && !(lo <= k <= hi) ==> a'[k] == a[k]
  }

  lemma SameSlice(a: seq<Key>, a': seq<Key>, lo: nat, hi: nat, first: nat, end: nat)
    requires SameRange(a, a', lo, hi) && lo <= first <= end <= hi + 1 <= |a|
    ensures a'[first..end] == a[first..end]
  {
  }

  lemma MergeFrame(a: seq<Key>, a': seq<Key>, lo: nat, hi: nat, ai: nat, bi: nat, tmp: seq<Key>, goal: seq<Key>)
    requires lo < hi && Merging(a, lo, Mid(lo, hi), hi, ai, bi, tmp, goal) && SameRange(a, a', lo, hi)
    ensures Merging(a', lo, Mid(lo, hi), hi, ai, bi, tmp, goal)
  {
    SameSlice(a, a', lo, hi, ai, Mid(lo, hi) + 1);
    SameSlice(a, a', lo, hi, bi, hi + 1);
  }

  /** A task is not disturbed by what happens outside its range. */
  lemma {:induction false} Frame(goal: Goal, a0: seq<Key>, a: seq<Key>, a': seq<Key>, t: Task)
    requires Ok(goal, a0, a, t) && SameRange(a, a', t.lo, t.hi)
    ensures Ok(goal, a0, a', t)
    decreases t
  {
    match t
    case Start(lo, hi) => SameSlice(a, a', lo, hi, lo, hi + 1);
    case Done(lo, hi) => SameSlice(a, a', lo, hi, lo, hi + 1);
    case Fork(lo, hi, left, right) =>
      Frame(goal, a0, a, a', left);
      Frame(goal, a0, a, a', right);
    case Merge(lo, hi, ai, bi, tmp) => MergeFrame(a, a', lo, hi, ai, bi, tmp, goal(lo, hi));
    case Copy(lo, hi, tmp, i) => SameSlice(a, a', lo, hi, lo, lo + i);
  }

  lemma StartKeepsOk(goal: Goal, a0: seq<Key>, a: seq<Key>, t: Task, e: Event, a': seq<Key>, t': Task)
    requires IsGoal(goal, a0) && Ok(goal, a0, a, t) && t.Start? && TaskStep(a, t, e, a', t')
    ensures Ok(goal, a0, a', t') && t'.lo == t.lo && t'.hi == t.hi && a' == a
  {
    var lo, hi := t.lo, t.hi;
    if lo < hi {
      SplitPointsAgree(lo, hi);
      var mid := Mid(lo, hi);
      SubSlice(a, a0, lo, hi + 1, lo, mid + 1);
      SubSlice(a, a0, lo, hi + 1, mid + 1, hi + 1);
    }
  }

  lemma JoinKeepsOk(goal: Goal, a0: seq<Key>, a: seq<Key>, t: Task)
    requires Ok(goal, a0, a, t) && t.Fork? && t.left.Done? && t.right.Done?
    requires HalvesMerge(goal, t.lo, t.hi)
    ensures Ok(goal, a0, a, Merge(t.lo, t.hi, t.lo, Mid(t.lo, t.hi) + 1, []))
  {
    assert [] + goal(t.lo, t.hi) == goal(t.lo, t.hi);
  }

  /** One action of a merge, told apart by what it takes. */
  lemma MergeMoves(a: seq<Key>, t: Task, e: Event, a': seq<Key>, t': Task)
    requires t.Merge? && TaskStep(a, t, e, a', t')
    ensures a' == a
    ensures || t' == Copy(t.lo, t.hi, t.tmp, 0)
            || (t.ai < |a| && t' == Merge(t.lo, t.hi, t.ai + 1, t.bi, t.tmp + [a[t.ai]]))
            || (t.bi < |a| && t' == Merge(t.lo, t.hi, t.ai, t.bi + 1, t.tmp + [a[t.bi]]))
  {
  }

  lemma MergeAdvances(a: seq<Key>, t: Task, e: Event, a': seq<Key>, t': Task, g: seq<Key>)
    requires t.Merge? && TaskStep(a, t, e, a', t') && !t'.Copy?
    requires t.lo < t.hi && Merging(a, t.lo, Mid(t.lo, t.hi), t.hi, t.ai, t.bi, t.tmp, g)
    ensures t'.Merge? && Merging(a, t.lo, Mid(t.lo, t.hi), t.hi, t'.ai, t'.bi, t'.tmp, g)
  {
    MergeMoves(a, t, e, a', t');
    if t'.ai > t.ai {
      MergeLeft(a, t.lo, Mid(t.lo, t.hi), t.hi, t.ai, t.bi, t.tmp, g);
    } else {
      MergeRight(a, t.lo, Mid(t.lo, t.hi), t.hi, t.ai, t.bi, t.tmp, g);
    }
  }

  lemma MergeEnds(a: seq<Key>, lo: nat, hi: nat, ai: nat, bi: nat, tmp: seq<Key>, g: seq<Key>)
    requires lo < hi && Merging(a, lo, Mid(lo, hi), hi, ai, bi, tmp, g) && ai > Mid(lo, hi) && bi > hi
    ensures tmp == g && |g| == hi + 1 - lo
  {
    OneRunLeft(a, lo, Mid(lo, hi), hi, ai, bi, tmp, g);
  }

  lemma MergeKeepsOk(goal: Goal, a0: seq<Key>, a: seq<Key>, t: Task, e: Event, a': seq<Key>, t': Task)
    requires Ok(goal, a0, a, t) && t.Merge? && TaskStep(a, t, e, a', t')
    ensures Ok(goal, a0, a', t') && t'.lo == t.lo && t'.hi == t.hi && a' == a
  {
    MergeMoves(a, t, e, a', t');
    if t'.Copy? {
      MergeEnds(a, t.lo, t.hi, t.ai, t.bi, t.tmp, goal(t.lo, t.hi));
    } else {
      MergeAdvances(a, t, e, a', t', goal(t.lo, t.hi));
    }
  }

  lemma CopyKeepsOk(goal: Goal, a0: seq<Key>, a: seq<Key>, t: Task, e: Event, a': seq<Key>, t': Task)
    requires Ok(goal, a0, a, t) && t.Copy? && TaskStep(a, t, e, a', t')
    ensures Ok(goal, a0, a', t') && t'.lo == t.lo && t'.hi == t.hi && SameOutside(a, a', t.lo, t.hi)
  {
    var lo, i := t.lo, t.i;
    if t'.Copy? {
      assert a'[lo..lo + i + 1] == a[lo..lo + i] + [t.tmp[i]] == t.tmp[..i + 1];
    } else {
      assert t.tmp[..i] == t.tmp;
    }
  }

  /** Whoever moves, every task keeps its promise, and only the moving task's range changes. */
  lemma {:induction false} StepKeepsOk(goal: Goal, a0: seq<Key>, a: seq<Key>, t: Task, e: Event, a': seq<Key>, t': Task)
    requires IsGoal(goal, a0) && Ok(goal, a0, a, t) && TaskStep(a, t, e, a', t')
    ensures Ok(goal, a0, a', t') && t'.lo == t.lo && t'.hi == t.hi && SameOutside(a, a', t.lo, t.hi)
    decreases t
  {
    match t
    case Start(_, _) => StartKeepsOk(goal, a0, a, t, e, a', t');
    case Merge(_, _, _, _, _) => MergeKeepsOk(goal, a0, a, t, e, a', t');
    case Copy(_, _, _, _) => CopyKeepsOk(goal, a0, a, t, e, a', t');
    case Fork(lo, hi, left, right) =>
      if t'.Fork? && t'.right == right && TaskStep(a, left, e, a', t'.left) {
        StepKeepsOk(goal, a0, a, left, e, a', t'.left);
        Frame(goal, a0, a, a', right);
      } else if t'.Fork? {
        StepKeepsOk(goal, a0, a, right, e, a', t'.right);
        Frame(goal, a0, a, a', left);
      } else {
        assert HalvesMerge(goal, lo, hi);
        JoinKeepsOk(goal, a0, a, t);
      }
  }

  // ----- Threads created and joined

  function ToCreate(t: Task): int {
    match t
    case Start(lo, hi) => hi - lo
    case Fork(_, _, left, right) => ToCreate(left) + ToCreate(right)
    case _ => 0
  }

  function ToJoin(t: Task): int {
    match t
    case Start(lo, hi) => hi - lo
    case Fork(_, _, left, right) => 1 + ToJoin(left) + ToJoin(right)
    case _ => 0
  }

  lemma {:induction false} StepCounts(goal: Goal, a0: seq<Key>, a: seq<Key>, t: Task, e: Event, a': seq<Key>, t': Task)
    requires Ok(goal, a0, a, t) && TaskStep(a, t, e, a', t')
    ensures ToCreate(t) == ToCreate(t') + (if e == Create then 1 else 0)
    ensures ToJoin(t) == ToJoin(t') + (if e == Joined then 1 else 0)
    decreases t
  {
    if t.Fork? && t'.Fork? {
      if t'.right == t.right && TaskStep(a, t.left, e, a', t'.left) {
        StepCounts(goal, a0, a, t.left, e, a', t'.left);
      } else {
        StepCounts(goal, a0, a, t.right, e, a', t'.right);
      }
    }
  }

  ghost predicate Inv(a0: seq<Key>, lo: nat, hi: nat, s: State) {
    && Ok(SortedRanges(a0), a0, s.a, s.root) && s.root.lo == lo && s.root.hi == hi
    && SameOutside(a0, s.a, lo, hi)
    && s.created + ToCreate(s.root) == hi - lo
    && s.joined + ToJoin(s.root) == hi - lo
  }

  lemma InvInductive(a0: seq<Key>, lo: nat, hi: nat)
    ensures Inductive(Sys(a0, lo, hi), s => Inv(a0, lo, hi, s))
  {
    SortingIsAGoal(a0);
    forall s, s' | Inv(a0, lo, hi, s) && Next(s, s') ensures Inv(a0, lo, hi, s') {
      var e :| TaskStep(s.a, s.root, e, s'.a, s'.root) && Counts(s, e, s');
      StepKeepsOk(SortedRanges(a0), a0, s.a, s.root, e, s'.a, s'.root);
      StepCounts(SortedRanges(a0), a0, s.a, s.root, e, s'.a, s'.root);
    }
  }

  lemma ReachableInv(a0: seq<Key>, lo: nat, hi: nat, s: State)
    requires Reachable(Sys(a0, lo, hi), s)
    ensures Inv(a0, lo, hi, s)
  {
    InvInductive(a0, lo, hi);
    InvariantIfReachable(Sys(a0, lo, hi), s => Inv(a0, lo, hi, s), s);
  }

  /**
    Under every interleaving the sort ends with the range sorted and the rest untouched, which is
    what the one-thread MergeSort leaves; it has created and joined one thread per element but one.
   */
  lemma EveryInterleavingSorts(a0: seq<Key>, lo: nat, hi: nat, s: State)
    requires Reachable(Sys(a0, lo, hi), s) && s.root.Done?
    ensures Replaced(a0, s.a, lo, hi, Sort(a0[lo..hi + 1]))
    ensures s.created == s.joined == hi - lo
  {
    ReachableInv(a0, lo, hi, s);
    RangeIsReplaced(a0, s.a, lo, hi, SortedRanges(a0)(lo, hi));
  }

  lemma RangeIsReplaced(a0: seq<Key>, a: seq<Key>, lo: nat, hi: nat, r: seq<Key>)
    requires lo <= hi < |a0| && SameOutside(a0, a, lo, hi) && a[lo..hi + 1] == r
    ensures Replaced(a0, a, lo, hi, r)
  {
    assert a[..lo] == a0[..lo] && a[hi + 1..] == a0[hi + 1..];
  }

  // ----- No two threads at the same element

  /** The array elements that the actions now possible below t may read or write. */
  ghost function Footprint(t: Task): set<int> {
    match t
    case Start(_, _) => {}
    case Fork(_, _, left, right) => Footprint(left) + Footprint(right)
    case Merge(lo, hi, ai, bi, _) =>
      (if ai <= Mid(lo, hi) then {ai} else {}) + (if bi <= hi then {bi} else {})
    case Copy(lo, hi, _, i) => if lo + i <= hi then {lo + i} else {}
    case Done(_, _) => {}
  }

  ghost predicate Disjoint(t: Task) {
    t.Fork? ==> Footprint(t.left) !! Footprint(t.right) && Disjoint(t.left) && Disjoint(t.right)
  }

  lemma {:induction false} FootprintInRange(goal: Goal, a0: seq<Key>, a: seq<Key>, t: Task)
    requires Ok(goal, a0, a, t)
    ensures forall k :: k in Footprint(t) ==> t.lo <= k <= t.hi
    ensures Disjoint(t)
    decreases t
  {
    if t.Fork? {
      FootprintInRange(goal, a0, a, t.left);
      FootprintInRange(goal, a0, a, t.right);
    }
  }

  /** A task writes nothing outside its footprint. */
  lemma {:induction false} WritesInFootprint(a: seq<Key>, t: Task, e: Event, a': seq<Key>, t': Task)
    requires TaskStep(a, t, e, a', t')
    ensures |a'| == |a| && forall k :: 0 <= k < |a| && k !in Footprint(t) ==> a'[k] == a[k]
    decreases t
  {
    if t.Fork? && t'.Fork? {
      if t'.right == t.right && TaskStep(a, t.left, e, a', t'.left) {
        WritesInFootprint(a, t.left, e, a', t'.left);
      } else {
        WritesInFootprint(a, t.right, e, a', t'.right);
      }
    }
  }

  /** A task reads nothing outside its footprint: on an array that agrees there it does the same. */
  lemma {:induction false} ReadsInFootprint(a: seq<Key>, t: Task, e: Event, a': seq<Key>, t': Task, b: seq<Key>)
    returns (b': seq<Key>)
    requires TaskStep(a, t, e, a', t')
    requires |b| == |a| && forall k :: 0 <= k < |a| && k in Footprint(t) ==> b[k] == a[k]
    ensures TaskStep(b, t, e, b', t')
    ensures |b'| == |b| == |a'|
    ensures forall k :: 0 <= k < |b| ==> b'[k] == (if k in Footprint(t) then a'[k] else b[k])
    decreases t
  {
    WritesInFootprint(a, t, e, a', t');
    match t
    case Copy(lo, hi, tmp, i) => b' := if lo + i <= hi then b[lo + i := tmp[i]] else b;
    case Fork(_, _, left, right) =>
      if t'.Fork? && t'.right == right && TaskStep(a, left, e, a', t'.left) {
        WritesInFootprint(a, left, e, a', t'.left);
        b' := ReadsInFootprint(a, left, e, a', t'.left, b);
      } else if t'.Fork? {
        WritesInFootprint(a, right, e, a', t'.right);
        b' := ReadsInFootprint(a, right, e, a', t'.right, b);
      } else {
        b' := b;
      }
    case _ => b' := b;
  }

  /** So the two halves of a fork, wherever they are, never touch the same element. */
  lemma HalvesNeverCollide(a0: seq<Key>, lo: nat, hi: nat, s: State)
    requires Reachable(Sys(a0, lo, hi), s)
    ensures Disjoint(s.root)
  {
    ReachableInv(a0, lo, hi, s);
    FootprintInRange(SortedRanges(a0), a0, s.a, s.root);
  }

  /** What the left half and the right half have each done, put together. */
  lemma Overlay(a: seq<Key>, left: set<int>, right: set<int>, a1: seq<Key>, a2: seq<Key>, b1: seq<Key>, b2: seq<Key>)
    requires left !! right && |a| == |a1| == |a2| == |b1| == |b2|
    requires forall k :: 0 <= k < |a| && k !in left ==> a1[k] == a[k]
    requires forall k :: 0 <= k < |a| && k !in right ==> a2[k] == a[k]
    requires forall k :: 0 <= k < |a| ==> b1[k] == (if k in right then a2[k] else a1[k])
    requires forall k :: 0 <= k < |a| ==> b2[k] == (if k in left then a1[k] else a2[k])
    ensures b1 == b2
  {
  }

  /**
    The two halves of a fork run independently: a step of each can be made in either order, whatever
    the other has done, and both orders lead to the same array and the same tasks.
   */
  lemma HalvesCommute(goal: Goal, a0: seq<Key>, a: seq<Key>, fork: Task,
                      e1: Event, a1: seq<Key>, left': Task, e2: Event, a2: seq<Key>, right': Task)
    returns (b: seq<Key>)
    requires fork.Fork? && Ok(goal, a0, a, fork)
    requires TaskStep(a, fork.left, e1, a1, left') && TaskStep(a, fork.right, e2, a2, right')
    ensures TaskStep(a, fork, e1, a1, fork.(left := left'))
    ensures TaskStep(a1, fork.(left := left'), e2, b, fork.(left := left', right := right'))
    ensures TaskStep(a, fork, e2, a2, fork.(right := right'))
    ensures TaskStep(a2, fork.(right := right'), e1, b, fork.(left := left', right := right'))
  {
    FootprintInRange(goal, a0, a, fork);
    WritesInFootprint(a, fork.left, e1, a1, left');
    WritesInFootprint(a, fork.right, e2, a2, right');
    b := ReadsInFootprint(a, fork.right, e2, a2, right', a1);
    var b' := ReadsInFootprint(a, fork.left, e1, a1, left', a2);
    Overlay(a, Footprint(fork.left), Footprint(fork.right), a1, a2, b, b');
  }

  // ----- Depth of the thread tree

  function Max(x: nat, y: nat): nat { if x < y then y else x }

  function Depth(t: Task): nat {
    if t.Fork? then 1 + Max(Depth(t.left), Depth(t.right)) else 0
  }

  function Pow2(d: nat): nat { if d == 0 then 1 else 2 * Pow2(d - 1) }

  lemma HalvesAreSmaller(lo: nat, hi: nat, d: nat)
    requires lo < hi && hi + 1 - lo <= Pow2(d)
    ensures d > 0 && Mid(lo, hi) + 1 - lo <= Pow2(d - 1) && hi - Mid(lo, hi) <= Pow2(d - 1)
  {
  }

  lemma {:induction false} DepthBound(goal: Goal, a0: seq<Key>, a: seq<Key>, t: Task, d: nat)
    requires Ok(goal, a0, a, t) && t.hi + 1 - t.lo <= Pow2(d)
    ensures Depth(t) <= d
    decreases d
  {
    match t
    case Fork(lo, hi, left, right) =>
      HalvesAreSmaller(lo, hi, d);
      DepthBound(goal, a0, a, left, d - 1);
      DepthBound(goal, a0, a, right, d - 1);
    case _ =>
  }

  /** For n elements the forks nest at most ceil(log2 n) deep. */
  lemma DepthIsLogarithmic(a0: seq<Key>, lo: nat, hi: nat, s: State, d: nat)
    requires Reachable(Sys(a0, lo, hi), s) && hi + 1 - lo <= Pow2(d)
    ensures Depth(s.root) <= d
  {
    ReachableInv(a0, lo, hi, s);
    DepthBound(SortedRanges(a0), a0, s.a, s.root, d);
  }

  // ----- Progress and termination

  function StartCost(lo: nat, hi: nat): nat
    decreases hi - lo
  {
    if lo >= hi then 1
    else 1 + StartCost(lo, Mid(lo, hi)) + StartCost(Mid(lo, hi) + 1, hi) + JoinCost(lo, hi)
  }

  function JoinCost(lo: nat, hi: nat): int { 2 * (hi + 1 - lo) + 3 }

  function Cost(t: Task): int {
    match t
    case Start(lo, hi) => StartCost(lo, hi)
    case Fork(lo, hi, left, right) => Cost(left) + Cost(right) + JoinCost(lo, hi)
    case Merge(lo, hi, ai, bi, _) => (Mid(lo, hi) + 1 - ai) + (hi + 1 - bi) + (hi + 1 - lo) + 2
    case Copy(lo, hi, _, i) => (hi + 1 - lo - i) + 1
    case Done(_, _) => 0
  }

  lemma {:induction false} CostIsNat(goal: Goal, a0: seq<Key>, a: seq<Key>, t: Task)
    requires Ok(goal, a0, a, t)
    ensures Cost(t) >= 0
    decreases t
  {
    if t.Fork? {
      CostIsNat(goal, a0, a, t.left);
      CostIsNat(goal, a0, a, t.right);
    }
  }

  lemma {:induction false} StepCosts(goal: Goal, a0: seq<Key>, a: seq<Key>, t: Task, e: Event, a': seq<Key>, t': Task)
    requires Ok(goal, a0, a, t) && TaskStep(a, t, e, a', t')
    ensures Cost(t') < Cost(t)
    decreases t
  {
    if t.Start? && t.lo < t.hi {
      SplitPointsAgree(t.lo, t.hi);
    }
    if t.Fork? && t'.Fork? {
      if t'.right == t.right && TaskStep(a, t.left, e, a', t'.left) {
        StepCosts(goal, a0, a, t.left, e, a', t'.left);
      } else {
        StepCosts(goal, a0, a, t.right, e, a', t'.right);
      }
    }
  }

  lemma {:induction false} SomeStep(goal: Goal, a0: seq<Key>, a: seq<Key>, t: Task) returns (e: Event, a': seq<Key>, t': Task)
    requires Ok(goal, a0, a, t) && !t.Done?
    ensures TaskStep(a, t, e, a', t')
    decreases t
  {
    e, a' := Other, a;
    match t
    case Start(lo, hi) =>
      if lo >= hi {
        t' := Done(lo, hi);
      } else {
        SplitPointsAgree(lo, hi);
        e, t' := Create, Fork(lo, hi, Start(lo, RealMid(lo, hi)), Start(RealMid(lo, hi) + 1, hi));
      }
    case Fork(lo, hi, left, right) =>
      if !left.Done? {
        var l;
        e, a', l := SomeStep(goal, a0, a, left);
        t' := Fork(lo, hi, l, right);
      } else if !right.Done? {
        var r;
        e, a', r := SomeStep(goal, a0, a, right);
        t' := Fork(lo, hi, left, r);
      } else {
        e, t' := Joined, Merge(lo, hi, lo, Mid(lo, hi) + 1, []);
      }
    case Merge(lo, hi, ai, bi, tmp) =>
      t' := if ai <= Mid(lo, hi) && (bi > hi || a[ai] < a[bi]) then Merge(lo, hi, ai + 1, bi, tmp + [a[ai]])
            else if bi <= hi then Merge(lo, hi, ai, bi + 1, tmp + [a[bi]])
            else Copy(lo, hi, tmp, 0);
    case Copy(lo, hi, tmp, i) =>
      if lo + i <= hi {
        a', t' := a[lo + i := tmp[i]], Copy(lo, hi, tmp, i + 1);
      } else {
        t' := Done(lo, hi);
      }
  }

  lemma StuckIsDone(a0: seq<Key>, lo: nat, hi: nat, s: State)
    requires Inv(a0, lo, hi, s) && forall s' :: !Next(s, s')
    ensures s.root.Done?
  {
    if !s.root.Done? {
      var e, a', t' := SomeStep(SortedRanges(a0), a0, s.a, s.root);
      var created := s.created + (if e == Create then 1 else 0);
      var joined := s.joined + (if e == Joined then 1 else 0);
      assert Next(s, State(a', t', created, joined));
    }
  }

  lemma NextCosts(a0: seq<Key>, lo: nat, hi: nat, s: State, s': State)
    requires Inv(a0, lo, hi, s) && Next(s, s')
    ensures 0 <= Cost(s'.root) < Cost(s.root)
  {
    var goal := SortedRanges(a0);
    SortingIsAGoal(a0);
    var e :| TaskStep(s.a, s.root, e, s'.a, s'.root) && Counts(s, e, s');
    StepCosts(goal, a0, s.a, s.root, e, s'.a, s'.root);
    StepKeepsOk(goal, a0, s.a, s.root, e, s'.a, s'.root);
    CostIsNat(goal, a0, s'.a, s'.root);
  }

  lemma RunLength(a0: seq<Key>, lo: nat, hi: nat, run: seq<State>)
    requires IsRun(Sys(a0, lo, hi), run)
    ensures |run| <= StartCost(lo, hi) + 1
  {
    InvInductive(a0, lo, hi);
    var measure: State -> nat := (s: State) => if Cost(s.root) < 0 then 0 else Cost(s.root);
    forall s, s' | Inv(a0, lo, hi, s) && Next(s, s') ensures measure(s') < measure(s) {
      NextCosts(a0, lo, hi, s, s');
    }
    RunIsBounded(Sys(a0, lo, hi), s => Inv(a0, lo, hi, s), measure, run, |run| - 1);
  }

  /** Every schedule is finite, and it can stop only when the whole range is sorted. */
  lemma EveryScheduleEndsSorted(a0: seq<Key>, lo: nat, hi: nat, run: seq<State>)
    requires IsRun(Sys(a0, lo, hi), run)
    ensures |run| <= StartCost(lo, hi) + 1
    ensures var last := run[|run| - 1];
            (forall s' :: !Next(last, s')) ==> Replaced(a0, last.a, lo, hi, Sort(a0[lo..hi + 1]))
  {
    RunLength(a0, lo, hi, run);
    var last := run[|run| - 1];
    assert Reachable(Sys(a0, lo, hi), last);
    ReachableInv(a0, lo, hi, last);
    if forall s' :: !Next(last, s') {
      StuckIsDone(a0, lo, hi, last);
      EveryInterleavingSorts(a0, lo, hi, last);
    }
  }
}
