/**
  The invariant of the refill protocol is inductive, and what follows from it in every
  reachable state: no empty take, no data race, one token, conservation and order of the
  tasks, harmless cancellation, no deadlock, and a bound on the length of every run.
 */
module HogwartsProofs {
  import opened Runs
  import opened Hogwarts

  // ----- Sums over the elves

  lemma {:induction false} SumUpdate(es: seq<ElfPc>, k: nat, p: ElfPc, f: ElfPc -> nat)
    requires k < |es|
    ensures Sum(es[k := p], f) + f(es[k]) == Sum(es, f) + f(p)
  {
    if k == 0 {
      assert es[k := p][1..] == es[1..];
    } else {
      assert es[k := p][1..] == es[1..][k - 1 := p];
      SumUpdate(es[1..], k - 1, p, f);
    }
  }

  lemma {:induction false} SumMember(es: seq<ElfPc>, k: nat, f: ElfPc -> nat)
    requires k < |es|
    ensures f(es[k]) <= Sum(es, f)
  {
    if k > 0 {
      SumMember(es[1..], k - 1, f);
    }
  }

  lemma {:induction false} SumWitness(es: seq<ElfPc>, f: ElfPc -> nat) returns (k: nat)
    requires Sum(es, f) > 0
    ensures k < |es| && f(es[k]) > 0
  {
    if f(es[0]) > 0 {
      k := 0;
    } else {
      var j := SumWitness(es[1..], f);
      k := j + 1;
    }
  }

  lemma {:induction false} SumConstant(es: seq<ElfPc>, f: ElfPc -> nat, v: nat)
    requires forall k :: 0 <= k < |es| ==> f(es[k]) == v
    ensures Sum(es, f) == v * |es|
  {
    if es != [] {
      SumConstant(es[1..], f, v);
    }
  }

  lemma {:induction false} SumAtMost(es: seq<ElfPc>, f: ElfPc -> nat)
    requires forall p :: f(p) <= 1
    ensures Sum(es, f) <= |es|
  {
    if es != [] {
      SumAtMost(es[1..], f);
    }
  }

  // ----- The invariant holds initially

  lemma InitInv(c: Config, s: State)
    requires Init(c, s)
    ensures Inv(c, s)
  {
    SumConstant(s.elves, AtLock, 0);
    SumConstant(s.elves, InHand, 0);
    SumConstant(s.elves, IsGone, 0);
  }

  // ----- What Dobby's token excludes

  /** While Dobby or empty_list holds the token, no elf is between sem_wait and its sem_post. */
  lemma Quiet(c: Config, s: State)
    requires Inv(c, s) && !BatchHolds(s)
    ensures s.active == 0 && s.fullList == 0 && Unsignalled(s.dobby) == 0
    ensures forall k :: 0 <= k < |s.elves| ==>
              s.elves[k] !in {Lock, Take, Dec, Test, WakePrint, PostEmpty}
  {
    forall k | 0 <= k < |s.elves|
      ensures s.elves[k] !in {Lock, Take, Dec, Test, WakePrint, PostEmpty}
    {
      SumMember(s.elves, k, AtLock);
    }
  }

  // ----- Dobby's steps

  lemma PostedStep(c: Config, r: nat)
    requires c.Valid() && c.batch * r < c.tasks
    ensures Posted(c, r) == c.batch * r
    ensures Posted(c, r + 1) - Posted(c, r) == Min(c.batch, c.tasks - c.batch * r) > 0
  {
    assert c.batch * (r + 1) == c.batch * r + c.batch;
  }

  lemma DobbyKeepsOrder(c: Config, s: State)
    requires Shape(c, s) && OrderInv(c, s) && DobbyEnabled(s)
    requires s.dobby == Check ==> s.list == []
    requires s.dobby.SetActive? ==> s.dobby.n == |s.list|
    ensures OrderInv(c, DobbyDo(c, s))
  {
    match s.dobby
    case Check => CheckKeepsOrder(c, s);
    case Post(n, i) => PostKeepsOrder(c, s);
    case _ =>
  }

  lemma CheckKeepsOrder(c: Config, s: State)
    requires Shape(c, s) && OrderInv(c, s) && s.dobby == Check && s.list == []
    ensures OrderInv(c, DobbyDo(c, s))
  {
    assert s.taken + s.list == s.taken;
    if s.total > 0 {
      PostedStep(c, Refills(s));
    }
  }

  lemma PostKeepsOrder(c: Config, s: State)
    requires Shape(c, s) && OrderInv(c, s) && s.dobby.Post?
    ensures OrderInv(c, DobbyDo(c, s))
  {
    var r := Refills(s);
    var s' := DobbyDo(c, s);
    var lo := Posted(c, r - 1);
    assert s'.list == Down(lo, s'.nextId);
    DownCountsDown(lo, s'.nextId);
  }

  lemma DobbyKeepsMutex(c: Config, s: State)
    requires Shape(c, s) && MutexInv(s) && CancelInv(s) && DobbyEnabled(s)
    requires s.dobby.SetActive? ==> !Late(Holder(s))
    ensures MutexInv(DobbyDo(c, s)) && Holder(DobbyDo(c, s)) == Holder(s)
  {
  }

  lemma DobbyKeepsSum(c: Config, s: State)
    requires Shape(c, s) && CancelInv(s) && DobbyEnabled(s)
    ensures Sum(DobbyDo(c, s).elves, AtLock) == Sum(s.elves, AtLock)
  {
    if s.dobby.Spawn? {
      SumUpdate(s.elves, s.dobby.i, WaitFull, AtLock);
    }
  }

  lemma DobbyKeepsActiveCount(c: Config, s: State)
    requires Shape(c, s) && ActiveCount(s) && DobbyEnabled(s)
    requires Holder(DobbyDo(c, s)) == Holder(s) && Sum(DobbyDo(c, s).elves, AtLock) == Sum(s.elves, AtLock)
    requires s.dobby.SetActive? ==> s.active == 0
    ensures ActiveCount(DobbyDo(c, s))
  {
  }

  lemma DobbyKeepsListCount(c: Config, s: State)
    requires Shape(c, s) && ListCount(s) && DobbyEnabled(s)
    requires Holder(DobbyDo(c, s)) == Holder(s) && Sum(DobbyDo(c, s).elves, AtLock) == Sum(s.elves, AtLock)
    requires s.dobby == Check ==> s.list == []
    ensures ListCount(DobbyDo(c, s))
  {
  }

  lemma DobbyKeepsToken(c: Config, s: State)
    requires Shape(c, s) && CountInv(s) && TokenInv(s) && DobbyEnabled(s)
    requires Holder(DobbyDo(c, s)) == Holder(s)
    ensures TokenInv(DobbyDo(c, s))
  {
  }

  lemma DobbyKeepsWork(c: Config, s: State)
    requires Shape(c, s) && CancelInv(s) && WorkInv(s) && DobbyEnabled(s)
    ensures WorkInv(DobbyDo(c, s))
  {
    if s.dobby.Spawn? {
      SumUpdate(s.elves, s.dobby.i, WaitFull, InHand);
      SumUpdate(s.elves, s.dobby.i, WaitFull, IsGone);
    }
  }

  lemma DobbyKeepsCancel(c: Config, s: State)
    requires Shape(c, s) && CancelInv(s) && DobbyEnabled(s)
    ensures Shape(c, DobbyDo(c, s)) && CancelInv(DobbyDo(c, s))
  {
  }

  lemma DobbyKeepsInv(c: Config, s: State)
    requires Inv(c, s) && DobbyEnabled(s)
    ensures Inv(c, DobbyDo(c, s))
  {
    if DobbyHolds(s.dobby) {
      Quiet(c, s);
    }
    DobbyKeepsOrder(c, s);
    DobbyKeepsMutex(c, s);
    DobbyKeepsSum(c, s);
    DobbyKeepsActiveCount(c, s);
    DobbyKeepsListCount(c, s);
    DobbyKeepsToken(c, s);
    DobbyKeepsWork(c, s);
    DobbyKeepsCancel(c, s);
  }

  // ----- An elf's steps

  lemma TakeFindsTask(s: State, k: nat)
    requires CountInv(s) && MutexInv(s) && k < |s.elves| && s.elves[k] == Take
    ensures s.list != [] && s.active > 0
  {
  }

  lemma ElfKeepsHolder(s: State, k: nat)
    requires OneHolder(s) && k < |s.elves| && ElfEnabled(s, k)
    requires s.elves[k] == Take ==> s.list != []
    ensures OneHolder(ElfDo(s, k))
  {
    var s' := ElfDo(s, k);
    assert s'.elves == s.elves[k := s'.elves[k]];
  }

  lemma ElfKeepsWakes(s: State, k: nat)
    requires MutexInv(s) && CountInv(s) && k < |s.elves| && ElfEnabled(s, k)
    requires s.elves[k] == Take ==> s.list != []
    ensures WakesWhenNoneActive(ElfDo(s, k))
  {
    SumMember(s.elves, k, AtLock);
  }

  lemma ElfKeepsCount(s: State, k: nat)
    requires MutexInv(s) && CountInv(s) && k < |s.elves| && ElfEnabled(s, k)
    requires s.elves[k] == Take ==> s.list != []
    ensures CountInv(ElfDo(s, k))
  {
    var s' := ElfDo(s, k);
    SumMember(s.elves, k, AtLock);
    SumUpdate(s.elves, k, s'.elves[k], AtLock);
    assert s'.elves == s.elves[k := s'.elves[k]];
  }

  lemma ElfKeepsToken(s: State, k: nat)
    requires MutexInv(s) && CountInv(s) && TokenInv(s) && k < |s.elves| && ElfEnabled(s, k)
    requires s.elves[k] == Take ==> s.list != [] && s.active > 0
    ensures TokenInv(ElfDo(s, k))
  {
    SumMember(s.elves, k, AtLock);
  }

  lemma ElfKeepsCancel(c: Config, s: State, k: nat)
    requires Shape(c, s) && CancelInv(s) && k < |s.elves| && ElfEnabled(s, k)
    requires s.elves[k] == Take ==> s.list != []
    requires s.elves[k] != Handler
    ensures Shape(c, ElfDo(s, k)) && CancelInv(ElfDo(s, k))
  {
  }

  lemma ElfKeepsOrder(c: Config, s: State, k: nat)
    requires OrderInv(c, s) && k < |s.elves| && ElfEnabled(s, k)
    requires s.elves[k] == Take ==> s.list != [] && !s.dobby.Post? && !s.dobby.SetActive?
    ensures OrderInv(c, ElfDo(s, k))
  {
    var s' := ElfDo(s, k);
    if s.elves[k] == Take {
      assert s'.taken + s'.list == s.taken + s.list;
    }
  }

  lemma ElfMovesInHand(s: State, k: nat)
    requires k < |s.elves| && ElfEnabled(s, k) && s.elves[k] != Handler
    requires s.elves[k] == Take ==> s.list != []
    ensures var s' := ElfDo(s, k);
            s'.reported + Sum(s'.elves, InHand) + |s.taken| == s.reported + Sum(s.elves, InHand) + |s'.taken|
  {
    var s' := ElfDo(s, k);
    SumUpdate(s.elves, k, s'.elves[k], InHand);
    assert s'.elves == s.elves[k := s'.elves[k]];
  }

  lemma ElfDoesNotGo(s: State, k: nat)
    requires k < |s.elves| && ElfEnabled(s, k) && s.elves[k] != Handler
    requires s.elves[k] == Take ==> s.list != []
    ensures Sum(ElfDo(s, k).elves, IsGone) == Sum(s.elves, IsGone)
  {
    var s' := ElfDo(s, k);
    SumUpdate(s.elves, k, s'.elves[k], IsGone);
    assert s'.elves == s.elves[k := s'.elves[k]];
  }

  lemma ElfKeepsInv(c: Config, s: State, k: nat)
    requires Inv(c, s) && k < |s.elves| && ElfEnabled(s, k)
    ensures Inv(c, ElfDo(s, k))
  {
    if DobbyHolds(s.dobby) {
      Quiet(c, s);
    }
    if s.elves[k] == Take {
      TakeFindsTask(s, k);
    }
    ElfKeepsHolder(s, k);
    ElfKeepsWakes(s, k);
    ElfKeepsCount(s, k);
    ElfKeepsToken(s, k);
    ElfKeepsCancel(c, s, k);
    ElfKeepsOrder(c, s, k);
    ElfMovesInHand(s, k);
    ElfDoesNotGo(s, k);
  }

  lemma CancelKeepsToken(s: State, k: nat)
    requires MutexInv(s) && CountInv(s) && TokenInv(s) && k < |s.elves|
    requires s.elves[k] == WaitFull || s.elves[k] == Report
    ensures MutexInv(CancelDo(s, k)) && Holder(CancelDo(s, k)) == Holder(s)
    ensures CountInv(CancelDo(s, k)) && TokenInv(CancelDo(s, k))
  {
    SumUpdate(s.elves, k, Gone, AtLock);
  }

  lemma CancelKeepsCancel(c: Config, s: State, k: nat)
    requires Shape(c, s) && CancelInv(s) && Enabled(s, ElfCancel(k)) && s.elves[k] != WakePrint
    ensures Shape(c, CancelDo(s, k)) && CancelInv(CancelDo(s, k))
  {
  }

  lemma CancelKeepsWork(s: State, k: nat)
    requires WorkInv(s) && k < |s.elves| && (s.elves[k] == WaitFull || s.elves[k] == Report)
    ensures WorkInv(CancelDo(s, k))
  {
    SumUpdate(s.elves, k, Gone, InHand);
    SumUpdate(s.elves, k, Gone, IsGone);
  }

  lemma CancelKeepsOrder(c: Config, s: State, k: nat)
    requires OrderInv(c, s) && k < |s.elves|
    ensures OrderInv(c, CancelDo(s, k))
  {
  }

  lemma CancelKeepsInv(c: Config, s: State, k: nat)
    requires Inv(c, s) && Enabled(s, ElfCancel(k))
    ensures Inv(c, CancelDo(s, k))
  {
    Quiet(c, s);
    CancelKeepsToken(s, k);
    CancelKeepsCancel(c, s, k);
    CancelKeepsOrder(c, s, k);
    CancelKeepsWork(s, k);
  }

  lemma InvInductive(c: Config)
    ensures Inductive(Sys(c), s => Inv(c, s))
  {
    forall s | Init(c, s) ensures Inv(c, s) {
      InitInv(c, s);
    }
    forall s, s' | Inv(c, s) && Next(c, s, s') ensures Inv(c, s') {
      var a :| Enabled(s, a) && s' == Do(c, s, a);
      match a
      case DobbyStep => DobbyKeepsInv(c, s);
      case ElfStep(k) => ElfKeepsInv(c, s, k);
      case ElfCancel(k) => CancelKeepsInv(c, s, k);
    }
  }

  lemma ReachableInv(c: Config, s: State)
    requires Reachable(Sys(c), s)
    ensures Inv(c, s)
  {
    InvInductive(c);
    InvariantIfReachable(Sys(c), s => Inv(c, s), s);
  }
}
