/**
  Least frequently used, defined from the history of requests alone, and the proof that the
  table of feast.c is exactly that.
 */
module FeastPolicy {
  import opened Runs
  import opened Feast

  function Count(s: seq<int>, d: int): nat {
    if s == [] then 0 else Count(s[..|s| - 1], d) + (if s[|s| - 1] == d then 1 else 0)
  }

  // ----- The policy

  /** Which dish each platter carries after the requests h: a hit changes nothing, a miss replaces the victim. */
  ghost function Slots(space: nat, h: seq<int>): (r: seq<Option<int>>)
    requires space > 0
    ensures |r| == space
    decreases |h|, 2, 0
  {
    if h == [] then seq(space, _ => None)
    else
      var before, d := h[..|h| - 1], h[|h| - 1];
      var slots := Slots(space, before);
      if Some(d) in slots then slots else slots[Victim(space, before) := Some(d)]
  }

  /** The last position below k where the dish was requested while not on the table; -1 if never. */
  ghost function LastFetch(space: nat, h: seq<int>, d: int, k: nat): (f: int)
    requires space > 0 && k <= |h|
    ensures -1 <= f < k
    decreases |h|, 0, k
  {
    if k == 0 then -1
    else if h[k - 1] == d && Some(d) !in Slots(space, h[..k - 1]) then k - 1
    else LastFetch(space, h, d, k - 1)
  }

  /** How often the dish was requested after its last fetch. */
  ghost function Frequency(space: nat, h: seq<int>, d: int): nat
    requires space > 0
    decreases |h|, 1, 0
  {
    Count(h[LastFetch(space, h, d, |h|) + 1..], d)
  }

  /** The platter a slot stands for; an empty one weighs -1. */
  ghost function PlatterOf(space: nat, h: seq<int>, slot: Option<int>): Platter
    requires space > 0
    decreases |h|, 2, 0
  {
    match slot
    case None => Platter(-1, -1)
    case Some(d) => Platter(d, Frequency(space, h, d))
  }

  ghost function TableOf(space: nat, h: seq<int>): (t: seq<Platter>)
    requires space > 0
    ensures |t| == space
    decreases |h|, 3, 0
  {
    var slots := Slots(space, h);
    seq(space, i requires 0 <= i < space => PlatterOf(space, h, slots[i]))
  }

  /** The leftmost of the least frequently used platters. */
  ghost function Victim(space: nat, h: seq<int>): (v: nat)
    requires space > 0
    ensures v < space
    decreases |h|, 4, 0
  {
    LeftmostMin(Uses(TableOf(space, h)))
  }

  ghost predicate LeastFrequent(space: nat, h: seq<int>, v: nat)
    requires space > 0 && v < space && forall k :: 0 <= k < space ==> Slots(space, h)[k].Some?
  {
    var slots := Slots(space, h);
    && (forall k :: 0 <= k < space ==> Frequency(space, h, slots[v].value) <= Frequency(space, h, slots[k].value))
    && (forall k :: 0 <= k < v ==> Frequency(space, h, slots[v].value) < Frequency(space, h, slots[k].value))
  }

  ghost predicate IsMiss(space: nat, h: seq<int>, d: int)
    requires space > 0
  {
    Some(d) !in Slots(space, h)
  }

  ghost function Fetches(space: nat, h: seq<int>): nat
    requires space > 0
  {
    if h == [] then 0
    else Fetches(space, h[..|h| - 1]) + (if IsMiss(space, h[..|h| - 1], h[|h| - 1]) then 1 else 0)
  }

  ghost function Hits(space: nat, h: seq<int>): nat
    requires space > 0
  {
    if h == [] then 0
    else Hits(space, h[..|h| - 1]) + (if Some(h[|h| - 1]) in Slots(space, h[..|h| - 1]) then 1 else 0)
  }

  /** Misses that replace a dish. */
  ghost function Evictions(space: nat, h: seq<int>): nat
    requires space > 0
  {
    if h == [] then 0
    else
      var before, d := h[..|h| - 1], h[|h| - 1];
      Evictions(space, before)
      + (if IsMiss(space, before, d) && Slots(space, before)[Victim(space, before)].Some? then 1 else 0)
  }

  // ----- The shape of the table

  ghost predicate Distinct(slots: seq<Option<int>>) {
    forall i, j :: 0 <= i < j < |slots| && slots[i].Some? ==> slots[i] != slots[j]
  }

  /** The first `filled` platters carry distinct dishes and the others are empty. */
  ghost predicate Filled(slots: seq<Option<int>>, filled: int) {
    && 0 <= filled <= |slots|
    && (forall i :: 0 <= i < |slots| ==> (slots[i].Some? <==> i < filled))
    && Distinct(slots)
  }

  /** While a platter is empty, the victim is the leftmost empty one. */
  lemma VictimIsFirstEmpty(space: nat, h: seq<int>, filled: nat)
    requires space > 0 && filled < space && Filled(Slots(space, h), filled)
    ensures Victim(space, h) == filled
  {
    var w := Uses(TableOf(space, h));
    var slots := Slots(space, h);
    LeftmostMinIsLeftmost(w);
    forall i | 0 <= i < space ensures w[i] == PlatterOf(space, h, slots[i]).uses {
      assert TableOf(space, h)[i] == PlatterOf(space, h, slots[i]);
    }
    var v := LeftmostMin(w);
    assert slots[filled] == None && w[v] <= w[filled] == -1;
    assert slots[v] == None;
    assert forall k :: 0 <= k < v ==> w[k] > w[v] == -1;
  }

  /** On a full table the victim is the leftmost of the platters whose dishes are least frequently used. */
  lemma VictimIsLeastFrequent(space: nat, h: seq<int>)
    requires space > 0 && forall k :: 0 <= k < space ==> Slots(space, h)[k].Some?
    ensures LeastFrequent(space, h, Victim(space, h))
  {
    var slots, w := Slots(space, h), Uses(TableOf(space, h));
    LeftmostMinIsLeftmost(w);
    forall k | 0 <= k < space ensures w[k] == Frequency(space, h, slots[k].value) {
      assert TableOf(space, h)[k] == PlatterOf(space, h, slots[k]);
    }
  }

  /** Filled platters are distinct, empty ones form a suffix, and fetches minus evictions counts the filled ones. */
  lemma {:induction false} TableShape(space: nat, h: seq<int>)
    requires space > 0
    ensures Filled(Slots(space, h), Fetches(space, h) - Evictions(space, h))
  {
    if h != [] {
      var before, d := h[..|h| - 1], h[|h| - 1];
      TableShape(space, before);
      var filled := Fetches(space, before) - Evictions(space, before);
      if filled < space {
        VictimIsFirstEmpty(space, before, filled);
      }
    }
  }

  lemma {:induction false} OnlyRequestedDishes(space: nat, h: seq<int>, d: int)
    requires space > 0 && Some(d) in Slots(space, h)
    ensures d in h
  {
    if h != [] {
      var before := h[..|h| - 1];
      if Some(d) in Slots(space, before) {
        OnlyRequestedDishes(space, before, d);
      }
    }
  }

  // ----- The counters of the program are the frequencies of the policy

  lemma {:induction false} LastFetchOfPrefix(space: nat, h: seq<int>, x: int, d: int, k: nat)
    requires space > 0 && k <= |h|
    ensures LastFetch(space, h + [x], d, k) == LastFetch(space, h, d, k)
  {
    if k > 0 {
      assert (h + [x])[..k - 1] == h[..k - 1];
      LastFetchOfPrefix(space, h, x, d, k - 1);
    }
  }

  /** One more request: a hit adds one, a fetch starts again from zero, other dishes keep theirs. */
  lemma FrequencyStep(space: nat, h: seq<int>, x: int, d: int)
    requires space > 0
    ensures Frequency(space, h + [x], d)
         == if x != d then Frequency(space, h, d) else if IsMiss(space, h, d) then 0 else Frequency(space, h, d) + 1
  {
    var h' := h + [x];
    assert h'[..|h|] == h;
    LastFetchOfPrefix(space, h, x, d, |h|);
    var f := LastFetch(space, h', d, |h'|);
    if x == d && IsMiss(space, h, d) {
      assert h'[f + 1..] == [];
    } else {
      assert f == LastFetch(space, h, d, |h|);
      var since := h'[f + 1..];
      assert since == h[f + 1..] + [x];
      assert since[..|since| - 1] == h[f + 1..];
    }
  }

  lemma SameDishes(space: nat, h: seq<int>, d: int, e: nat)
    requires space > 0 && d != -1 && e == IndexOf(TableOf(space, h), d)
    ensures e < space <==> !IsMiss(space, h, d)
    ensures e < space ==> Slots(space, h)[e] == Some(d)
  {
    var t, slots := TableOf(space, h), Slots(space, h);
    if Some(d) in slots {
      var i :| 0 <= i < space && slots[i] == Some(d);
      assert t[i].dish == d;
    }
  }

  lemma HitStep(space: nat, h: seq<int>, d: int, e: nat)
    requires space > 0 && e < space && Slots(space, h)[e] == Some(d) && Distinct(Slots(space, h))
    ensures var t := TableOf(space, h); TableOf(space, h + [d]) == t[e := Platter(d, t[e].uses + 1)]
  {
    var h', slots, t := h + [d], Slots(space, h), TableOf(space, h);
    assert h'[..|h|] == h;
    assert Some(d) in slots && Slots(space, h') == slots;
    forall i | 0 <= i < space ensures PlatterOf(space, h', slots[i]) == t[e := Platter(d, t[e].uses + 1)][i] {
      assert t[i] == PlatterOf(space, h, slots[i]);
      if slots[i].Some? {
        FrequencyStep(space, h, d, slots[i].value);
        assert i != e ==> slots[i] != slots[e];
      }
    }
  }

  lemma MissStep(space: nat, h: seq<int>, d: int)
    requires space > 0 && IsMiss(space, h, d)
    ensures TableOf(space, h + [d]) == TableOf(space, h)[Victim(space, h) := Platter(d, 0)]
  {
    var h', slots, v := h + [d], Slots(space, h), Victim(space, h);
    assert h'[..|h|] == h;
    assert Slots(space, h') == slots[v := Some(d)];
    forall i | 0 <= i < space ensures TableOf(space, h')[i] == TableOf(space, h)[v := Platter(d, 0)][i] {
      if i == v {
        FrequencyStep(space, h, d, d);
      } else if slots[i].Some? {
        assert slots[i] in slots;
        FrequencyStep(space, h, d, slots[i].value);
      }
    }
  }

  /**
    After every sequence of requests the program's table and its fetch count are those of the
    policy: each platter carries the dish the policy puts there, with its hits since its last fetch.
   */
  lemma {:induction false} TableIsLeastFrequentlyUsed(space: nat, h: seq<int>)
    requires space > 0 && -1 !in h
    ensures ServeAll(Bare(space), h) == (TableOf(space, h), Fetches(space, h))
  {
    if h == [] {
      assert Bare(space) == TableOf(space, h);
    } else {
      var before, d := h[..|h| - 1], h[|h| - 1];
      assert h == before + [d];
      assert d in h && forall x :: x in before ==> x in h;
      TableIsLeastFrequentlyUsed(space, before);
      ServeStep(space, before, d);
    }
  }

  lemma ServeStep(space: nat, h: seq<int>, d: int)
    requires space > 0 && d != -1
    ensures Serve(TableOf(space, h), d) == TableOf(space, h + [d])
    ensures IndexOf(TableOf(space, h), d) < space <==> !IsMiss(space, h, d)
  {
    var e := IndexOf(TableOf(space, h), d);
    TableShape(space, h);
    SameDishes(space, h, d, e);
    if e < space {
      HitStep(space, h, d, e);
      assert TableOf(space, h)[e].dish == d;
    } else {
      MissStep(space, h, d);
    }
  }

  /** What is served is the longest part of the input without a -1. */
  lemma {:induction false} StopIsNotServed(input: seq<int>)
    ensures UpToStop(input) <= input && -1 !in UpToStop(input)
    ensures UpToStop(input) != input ==> input[|UpToStop(input)|] == -1
  {
    if input != [] && input[0] != -1 {
      StopIsNotServed(input[1..]);
    }
  }

  /** What ServeDishes leaves and returns for any input, on the table that main sets up. */
  lemma ProgramFollowsPolicy(space: nat, input: seq<int>)
    requires space > 0
    ensures var h := UpToStop(input); ServeAll(Bare(space), h) == (TableOf(space, h), Fetches(space, h))
  {
    StopIsNotServed(input);
    TableIsLeastFrequentlyUsed(space, UpToStop(input));
  }

  // ----- Counting fetches

  ghost function Dishes(h: seq<int>): set<int> { set d | d in h }

  lemma DishesStep(h: seq<int>)
    requires h != []
    ensures Dishes(h) == Dishes(h[..|h| - 1]) + {h[|h| - 1]}
    ensures |Dishes(h)| == |Dishes(h[..|h| - 1])| + (if h[|h| - 1] in h[..|h| - 1] then 0 else 1)
  {
    assert h == h[..|h| - 1] + [h[|h| - 1]];
    assert Dishes(h) == Dishes(h[..|h| - 1]) + {h[|h| - 1]};
  }

  /** Every request is a hit or a fetch, and every dish was fetched at least once. */
  lemma {:induction false} FetchBounds(space: nat, h: seq<int>)
    requires space > 0
    ensures Fetches(space, h) + Hits(space, h) == |h|
    ensures Fetches(space, h) >= |Dishes(h)|
  {
    if h != [] {
      var before, d := h[..|h| - 1], h[|h| - 1];
      FetchBounds(space, before);
      DishesStep(h);
      if Some(d) in Slots(space, before) {
        OnlyRequestedDishes(space, before, d);
      }
    }
  }

  /** When the dishes all fit, nothing is ever evicted and each dish is fetched once. */
  lemma {:induction false} NoEvictionWhenAllFit(space: nat, h: seq<int>)
    requires space > 0 && |Dishes(h)| <= space
    ensures Fetches(space, h) == |Dishes(h)| && Evictions(space, h) == 0
    ensures forall d :: d in h ==> Some(d) in Slots(space, h)
  {
    if h != [] {
      var before, d := h[..|h| - 1], h[|h| - 1];
      DishesStep(h);
      NoEvictionWhenAllFit(space, before);
      if d in before {
        assert Slots(space, h) == Slots(space, before);
      } else {
        if Some(d) in Slots(space, before) {
          OnlyRequestedDishes(space, before, d);
        }
        TableShape(space, before);
        FirstFetch(space, before, d, Fetches(space, before));
      }
      assert h == before + [d];
    }
  }

  lemma FirstFetch(space: nat, h: seq<int>, d: int, filled: nat)
    requires space > 0 && filled < space && Filled(Slots(space, h), filled) && IsMiss(space, h, d)
    ensures !Slots(space, h)[Victim(space, h)].Some?
    ensures Slots(space, h + [d]) == Slots(space, h)[filled := Some(d)]
    ensures forall x: int :: Some(x) in Slots(space, h) || x == d ==> Some(x) in Slots(space, h + [d])
  {
    VictimIsFirstEmpty(space, h, filled);
    assert (h + [d])[..|h|] == h;
    var slots, slots' := Slots(space, h), Slots(space, h + [d]);
    assert slots' == slots[filled := Some(d)];
    assert slots'[filled] == Some(d);
    forall x: int | Some(x) in slots ensures Some(x) in slots' {
      var i :| 0 <= i < space && slots[i] == Some(x);
      assert slots'[i] == Some(x);
    }
  }
}
