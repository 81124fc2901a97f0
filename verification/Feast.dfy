/**
  Bilbo's table: least-frequently-used replacement (09-memory/feast.c).

  The method keeps a counter per platter and finds the dish or a victim in one scan.  The
  specification below has no counters: which dish lies where, and how often it was used, are
  read off the history of requests.
 */
module Feast {
  datatype Platter = Platter(dish: int, uses: int)

  // ----- The program

  /** Index of the leftmost smallest element. */
  function LeftmostMin(w: seq<int>): (m: nat)
    requires w != []
    ensures m < |w|
  {
    if |w| == 1 then 0
    else
      var m := LeftmostMin(w[..|w| - 1]);
      if w[m] > w[|w| - 1] then |w| - 1 else m
  }

  lemma {:induction false} LeftmostMinIsLeftmost(w: seq<int>)
    requires w != []
    ensures forall k :: 0 <= k < |w| ==> w[LeftmostMin(w)] <= w[k]
    ensures forall k :: 0 <= k < LeftmostMin(w) ==> w[LeftmostMin(w)] < w[k]
  {
    if |w| > 1 {
      var init := w[..|w| - 1];
      LeftmostMinIsLeftmost(init);
      assert forall k :: 0 <= k < |init| ==> w[k] == init[k];
    }
  }

  function Uses(t: seq<Platter>): seq<int> { seq(|t|, i requires 0 <= i < |t| => t[i].uses) }

  /** The first platter holding the dish, or |t|. */
  function IndexOf(t: seq<Platter>, dish: int): (e: nat)
    ensures e <= |t| && (e < |t| ==> t[e].dish == dish)
    ensures forall k :: 0 <= k < e ==> t[k].dish != dish
  {
    if t == [] || t[0].dish == dish then 0 else 1 + IndexOf(t[1..], dish)
  }

  function Serve(t: seq<Platter>, order: int): seq<Platter>
    requires t != []
  {
    var e := IndexOf(t, order);
    if e < |t| then t[e := Platter(t[e].dish, t[e].uses + 1)]
    else t[LeftmostMin(Uses(t)) := Platter(order, 0)]
  }

  /** A hit counts on the first platter with the dish; a miss goes to the leftmost of the least used platters. */
  lemma ServeChoosesPlatter(t: seq<Platter>, order: int)
    requires t != []
    ensures (exists k :: 0 <= k < |t| && t[k].dish == order) ==>
              exists e :: 0 <= e < |t| && t[e].dish == order && (forall k :: 0 <= k < e ==> t[k].dish != order)
                       && Serve(t, order) == t[e := Platter(order, t[e].uses + 1)]
    ensures (forall k :: 0 <= k < |t| ==> t[k].dish != order) ==>
              exists v :: 0 <= v < |t| && (forall k :: 0 <= k < |t| ==> t[v].uses <= t[k].uses)
                       && (forall k :: 0 <= k < v ==> t[v].uses < t[k].uses)
                       && Serve(t, order) == t[v := Platter(order, 0)]
  {
    var e := IndexOf(t, order);
    if e == |t| {
      var v := LeftmostMin(Uses(t));
      LeftmostMinIsLeftmost(Uses(t));
      assert forall k :: 0 <= k < |t| ==> Uses(t)[k] == t[k].uses;
      assert Serve(t, order) == t[v := Platter(order, 0)];
    }
  }

  /** The table and the number of fetches after a whole sequence of orders. */
  function ServeAll(t: seq<Platter>, orders: seq<int>): (r: (seq<Platter>, nat))
    requires t != []
    ensures |r.0| == |t|
  {
    if orders == [] then (t, 0)
    else
      var last := orders[|orders| - 1];
      var before := ServeAll(t, orders[..|orders| - 1]);
      (Serve(before.0, last), before.1 + (if IndexOf(before.0, last) < |t| then 0 else 1))
  }

  /** The orders before the first -1, which stands for end of input. */
  function UpToStop(input: seq<int>): seq<int> {
    if input == [] || input[0] == -1 then [] else [input[0]] + UpToStop(input[1..])
  }

  lemma ServeNext(t: seq<Platter>, served: seq<int>, order: int)
    requires t != []
    ensures var (now, fetches) := ServeAll(t, served);
            ServeAll(t, served + [order]) == (Serve(now, order), fetches + (if IndexOf(now, order) < |t| then 0 else 1))
  {
    assert (served + [order])[..|served|] == served;
  }

  lemma StopNext(input: seq<int>, next: nat, served: seq<int>)
    requires next < |input| && input[next] != -1 && served + UpToStop(input[next..]) == UpToStop(input)
    ensures served + [input[next]] + UpToStop(input[next + 1..]) == UpToStop(input)
  {
    assert input[next..][1..] == input[next + 1..];
    assert served + [input[next]] + UpToStop(input[next + 1..]) == served + ([input[next]] + UpToStop(input[next + 1..]));
  }

  /** The table that main sets up. */
  function Bare(space: nat): seq<Platter> { seq(space, _ => Platter(-1, -1)) }

  class Table {
    const platters: array<Platter>

    constructor (space: nat)
      ensures fresh(platters) && platters[..] == Bare(space)
    {
      platters := new Platter[space](_ => Platter(-1, -1));
      new;
      assert platters[..] == Bare(space);
    }

    /** One turn of the loop in serve_dishes: a single scan finds the dish or the least used platter. */
    method ServeOne(orderId: int) returns (fetched: bool)
      requires platters.Length > 0
      modifies platters
      ensures platters[..] == Serve(old(platters[..]), orderId)
      ensures fetched <==> IndexOf(old(platters[..]), orderId) == platters.Length
    {
      ghost var was := platters[..];
      var found, least := -1, 0;
      var i := 0;
      while i < platters.Length
        invariant 0 <= i <= platters.Length && platters[..] == was && found == -1
        invariant forall k :: 0 <= k < i ==> was[k].dish != orderId
        invariant least == if i == 0 then 0 else LeftmostMin(Uses(was)[..i])
      {
        if platters[i].dish == orderId {
          found := i;
          break;
        }
        assert i > 0 ==> Uses(was)[..i + 1][..i] == Uses(was)[..i];
        if platters[least].uses > platters[i].uses {
          least := i;
        }
        i := i + 1;
      }
      fetched := found == -1;
      if found != -1 {
        platters[found] := Platter(platters[found].dish, platters[found].uses + 1);
      } else {
        assert Uses(was)[..i] == Uses(was);
        platters[least] := Platter(orderId, 0);
      }
    }

    method ServeDishes(input: seq<int>) returns (fetches: nat)
      requires platters.Length > 0
      modifies platters
      ensures (platters[..], fetches) == ServeAll(old(platters[..]), UpToStop(input))
    {
      ghost var was, served := platters[..], [];
      fetches := 0;
      var next := 0;
      while next < |input| && input[next] != -1
        invariant next <= |input| && served + UpToStop(input[next..]) == UpToStop(input)
        invariant (platters[..], fetches) == ServeAll(was, served)
      {
        var orderId := input[next];
        var fetched := ServeOne(orderId);
        if fetched {
          fetches := fetches + 1;
        }
        ServeNext(was, served, orderId);
        StopNext(input, next, served);
        served := served + [orderId];
        next := next + 1;
      }
      assert served + [] == served;
    }
  }
}
