/**
  The sequential sorts (05-threading/class/merge_sort.c and insertion_sort.c) on real arrays,
  against one functional specification, `Sort`.
 */
module Sorting {

  // A double that is not NaN; only its total order matters here.
  type Key = real

  ghost predicate Sorted(s: seq<Key>) {
    forall i, j :: 0 <= i < j < |s| ==> s[i] <= s[j]
  }

  /** x placed behind every element that is not above it. */
  function Insert(s: seq<Key>, x: Key): seq<Key> {
    if s == [] || s[|s| - 1] <= x then s + [x] else Insert(s[..|s| - 1], x) + [s[|s| - 1]]
  }

  function Sort(s: seq<Key>): seq<Key> {
    if s == [] then [] else Insert(Sort(s[..|s| - 1]), s[|s| - 1])
  }

  lemma {:induction false} InsertContents(s: seq<Key>, x: Key)
    ensures multiset(Insert(s, x)) == multiset(s) + multiset{x}
  {
    if s != [] && s[|s| - 1] > x {
      InsertContents(s[..|s| - 1], x);
      assert s == s[..|s| - 1] + [s[|s| - 1]];
    }
  }

  lemma {:induction false} InsertSorted(s: seq<Key>, x: Key, top: Key)
    requires Sorted(s) && x <= top && (s != [] ==> s[|s| - 1] <= top)
    ensures Sorted(Insert(s, x)) && forall i :: 0 <= i < |Insert(s, x)| ==> Insert(s, x)[i] <= top
  {
    if s != [] && s[|s| - 1] > x {
      InsertSorted(s[..|s| - 1], x, s[|s| - 1]);
    }
  }

  lemma {:induction false} SortContents(s: seq<Key>)
    ensures multiset(Sort(s)) == multiset(s)
  {
    if s != [] {
      SortContents(s[..|s| - 1]);
      InsertContents(Sort(s[..|s| - 1]), s[|s| - 1]);
      assert s == s[..|s| - 1] + [s[|s| - 1]];
    }
  }

  lemma {:induction false} SortSorted(s: seq<Key>)
    ensures Sorted(Sort(s))
  {
    if s != [] {
      var r, last := Sort(s[..|s| - 1]), s[|s| - 1];
      SortSorted(s[..|s| - 1]);
      InsertSorted(r, last, if r == [] || r[|r| - 1] <= last then last else r[|r| - 1]);
    }
  }

  lemma SameSize(a: seq<Key>, b: seq<Key>)
    requires multiset(a) == multiset(b)
    ensures |a| == |b|
  {
    assert |multiset(a)| == |a| && |multiset(b)| == |b|;
  }

  /** Sort yields a sorted permutation... */
  lemma SortSorts(s: seq<Key>)
    ensures Sorted(Sort(s)) && multiset(Sort(s)) == multiset(s) && |Sort(s)| == |s|
  {
    SortSorted(s);
    SortContents(s);
    SameSize(Sort(s), s);
  }

  lemma FirstIsLeast(a: seq<Key>, x: Key)
    requires Sorted(a) && x in multiset(a)
    ensures a[0] <= x
  {
  }

  lemma DropFirst(a: seq<Key>)
    requires a != [] && Sorted(a)
    ensures multiset(a[1..]) == multiset(a) - multiset{a[0]}
    ensures Sorted(a[1..]) && a[0] in multiset(a)
  {
    assert a == [a[0]] + a[1..];
  }

  lemma SameFirst(a: seq<Key>, b: seq<Key>)
    requires Sorted(a) && Sorted(b) && multiset(a) == multiset(b) && a != [] && b != []
    ensures a[0] == b[0]
  {
    DropFirst(a);
    DropFirst(b);
    FirstIsLeast(a, b[0]);
    FirstIsLeast(b, a[0]);
  }

  /** ...and there is only one. */
  lemma {:induction false} SortedPermutationIsUnique(a: seq<Key>, b: seq<Key>)
    requires Sorted(a) && Sorted(b) && multiset(a) == multiset(b)
    ensures a == b
  {
    SameSize(a, b);
    if a != [] {
      SameFirst(a, b);
      DropFirst(a);
      DropFirst(b);
      SortedPermutationIsUnique(a[1..], b[1..]);
      assert a == [a[0]] + a[1..] && b == [b[0]] + b[1..];
    }
  }

  // ----- Inversions

  function Above(s: seq<Key>, x: Key): nat {
    if s == [] then 0 else Above(s[..|s| - 1], x) + (if s[|s| - 1] > x then 1 else 0)
  }

  function Inversions(s: seq<Key>): nat {
    if s == [] then 0 else Inversions(s[..|s| - 1]) + Above(s[..|s| - 1], s[|s| - 1])
  }

  ghost function InvertedPairs(s: seq<Key>): set<(int, int)> {
    set i, j | 0 <= i < j < |s| && s[i] > s[j] :: (i, j)
  }

  ghost function PairsWithLast(s: seq<Key>, n: nat, x: Key): set<(int, int)>
    requires n <= |s|
  {
    set i | 0 <= i < n && s[i] > x :: (i, |s|)
  }

  lemma {:induction false} AboveCounts(s: seq<Key>, n: nat, x: Key)
    requires n <= |s|
    ensures |PairsWithLast(s, n, x)| == Above(s[..n], x)
  {
    if n > 0 {
      AboveCounts(s, n - 1, x);
      assert s[..n][..n - 1] == s[..n - 1];
      assert PairsWithLast(s, n, x)
          == PairsWithLast(s, n - 1, x) + (if s[n - 1] > x then {(n - 1, |s|)} else {});
    }
  }

  /** The recursive count is the number of pairs out of order. */
  lemma {:induction false} InversionsCountPairs(s: seq<Key>)
    ensures Inversions(s) == |InvertedPairs(s)|
  {
    if s != [] {
      var n := |s| - 1;
      var init := s[..n];
      InversionsCountPairs(init);
      AboveCounts(init, n, s[n]);
      assert init[..n] == init;
      SplitPairs(s);
    } else {
      assert InvertedPairs(s) == {};
    }
  }

  lemma SplitPairs(s: seq<Key>)
    requires s != []
    ensures var n := |s| - 1; var last := PairsWithLast(s[..n], n, s[n]);
            InvertedPairs(s) == InvertedPairs(s[..n]) + last && InvertedPairs(s[..n]) !! last
  {
  }

  lemma {:induction false} AboveInsert(s: seq<Key>, y: Key, x: Key)
    ensures Above(Insert(s, y), x) == Above(s, x) + (if y > x then 1 else 0)
  {
    if s == [] || s[|s| - 1] <= y {
      assert (s + [y])[..|s|] == s;
    } else {
      var init, last := s[..|s| - 1], s[|s| - 1];
      AboveInsert(init, y, x);
      assert (Insert(init, y) + [last])[..|Insert(init, y)|] == Insert(init, y);
    }
  }

  lemma {:induction false} AboveSort(s: seq<Key>, x: Key)
    ensures Above(Sort(s), x) == Above(s, x)
  {
    if s != [] {
      AboveSort(s[..|s| - 1], x);
      AboveInsert(Sort(s[..|s| - 1]), s[|s| - 1], x);
    }
  }

  /** Where Insert puts x... */
  lemma {:induction false} InsertAt(s: seq<Key>, x: Key, k: nat)
    requires k <= |s| && (k > 0 ==> s[k - 1] <= x)
    requires forall i :: k <= i < |s| ==> s[i] > x
    ensures Insert(s, x) == s[..k] + [x] + s[k..]
  {
    if k < |s| {
      InsertAt(s[..|s| - 1], x, k);
      assert s[..|s| - 1][..k] == s[..k];
      assert s[k..] == s[..|s| - 1][k..] + [s[|s| - 1]];
    }
  }

  /** ...and how many elements it has to move. */
  lemma {:induction false} AboveAt(s: seq<Key>, x: Key, k: nat)
    requires Sorted(s) && k <= |s| && (k > 0 ==> s[k - 1] <= x)
    requires forall i :: k <= i < |s| ==> s[i] > x
    ensures Above(s, x) == |s| - k
  {
    if k == |s| {
      NoneAbove(s, x);
    } else {
      AboveAt(s[..|s| - 1], x, k);
    }
  }

  lemma {:induction false} NoneAbove(s: seq<Key>, x: Key)
    requires Sorted(s) && (s != [] ==> s[|s| - 1] <= x)
    ensures Above(s, x) == 0
  {
    if s != [] {
      NoneAbove(s[..|s| - 1], x);
    }
  }

  // ----- insertion_sort

  /** What the array holds while the element of position i is being placed: a hole at j. */
  ghost predicate HoleAt(arr: seq<Key>, before: seq<Key>, a: nat, i: nat, j: nat) {
    && a <= j <= i < |arr| == |before|
    && arr[..j] == before[..j]
    && arr[j] == (if j == i then before[i] else before[j])
    && arr[j + 1..i + 1] == before[j..i]
    && arr[i + 1..] == before[i + 1..]
  }

  lemma ShiftMovesHole(arr: seq<Key>, before: seq<Key>, a: nat, i: nat, j: nat)
    requires HoleAt(arr, before, a, i, j) && j > a
    ensures arr[j - 1] == before[j - 1]
    ensures HoleAt(arr[j := arr[j - 1]], before, a, i, j - 1)
  {
    var arr' := arr[j := arr[j - 1]];
    assert arr[j - 1] == arr[..j][j - 1] == before[..j][j - 1];
    assert arr'[..j - 1] == arr[..j][..j - 1] == before[..j][..j - 1];
    assert arr'[j..i + 1] == [before[j - 1]] + arr[j + 1..i + 1] == before[j - 1..i];
  }

  lemma FillHole(arr: seq<Key>, before: seq<Key>, a: nat, i: nat, j: nat, x: Key)
    requires HoleAt(arr, before, a, i, j)
    ensures arr[j := x] == before[..a] + (before[a..j] + [x] + before[j..i]) + before[i + 1..]
  {
    assert arr[j := x] == arr[..j] + [x] + arr[j + 1..i + 1] + arr[i + 1..];
    assert before[..j] == before[..a] + before[a..j];
  }

  lemma SliceFacts(before: seq<Key>, a: nat, i: nat, j: nat)
    requires a <= j <= i <= |before|
    ensures before[a..i][..j - a] == before[a..j] && before[a..i][j - a..] == before[j..i]
  {
  }

  lemma InsertIntoRange(before: seq<Key>, a: nat, i: nat, j: nat)
    requires a <= j <= i < |before| && Sorted(before[a..i])
    requires j > a ==> before[j - 1] <= before[i]
    requires forall x :: j <= x < i ==> before[x] > before[i]
    ensures Insert(before[a..i], before[i]) == before[a..j] + [before[i]] + before[j..i]
    ensures Above(before[a..i], before[i]) == i - j
    ensures j > a ==> before[a] <= before[i]
  {
    var s := before[a..i];
    assert forall x :: 0 <= x < |s| ==> s[x] == before[a + x];
    InsertAt(s, before[i], j - a);
    AboveAt(s, before[i], j - a);
    SliceFacts(before, a, i, j);
    if j > a {
      assert s[0] <= s[j - 1 - a];
    }
  }

  /** now is before with the element at i inserted into the range [a, i). */
  ghost predicate Inserted(before: seq<Key>, now: seq<Key>, a: nat, i: nat) {
    && a < i < |before| == |now|
    && now[..a] == before[..a] && now[i + 1..] == before[i + 1..]
    && now[a..i + 1] == Insert(before[a..i], before[i])
  }

  lemma SlicesOf(arr: seq<Key>, before: seq<Key>, a: nat, i: nat)
    requires a < i < |before| == |arr|
    requires arr == before[..a] + Insert(before[a..i], before[i]) + before[i + 1..]
    ensures Inserted(before, arr, a, i)
  {
    var r := Insert(before[a..i], before[i]);
    assert |r| == i + 1 - a;
    assert arr[..a] == before[..a] && arr[a..a + |r|] == r && arr[a + |r|..] == before[i + 1..];
  }

  /** The inner loop with its fix-up: the element at i joins the sorted range [a, i). */
  method InsertOne(arr: array<Key>, a: nat, i: nat) returns (ghost moved: nat)
    requires a < i < arr.Length && Sorted(arr[..][a..i])
    modifies arr
    ensures Inserted(old(arr[..]), arr[..], a, i)
    ensures moved == Above(old(arr[..])[a..i], old(arr[i]))
  {
    ghost var before := arr[..];
    var tmp := arr[i];
    var j := i;
    moved := 0;
    ghost var placed := before[..a] + Insert(before[a..i], tmp) + before[i + 1..];
    while j > a
      invariant HoleAt(arr[..], before, a, i, j)
      invariant forall x :: j <= x < i ==> before[x] > tmp
      invariant moved == i - j
    {
      ShiftMovesHole(arr[..], before, a, i, j);
      if arr[j - 1] > tmp {
        arr[j] := arr[j - 1];
        moved := moved + 1;
      } else {
        InsertIntoRange(before, a, i, j);
        FillHole(arr[..], before, a, i, j, tmp);
        arr[j] := tmp;
        assert arr[..] == placed && arr[a] <= tmp;
        break;
      }
      j := j - 1;
    }
    if j == a {
      InsertIntoRange(before, a, i, a);
      FillHole(arr[..], before, a, i, a, tmp);
    }
    if arr[a] > tmp {
      arr[a] := tmp;
    }
    SlicesOf(arr[..], before, a, i);
  }

  // ----- The outer loop

  lemma SortNext(was: seq<Key>, a: nat, i: nat)
    requires a < i < |was|
    ensures Sort(was[a..i + 1]) == Insert(Sort(was[a..i]), was[i])
    ensures Inversions(was[a..i + 1]) == Inversions(was[a..i]) + Above(Sort(was[a..i]), was[i])
  {
    assert was[a..i + 1][..i - a] == was[a..i];
    AboveSort(was[a..i], was[i]);
  }

  /** The elements of [a, i) are in order, after `shifts` moves, and the rest is as it was. */
  ghost predicate SortedUpTo(was: seq<Key>, now: seq<Key>, a: nat, i: nat, shifts: nat) {
    && a <= i <= |was| == |now|
    && now[..a] == was[..a] && now[a..i] == Sort(was[a..i]) && now[i..] == was[i..]
    && shifts == Inversions(was[a..i])
  }

  lemma SortOne(was: seq<Key>, a: nat)
    requires a < |was|
    ensures SortedUpTo(was, was, a, a + 1, 0)
  {
    assert was[a..a + 1] == [was[a]] && [was[a]][..0] == [];
  }

  lemma InsertNext(was: seq<Key>, before: seq<Key>, now: seq<Key>, a: nat, i: nat, shifts: nat, moved: nat)
    requires SortedUpTo(was, before, a, i, shifts) && Inserted(before, now, a, i)
    requires moved == Above(before[a..i], before[i])
    ensures SortedUpTo(was, now, a, i + 1, shifts + moved)
  {
    SortNext(was, a, i);
    assert before[i] == before[i..][0] == was[i];
    assert before[i + 1..] == before[i..][1..] == was[i + 1..];
  }

  method InsertionSort(arr: array<Key>, a: nat, b: nat) returns (ghost shifts: nat)
    requires b <= arr.Length
    modifies arr
    ensures a <= b ==> SortedUpTo(old(arr[..]), arr[..], a, b, shifts)
    ensures a > b ==> arr[..] == old(arr[..])
  {
    shifts := 0;
    ghost var was := arr[..];
    var i := a + 1;
    if a < b {
      SortOne(was, a);
    }
    while i < b
      invariant a < b ==> i <= b && SortedUpTo(was, arr[..], a, i, shifts)
      invariant a >= b ==> i == a + 1 && arr[..] == was && shifts == 0
    {
      ghost var before := arr[..];
      SortSorted(was[a..i]);
      ghost var moved := InsertOne(arr, a, i);
      InsertNext(was, before, arr[..], a, i, shifts, moved);
      shifts := shifts + moved;
      i := i + 1;
    }
  }

  // ----- What main does with it

  /** The last element is not below any other. */
  ghost predicate LastIsGreatest(s: seq<Key>)
    requires s != []
  {
    forall k :: 0 <= k < |s| - 1 ==> s[k] <= s[|s| - 1]
  }

  lemma SameElements(a: seq<Key>, b: seq<Key>, top: Key)
    requires multiset(a) == multiset(b) && forall k :: 0 <= k < |a| ==> a[k] <= top
    ensures forall k :: 0 <= k < |b| ==> b[k] <= top
  {
    forall k | 0 <= k < |b| ensures b[k] <= top {
      assert b[k] in multiset(b);
    }
  }

  /** Sorting all elements but the last sorts the whole exactly when the last one is greatest. */
  lemma AllButLastSorted(was: seq<Key>, now: seq<Key>, shifts: nat)
    requires was != [] && SortedUpTo(was, now, 0, |was| - 1, shifts)
    ensures Sorted(now) <==> LastIsGreatest(was)
  {
    var n := |was| - 1;
    var front := was[0..n];
    SortSorts(front);
    assert now[0..n] == Sort(front) && now[n] == now[n..][0] == was[n];
    if LastIsGreatest(was) {
      SameElements(front, Sort(front), was[n]);
      forall i, j | 0 <= i < j < |now| ensures now[i] <= now[j] {
        assert now[i] == now[0..n][i];
        assert j < n ==> now[j] == now[0..n][j];
      }
    }
    if Sorted(now) {
      assert forall k :: 0 <= k < n ==> Sort(front)[k] == now[k];
      SameElements(Sort(front), front, was[n]);
      assert forall k :: 0 <= k < n ==> was[k] == front[k];
    }
  }

  /** The call in main of insertion_sort.c: the exclusive bound is one less than the length. */
  method SortAsMainDoes(arr: array<Key>)
    requires arr.Length > 0
    modifies arr
    ensures Sorted(arr[..]) <==> LastIsGreatest(old(arr[..]))
    ensures multiset(arr[..]) == multiset(old(arr[..]))
  {
    ghost var was := arr[..];
    ghost var shifts := InsertionSort(arr, 0, arr.Length - 1);
    AllButLastSorted(was, arr[..], shifts);
    KeepsElements(was, arr[..], shifts);
  }

  lemma KeepsElements(was: seq<Key>, now: seq<Key>, shifts: nat)
    requires was != [] && SortedUpTo(was, now, 0, |was| - 1, shifts)
    ensures multiset(now) == multiset(was)
  {
    SortContents(was[0..|was| - 1]);
    SameParts(was, now, |was| - 1);
  }

  lemma SameParts(a: seq<Key>, b: seq<Key>, n: nat)
    requires n <= |a| == |b| && multiset(a[0..n]) == multiset(b[0..n]) && a[n..] == b[n..]
    ensures multiset(a) == multiset(b)
  {
    assert a == a[0..n] + a[n..] && b == b[0..n] + b[n..];
  }

  /** The array in main ends with its greatest element and so is sorted; in another order it is not. */
  lemma MainNeedsItsArray(now: seq<Key>, shifts: nat)
    ensures SortedUpTo([10.0, 5.0, 23.0], now, 0, 2, shifts) ==> Sorted(now)
    ensures SortedUpTo([10.0, 23.0, 5.0], now, 0, 2, shifts) ==> !Sorted(now)
  {
    if SortedUpTo([10.0, 5.0, 23.0], now, 0, 2, shifts) {
      AllButLastSorted([10.0, 5.0, 23.0], now, shifts);
    }
    if SortedUpTo([10.0, 23.0, 5.0], now, 0, 2, shifts) {
      var was := [10.0, 23.0, 5.0];
      assert was[0] > was[2];
      AllButLastSorted(was, now, shifts);
    }
  }
}
