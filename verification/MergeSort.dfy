/**
  merge and the sequential reading of merge_sort (05-threading/class/merge_sort.c): the two
  halves sorted one after the other, as a single thread would.
 */
module MergeSort {
  import opened Sorting

  /** Sequences equal on a range are equal on every part of it. */
  lemma SubSlice(s: seq<Key>, s': seq<Key>, lo: nat, hi: nat, i: nat, j: nat)
    requires lo <= i <= j <= hi && hi <= |s| && hi <= |s'| && s[lo..hi] == s'[lo..hi]
    ensures s[i..j] == s'[i..j]
  {
    forall k | i <= k < j ensures s[k] == s'[k] {
      assert s[lo..hi][k - lo] == s'[lo..hi][k - lo];
    }
  }

  /** On equal keys the right run goes first, as the strict comparison in merge says. */
  function MergeSeq(x: seq<Key>, y: seq<Key>): seq<Key>
    decreases |x| + |y|
  {
    if x == [] then y
    else if y == [] then x
    else if x[0] < y[0] then [x[0]] + MergeSeq(x[1..], y)
    else [y[0]] + MergeSeq(x, y[1..])
  }

  lemma {:induction false} MergeContents(x: seq<Key>, y: seq<Key>)
    ensures multiset(MergeSeq(x, y)) == multiset(x) + multiset(y)
    decreases |x| + |y|
  {
    if x != [] && y != [] {
      if x[0] < y[0] {
        MergeContents(x[1..], y);
        assert x == [x[0]] + x[1..];
      } else {
        MergeContents(x, y[1..]);
        assert y == [y[0]] + y[1..];
      }
    }
  }

  lemma {:induction false} MergeSorted(x: seq<Key>, y: seq<Key>, low: Key)
    requires Sorted(x) && Sorted(y) && (x != [] ==> low <= x[0]) && (y != [] ==> low <= y[0])
    ensures Sorted(MergeSeq(x, y)) && (MergeSeq(x, y) != [] ==> low <= MergeSeq(x, y)[0])
    decreases |x| + |y|
  {
    if x != [] && y != [] {
      if x[0] < y[0] {
        MergeSorted(x[1..], y, x[0]);
      } else {
        MergeSorted(x, y[1..], y[0]);
      }
    }
  }

  /** Merging the two sorted halves is sorting the whole. */
  lemma MergeOfSorted(x: seq<Key>, y: seq<Key>)
    ensures MergeSeq(Sort(x), Sort(y)) == Sort(x + y)
  {
    SortSorts(x);
    SortSorts(y);
    SortSorts(x + y);
    var a, b := Sort(x), Sort(y);
    var low := if a == [] then (if b == [] then 0.0 else b[0]) else if b == [] || a[0] <= b[0] then a[0] else b[0];
    MergeSorted(a, b, low);
    MergeContents(a, b);
    SortedPermutationIsUnique(MergeSeq(a, b), Sort(x + y));
  }

  lemma JoinSlices(a: seq<Key>, lo: nat, mid: nat, hi: nat)
    requires lo <= mid <= hi <= |a|
    ensures a[lo..mid] + a[mid..hi] == a[lo..hi]
  {
  }

  lemma SortOfHalves(a: seq<Key>, lo: nat, mid: nat, hi: nat, x: seq<Key>, y: seq<Key>, z: seq<Key>)
    requires lo <= mid < hi < |a|
    requires x == Sort(a[lo..mid + 1]) && y == Sort(a[mid + 1..hi + 1]) && z == Sort(a[lo..hi + 1])
    ensures MergeSeq(x, y) == z
  {
    JoinSlices(a, lo, mid + 1, hi + 1);
    MergeOfSorted(a[lo..mid + 1], a[mid + 1..hi + 1]);
  }

  lemma TakeLeft(x: seq<Key>, y: seq<Key>)
    requires x != [] && (y == [] || x[0] < y[0])
    ensures MergeSeq(x, y) == [x[0]] + MergeSeq(x[1..], y)
  {
    if y == [] && |x| > 1 {
      assert MergeSeq(x[1..], y) == x[1..];
    }
  }

  lemma TakeRight(x: seq<Key>, y: seq<Key>)
    requires y != [] && (x == [] || x[0] >= y[0])
    ensures MergeSeq(x, y) == [y[0]] + MergeSeq(x, y[1..])
  {
  }

  // ----- The split point

  /** start + (end - start) / 2 in real arithmetic, truncated by the conversion to size_t. */
  function RealMid(start: nat, end: nat): int {
    (start as real + (end as real - start as real) / 2.0).Floor
  }

  /** The split used to fork equals the one merge recomputes, and both halves are shorter. */
  lemma SplitPointsAgree(start: nat, end: nat)
    requires start < end
    ensures RealMid(start, end) == (start + end) / 2
    ensures start <= RealMid(start, end) < end
  {
    assert start as real + (end as real - start as real) / 2.0 == (start + end) as real / 2.0;
  }

  // 2 to the 52 and to the 53: below the first every multiple of 1/2 is a double, between the two
  // only the integers are.
  const TWO_52: int := 0x10_0000_0000_0000
  const TWO_53: int := 0x20_0000_0000_0000

  /** The double nearest to x, for a multiple of 1/2 in [0, 2^53); a tie goes to the even one. */
  function NearestDouble(x: real): real {
    if x < TWO_52 as real || x == x.Floor as real then x
    else if x.Floor % 2 == 0 then x.Floor as real
    else (x.Floor + 1) as real
  }

  /** The split point as merge_sort computes it: only the addition can round for indices below 2^53. */
  function DoubleMid(start: nat, end: nat): int {
    NearestDouble(start as real + (end as real - start as real) / 2.0).Floor
  }

  lemma HalfFloor(n: nat)
    ensures (n as real / 2.0).Floor == n / 2
    ensures n as real / 2.0 == (n / 2) as real <==> n % 2 == 0
  {
    assert n == 2 * (n / 2) + n % 2;
  }

  /**
    In doubles the split is the exact one, and so the one merge recomputes, when the midpoint is
    representable or rounds down, and otherwise one too far; below 2^52 it always is exact.
   */
  lemma DoubleMidAgreesIff(start: nat, end: nat)
    requires start < end < TWO_53
    ensures DoubleMid(start, end) == RealMid(start, end) <==> start + end < TWO_53 || (start + end) % 4 != 3
    ensures DoubleMid(start, end) != RealMid(start, end) ==> DoubleMid(start, end) == (start + end) / 2 + 1
    ensures end <= TWO_52 ==> DoubleMid(start, end) == RealMid(start, end) == (start + end) / 2
  {
    var n := start + end;
    SplitPointsAgree(start, end);
    assert start as real + (end as real - start as real) / 2.0 == n as real / 2.0;
    HalfFloor(n);
    assert n as real / 2.0 < TWO_52 as real <==> n < TWO_53;
    assert n % 4 == 3 <==> n % 2 == 1 && (n / 2) % 2 == 1;
  }

  // ----- merge

  /** Progress of merge: tmp holds the first part of the merged runs a[ai..mid] and a[bi..end]. */
  ghost predicate Merging(a: seq<Key>, start: nat, mid: nat, end: nat, ai: nat, bi: nat, tmp: seq<Key>, goal: seq<Key>) {
    && start <= ai <= mid + 1 <= bi <= end + 1 <= |a|
    && |tmp| == (ai - start) + (bi - mid - 1)
    && tmp + MergeSeq(a[ai..mid + 1], a[bi..end + 1]) == goal
  }

  lemma MergeLeft(a: seq<Key>, start: nat, mid: nat, end: nat, ai: nat, bi: nat, tmp: seq<Key>, goal: seq<Key>)
    requires Merging(a, start, mid, end, ai, bi, tmp, goal)
    requires ai <= mid && (bi > end || a[ai] < a[bi])
    ensures Merging(a, start, mid, end, ai + 1, bi, tmp + [a[ai]], goal)
  {
    var x, y := a[ai..mid + 1], a[bi..end + 1];
    TakeLeft(x, y);
    assert x[1..] == a[ai + 1..mid + 1];
    assert tmp + ([x[0]] + MergeSeq(x[1..], y)) == (tmp + [x[0]]) + MergeSeq(x[1..], y);
  }

  lemma MergeRight(a: seq<Key>, start: nat, mid: nat, end: nat, ai: nat, bi: nat, tmp: seq<Key>, goal: seq<Key>)
    requires Merging(a, start, mid, end, ai, bi, tmp, goal)
    requires bi <= end && (ai > mid || a[ai] >= a[bi])
    ensures Merging(a, start, mid, end, ai, bi + 1, tmp + [a[bi]], goal)
  {
    var x, y := a[ai..mid + 1], a[bi..end + 1];
    TakeRight(x, y);
    assert y[1..] == a[bi + 1..end + 1];
    assert tmp + ([y[0]] + MergeSeq(x, y[1..])) == (tmp + [y[0]]) + MergeSeq(x, y[1..]);
  }

  /** tmp[i] = v */
  method Put(tmp: array<Key>, i: nat, v: Key)
    requires i < tmp.Length
    modifies tmp
    ensures tmp[..i + 1] == old(tmp[..i]) + [v]
  {
    tmp[i] := v;
  }

  /** The loop of merge that runs while both runs have elements. */
  method MergeHeads(a: array<Key>, start: nat, mid: nat, end: nat, tmp: array<Key>, ghost goal: seq<Key>)
    returns (i: nat, aIndex: nat, bIndex: nat)
    requires start <= mid < end < a.Length && tmp.Length == end - start + 1 && a != tmp
    requires Merging(a[..], start, mid, end, start, mid + 1, [], goal)
    modifies tmp
    ensures i <= tmp.Length && Merging(a[..], start, mid, end, aIndex, bIndex, tmp[..i], goal)
    ensures aIndex > mid || bIndex > end
  {
    ghost var was := a[..];
    i, aIndex, bIndex := 0, start, mid + 1;
    while aIndex <= mid && bIndex <= end
      invariant a[..] == was
      invariant i <= tmp.Length && Merging(was, start, mid, end, aIndex, bIndex, tmp[..i], goal)
      decreases tmp.Length - i
    {
      if a[aIndex] < a[bIndex] {
        MergeLeft(was, start, mid, end, aIndex, bIndex, tmp[..i], goal);
        Put(tmp, i, a[aIndex]);
        aIndex := aIndex + 1;
      } else {
        MergeRight(was, start, mid, end, aIndex, bIndex, tmp[..i], goal);
        Put(tmp, i, a[bIndex]);
        bIndex := bIndex + 1;
      }
      i := i + 1;
    }
  }

  /** Either of the two loops that empty the run left over. */
  method Drain(a: array<Key>, first: nat, end: nat, tmp: array<Key>, i: nat)
    requires first <= end <= a.Length && i + (end - first) <= tmp.Length && a != tmp
    modifies tmp
    ensures tmp[..i + (end - first)] == old(tmp[..i]) + a[first..end]
  {
    var j, index := i, first;
    while index < end
      invariant first <= index <= end && j == i + (index - first) && a[..] == old(a[..])
      invariant tmp[..j] == old(tmp[..i]) + a[first..index]
    {
      Put(tmp, j, a[index]);
      j, index := j + 1, index + 1;
    }
  }

  /** The loops of merge that fill the buffer tmp. */
  method MergeRuns(a: array<Key>, start: nat, mid: nat, end: nat, ghost was: seq<Key>, ghost goal: seq<Key>)
    returns (tmp: array<Key>)
    requires start <= mid < end < a.Length && was == a[..]
    requires Merging(was, start, mid, end, start, mid + 1, [], goal)
    ensures fresh(tmp) && tmp.Length == end - start + 1 && tmp[..] == goal
  {
    tmp := new Key[end - start + 1];
    var i, aIndex, bIndex := MergeHeads(a, start, mid, end, tmp, goal);
    ghost var done := tmp[..i];
    Drain(a, aIndex, mid + 1, tmp, i);
    i := i + (mid + 1 - aIndex);
    Drain(a, bIndex, end + 1, tmp, i);
    OneRunLeft(was, start, mid, end, aIndex, bIndex, done, goal);
  }

  lemma OneRunLeft(a: seq<Key>, start: nat, mid: nat, end: nat, ai: nat, bi: nat, tmp: seq<Key>, goal: seq<Key>)
    requires Merging(a, start, mid, end, ai, bi, tmp, goal) && (ai > mid || bi > end)
    ensures tmp + a[ai..mid + 1] + a[bi..end + 1] == goal
  {
    assert tmp + a[ai..mid + 1] + a[bi..end + 1] == tmp + MergeSeq(a[ai..mid + 1], a[bi..end + 1]);
  }

  /** now is was with the range [start, end] replaced by r. */
  ghost predicate Replaced(was: seq<Key>, now: seq<Key>, start: nat, end: nat, r: seq<Key>) {
    && start <= end < |was| == |now|
    && now[..start] == was[..start] && now[end + 1..] == was[end + 1..]
    && now[start..end + 1] == r
  }

  /** The two runs that merge finds on either side of its split point, merged. */
  ghost function Merged(a: seq<Key>, start: nat, end: nat): seq<Key>
    requires start < end < |a|
  {
    var mid := (start + end) / 2;
    MergeSeq(a[start..mid + 1], a[mid + 1..end + 1])
  }

  lemma MergedGoal(a: seq<Key>, start: nat, end: nat)
    requires start < end < |a|
    ensures Merging(a, start, (start + end) / 2, end, start, (start + end) / 2 + 1, [], Merged(a, start, end))
    ensures |Merged(a, start, end)| == end - start + 1
  {
    var mid := (start + end) / 2;
    MergeContents(a[start..mid + 1], a[mid + 1..end + 1]);
    SameSize(Merged(a, start, end), a[start..mid + 1] + a[mid + 1..end + 1]);
  }

  method Merge(a: array<Key>, start: nat, end: nat)
    requires end < a.Length
    modifies a
    ensures start >= end ==> a[..] == old(a[..])
    ensures start < end ==> Replaced(old(a[..]), a[..], start, end, Merged(old(a[..]), start, end))
  {
    if start >= end {
      return;
    }
    var mid := (start + end) / 2;
    ghost var was := a[..];
    MergedGoal(was, start, end);
    var tmp := MergeRuns(a, start, mid, end, was, Merged(was, start, end));
    CopyBack(a, start, end, tmp);
  }

  /** The last loop of merge. */
  method CopyBack(a: array<Key>, start: nat, end: nat, tmp: array<Key>)
    requires start <= end < a.Length && tmp.Length == end - start + 1 && a != tmp
    modifies a
    ensures Replaced(old(a[..]), a[..], start, end, tmp[..])
  {
    var i := start;
    while i <= end
      invariant start <= i <= end + 1 && tmp[..] == old(tmp[..])
      invariant a[..start] == old(a[..start]) && a[end + 1..] == old(a[end + 1..])
      invariant a[start..i] == tmp[..i - start]
    {
      a[i] := tmp[i - start];
      i := i + 1;
    }
    assert tmp[..i - start] == tmp[..];
  }

  // ----- merge_sort in one thread

  lemma LeftHalfKept(was: seq<Key>, half: seq<Key>, both: seq<Key>, start: nat, mid: nat)
    requires start <= mid < |was| == |half| == |both|
    requires half[..start] == was[..start] && both[..mid + 1] == half[..mid + 1]
    ensures both[..start] == was[..start] && both[start..mid + 1] == half[start..mid + 1]
  {
    SubSlice(both, half, 0, mid + 1, start, mid + 1);
    SubSlice(both, half, 0, mid + 1, 0, start);
  }

  lemma RightHalfKept(was: seq<Key>, half: seq<Key>, mid: nat, end: nat)
    requires mid < end < |was| == |half| && half[mid + 1..] == was[mid + 1..]
    ensures half[end + 1..] == was[end + 1..] && half[mid + 1..end + 1] == was[mid + 1..end + 1]
  {
    SubSlice(half, was, mid + 1, |was|, mid + 1, end + 1);
    SubSlice(half, was, mid + 1, |was|, end + 1, |was|);
  }

  lemma HalvesSorted(was: seq<Key>, half: seq<Key>, both: seq<Key>, now: seq<Key>, start: nat, mid: nat, end: nat)
    requires start <= mid < end < |was|
    requires Replaced(was, half, start, mid, Sort(was[start..mid + 1]))
    requires Replaced(half, both, mid + 1, end, Sort(half[mid + 1..end + 1]))
    requires mid == (start + end) / 2 && Replaced(both, now, start, end, Merged(both, start, end))
    ensures Replaced(was, now, start, end, Sort(was[start..end + 1]))
  {
    LeftHalfKept(was, half, both, start, mid);
    RightHalfKept(was, half, mid, end);
    SortOfHalves(was, start, mid, end, both[start..mid + 1], both[mid + 1..end + 1], Sort(was[start..end + 1]));
  }

  lemma OneIsSorted(was: seq<Key>, start: nat)
    requires start < |was|
    ensures Sort(was[start..start + 1]) == was[start..start + 1]
  {
    assert was[start..start + 1][..0] == [];
    assert was[start..start + 1] == [was[start]];
  }

  method MergeSort(a: array<Key>, start: nat, end: nat)
    requires end < a.Length
    modifies a
    ensures start <= end ==> Replaced(old(a[..]), a[..], start, end, Sort(old(a[start..end + 1])))
    ensures start > end ==> a[..] == old(a[..])
    decreases end - start
  {
    ghost var was := a[..];
    if start >= end {
      if start == end {
        OneIsSorted(was, start);
      }
      return;
    }
    SplitPointsAgree(start, end);
    var mid := RealMid(start, end);
    MergeSort(a, start, mid);
    ghost var half := a[..];
    MergeSort(a, mid + 1, end);
    ghost var both := a[..];
    Merge(a, start, end);
    HalvesSorted(was, half, both, a[..], start, mid, end);
  }
}
