/**
  Knuth-Morris-Pratt search (02-file-io/kmp.c).

  `build_prefix_table` and `kmp_search` run on a real array, and both are proved against the
  definition of an alignment of the pattern with the text.  The count of fallback assignments
  `j = A[j]` is kept as a ghost result.
 */
module Kmp {
  import opened Runs
  import opened Buffers

  /** The first k characters of p are the last k of t[..i]. */
  ghost predicate Aligned(p: seq<char>, t: seq<char>, i: int, k: int) {
    && 0 <= k <= i <= |t|
    && k <= |p|
    && p[..k] == t[i - k..i]
  }

  /** j is the longest alignment below `bound`; -1 when there is none. */
  ghost predicate Longest(p: seq<char>, t: seq<char>, i: int, bound: int, j: int) {
    && -1 <= j < bound
    && (j >= 0 ==> Aligned(p, t, i, j))
    && forall k :: j < k < bound ==> !Aligned(p, t, i, k)
  }

  /** a[i] is the length of the longest proper border of p[..i], or -1 for i = 0. */
  ghost predicate Entry(a: seq<int>, p: seq<char>, i: int) {
    0 <= i < |a| && i <= |p| && Longest(p, p, i, i, a[i])
  }

  ghost predicate TableUpTo(a: seq<int>, p: seq<char>, n: int) {
    forall i :: 0 <= i <= n ==> Entry(a, p, i)
  }

  // ----- Border theory

  /** Below an alignment of length k, the alignments are exactly the borders of p[..k]. */
  lemma ShorterAlignmentIsBorder(p: seq<char>, t: seq<char>, i: int, k: int, k': int)
    requires Aligned(p, t, i, k) && k' < k
    ensures Aligned(p, t, i, k') <==> Aligned(p, p, k, k')
  {
    if 0 <= k' {
      assert t[i - k'..i] == t[i - k..i][k - k'..] == p[..k][k - k'..] == p[k - k'..k];
    }
  }

  lemma ExtendAlignment(p: seq<char>, t: seq<char>, i: int, k: int)
    requires 0 <= i < |t| && 0 < k <= |p|
    ensures Aligned(p, t, i + 1, k) <==> Aligned(p, t, i, k - 1) && p[k - 1] == t[i]
  {
    if k <= i + 1 {
      var before, after := t[i - (k - 1)..i], t[i + 1 - k..i + 1];
      assert after == before + [t[i]];
      assert p[..k] == p[..k - 1] + [p[k - 1]];
      assert p[..k - 1] == p[..k][..k - 1] && before == after[..k - 1];
      assert p[k - 1] == p[..k][k - 1] && t[i] == after[k - 1];
    }
  }

  /**
    State of the inner loop: j is -1 or an alignment of t[..i], and no alignment longer than j and
    shorter than `bound` can be extended by t[i].
   */
  ghost predicate Candidate(p: seq<char>, t: seq<char>, i: int, bound: int, j: int) {
    && 0 <= i < |t| && -1 <= j < bound <= |p|
    && (j >= 0 ==> Aligned(p, t, i, j))
    && forall k :: j < k < bound ==> !(Aligned(p, t, i, k) && p[k] == t[i])
  }

  /** One fallback: j = A[j] keeps the candidate property. */
  lemma FallbackKeepsCandidate(p: seq<char>, t: seq<char>, i: int, bound: int, j: int, next: int)
    requires Candidate(p, t, i, bound, j) && j >= 0 && t[i] != p[j]
    requires Longest(p, p, j, j, next)
    ensures Candidate(p, t, i, bound, next)
  {
    forall k | next < k < bound ensures !(Aligned(p, t, i, k) && p[k] == t[i]) {
      if k < j {
        if 0 <= k {
          ShorterAlignmentIsBorder(p, t, i, j, k);
        }
      }
    }
    if next >= 0 {
      ShorterAlignmentIsBorder(p, t, i, j, next);
    }
  }

  /** When the inner loop has stopped, ++j is the longest alignment of t[..i + 1] up to `bound`. */
  lemma Advance(p: seq<char>, t: seq<char>, i: int, bound: int, j: int)
    requires Candidate(p, t, i, bound, j) && (j == -1 || t[i] == p[j])
    ensures Longest(p, t, i + 1, bound + 1, j + 1)
  {
    assert j >= 0 ==> Aligned(p, t, i, j);
    if j >= 0 {
      ExtendAlignment(p, t, i, j + 1);
    }
    var i' := i + 1;
    forall k | j + 1 < k < bound + 1 ensures !Aligned(p, t, i', k) {
      ExtendAlignment(p, t, i, k);
      assert !(Aligned(p, t, i, k - 1) && p[k - 1] == t[i]);
    }
  }

  lemma LongestIsCandidate(p: seq<char>, t: seq<char>, i: int, bound: int, j: int)
    requires 0 <= i < |t| && bound <= |p| && Longest(p, t, i, bound, j)
    ensures Candidate(p, t, i, bound, j)
  {
  }

  // ----- How often the table is followed

  /** The alignments of t[..i] that do not survive t[i]: none at least as long can be extended by it. */
  ghost function Refused(p: seq<char>, t: seq<char>, i: int, bound: int): set<int>
    requires 0 <= i < |t| && bound <= |p|
  {
    set k | 0 <= k < bound && Aligned(p, t, i, k) && NoneExtends(p, t, i, k, bound)
  }

  ghost predicate NoneExtends(p: seq<char>, t: seq<char>, i: int, k: int, bound: int)
    requires 0 <= i < |t| && 0 <= k && bound <= |p|
  {
    forall longer :: k <= longer < bound && Aligned(p, t, i, longer) ==> p[longer] != t[i]
  }

  ghost function Tried(p: seq<char>, t: seq<char>, i: int, bound: int, j: int): set<int> {
    set k | 0 <= k < bound && j < k && Aligned(p, t, i, k)
  }

  /** A fallback passes over exactly one alignment. */
  lemma FallbackTriesOne(p: seq<char>, t: seq<char>, i: int, bound: int, j: int, next: int)
    requires 0 <= j < bound && Aligned(p, t, i, j) && Longest(p, p, j, j, next)
    ensures |Tried(p, t, i, bound, next)| == |Tried(p, t, i, bound, j)| + 1
  {
    forall k | next < k < j ensures !Aligned(p, t, i, k) {
      ShorterAlignmentIsBorder(p, t, i, j, k);
    }
    assert Tried(p, t, i, bound, next) == Tried(p, t, i, bound, j) + {j};
  }

  lemma NothingTriedYet(p: seq<char>, t: seq<char>, i: int, bound: int, j: int)
    requires Longest(p, t, i, bound, j)
    ensures Tried(p, t, i, bound, j) == {}
  {
  }

  lemma TriedAreRefused(p: seq<char>, t: seq<char>, i: int, bound: int, j: int)
    requires Candidate(p, t, i, bound, j) && (j == -1 || t[i] == p[j])
    ensures Tried(p, t, i, bound, j) == Refused(p, t, i, bound)
  {
  }

  /** All alignments refused while the table is built for the first n characters. */
  ghost function RefusedInTable(p: seq<char>, n: nat): nat
    requires n <= |p|
  {
    if n == 0 then 0 else RefusedInTable(p, n - 1) + |Refused(p, p, n - 1, n - 1)|
  }

  /** All alignments refused while the first n characters of t are searched. */
  ghost function RefusedInSearch(p: seq<char>, t: seq<char>, n: nat): nat
    requires n <= |t|
  {
    if n == 0 then 0 else RefusedInSearch(p, t, n - 1) + |Refused(p, t, n - 1, |p|)|
  }

  // ----- build_prefix_table

  lemma TableGrows(a: seq<int>, a': seq<int>, p: seq<char>, i: int)
    requires TableUpTo(a, p, i) && 0 <= i < |p| && |a| == |a'| == |p| + 1
    requires a'[..i + 1] == a[..i + 1] && Longest(p, p, i + 1, i + 1, a'[i + 1])
    ensures TableUpTo(a', p, i + 1)
  {
    forall k | 0 <= k <= i + 1 ensures Entry(a', p, k) {
      if k <= i {
        assert Entry(a, p, k) && a'[..i + 1][k] == a[..i + 1][k];
      }
    }
  }

  /**
    The inner loop that build_prefix_table and kmp_search share: fall back along the table until the
    next character fits or the table is left.  One fallback is made for every alignment that does
    not survive the next character.
   */
  method FallBack(a: array<int>, p: seq<char>, t: seq<char>, i: int, bound: int, start: int)
    returns (j: int, ghost fallbacks: nat)
    requires 0 <= i < |t| && 0 <= bound <= |p| && bound < a.Length && TableUpTo(a[..], p, bound)
    requires Longest(p, t, i, bound, start)
    ensures Longest(p, t, i + 1, bound + 1, j + 1)
    ensures -1 <= j && fallbacks + j <= start
    ensures fallbacks == |Refused(p, t, i, bound)|
  {
    j, fallbacks := start, 0;
    LongestIsCandidate(p, t, i, bound, j);
    NothingTriedYet(p, t, i, bound, j);
    while j != -1 && t[i] != p[j]
      invariant Candidate(p, t, i, bound, j)
      invariant fallbacks + j <= start
      invariant fallbacks == |Tried(p, t, i, bound, j)|
      decreases j
    {
      assert Entry(a[..], p, j);
      FallbackTriesOne(p, t, i, bound, j, a[j]);
      FallbackKeepsCandidate(p, t, i, bound, j, a[j]);
      j := a[j];
      fallbacks := fallbacks + 1;
    }
    TriedAreRefused(p, t, i, bound, j);
    Advance(p, t, i, bound, j);
  }

  /** One turn of the loop in build_prefix_table. */
  method NextEntry(a: array<int>, p: seq<char>, i: nat, start: int) returns (j: int, ghost fallbacks: nat)
    requires a.Length == |p| + 1 && i < |p| && TableUpTo(a[..], p, i) && start == a[i]
    modifies a
    ensures TableUpTo(a[..], p, i + 1) && j == a[i + 1] >= 0
    ensures fallbacks == |Refused(p, p, i, i)| && fallbacks + j <= start + 1
  {
    assert Entry(a[..], p, i);
    ghost var before := a[..];
    j, fallbacks := FallBack(a, p, p, i, i, start);
    j := j + 1;
    a[i + 1] := j;
    TableGrows(before, a[..], p, i);
  }

  method BuildPrefixTable(a: array<int>, p: seq<char>) returns (ghost fallbacks: nat)
    requires a.Length == |p| + 1
    modifies a
    ensures TableUpTo(a[..], p, |p|)
    ensures fallbacks == RefusedInTable(p, |p|) <= |p|
  {
    var m := |p|;
    var j, i := -1, 0;
    a[i] := j;
    fallbacks := 0;
    while i < m
      invariant 0 <= i <= m && j == a[i]
      invariant TableUpTo(a[..], p, i)
      invariant j >= -1 && fallbacks + j + 1 <= i && fallbacks == RefusedInTable(p, i)
    {
      ghost var falls;
      j, falls := NextEntry(a, p, i, j);
      fallbacks := fallbacks + falls;
      i := i + 1;
    }
  }

  // ----- kmp_search and find

  /** The pattern ends at text position e. */
  ghost predicate EndsAt(p: seq<char>, t: seq<char>, e: int) {
    0 <= e < |t| && Aligned(p, t, e + 1, |p|)
  }

  /** The positions below n where an occurrence ends, in increasing order. */
  ghost function Occurrences(p: seq<char>, t: seq<char>, n: nat): seq<nat>
    requires n <= |t|
  {
    if n == 0 then [] else Occurrences(p, t, n - 1) + (if EndsAt(p, t, n - 1) then [n - 1] else [])
  }

  lemma {:induction false} OccurrencesBelow(p: seq<char>, t: seq<char>, n: nat)
    requires n <= |t|
    ensures forall e :: e in Occurrences(p, t, n) ==> e < n
    ensures forall x, y :: 0 <= x < y < |Occurrences(p, t, n)| ==> Occurrences(p, t, n)[x] < Occurrences(p, t, n)[y]
  {
    if n > 0 {
      OccurrencesBelow(p, t, n - 1);
      var r := Occurrences(p, t, n - 1);
      assert forall x :: 0 <= x < |r| ==> r[x] in r;
    }
  }

  lemma {:induction false} OccursIff(p: seq<char>, t: seq<char>, n: nat, e: nat)
    requires n <= |t|
    ensures e in Occurrences(p, t, n) <==> e < n && EndsAt(p, t, e)
  {
    if n > 0 {
      OccursIff(p, t, n - 1, e);
    }
  }

  /** Each occurrence is listed once, overlaps included, in text order. */
  lemma OccurrencesAreExact(p: seq<char>, t: seq<char>, n: nat)
    requires n <= |t|
    ensures forall e: nat :: e in Occurrences(p, t, n) <==> e < n && EndsAt(p, t, e)
    ensures forall x, y :: 0 <= x < y < |Occurrences(p, t, n)| ==> Occurrences(p, t, n)[x] < Occurrences(p, t, n)[y]
  {
    OccurrencesBelow(p, t, n);
    forall e: nat ensures e in Occurrences(p, t, n) <==> e < n && EndsAt(p, t, e) {
      OccursIff(p, t, n, e);
    }
  }

  /** The state of the search after i characters: what was reported, and the alignment kept in j. */
  ghost predicate Searched(p: seq<char>, t: seq<char>, i: nat, j: int, matches: seq<nat>) {
    && i <= |t| && 0 <= j < |p|
    && Longest(p, t, i, |p|, j)
    && matches == Occurrences(p, t, i)
  }

  /** `matches` holds the index i of every write of "found match". */
  method KmpSearch(a: array<int>, p: seq<char>, t: seq<char>) returns (matches: seq<nat>, ghost fallbacks: nat)
    requires a.Length == |p| + 1 && p != [] && TableUpTo(a[..], p, |p|)
    ensures matches == Occurrences(p, t, |t|)
    ensures fallbacks == RefusedInSearch(p, t, |t|) && fallbacks + |matches| <= |t|
  {
    var m := |p|;
    var i: nat, j: int := 0, 0;
    matches, fallbacks := [], 0;
    while i < |t|
      invariant Searched(p, t, i, j, matches)
      invariant fallbacks + |matches| + j <= i && fallbacks == RefusedInSearch(p, t, i)
    {
      ghost var falls;
      j, falls := FallBack(a, p, t, i, m, j);
      fallbacks := fallbacks + falls;
      j := j + 1;
      assert Entry(a[..], p, m);
      SearchStep(p, t, i, j, matches, a[m]);
      if j == m {
        matches := matches + [i];
        j := a[m];
      }
      i := i + 1;
    }
  }

  lemma SearchStep(p: seq<char>, t: seq<char>, i: nat, j: int, matches: seq<nat>, next: int)
    requires p != [] && i < |t| && matches == Occurrences(p, t, i)
    requires Longest(p, t, i + 1, |p| + 1, j) && j >= 0 && Longest(p, p, |p|, |p|, next)
    ensures if j == |p| then Searched(p, t, i + 1, next, matches + [i]) else Searched(p, t, i + 1, j, matches)
  {
    MatchExactlyAtEnd(p, t, i, j);
    if j == |p| {
      NextAfterMatch(p, t, i + 1, next);
    }
  }

  /** With j the longest alignment up to m, an occurrence ends at i exactly when j is m. */
  lemma MatchExactlyAtEnd(p: seq<char>, t: seq<char>, i: nat, j: int)
    requires i < |t| && Longest(p, t, i + 1, |p| + 1, j)
    ensures Occurrences(p, t, i + 1) == Occurrences(p, t, i) + (if j == |p| then [i] else [])
    ensures j < |p| ==> Longest(p, t, i + 1, |p|, j)
    ensures j == |p| ==> Aligned(p, t, i + 1, |p|)
  {
    assert EndsAt(p, t, i) <==> j == |p|;
  }

  /** After an occurrence the search goes on from the longest proper border of the pattern. */
  lemma NextAfterMatch(p: seq<char>, t: seq<char>, i: int, next: int)
    requires p != [] && Aligned(p, t, i, |p|) && Longest(p, p, |p|, |p|, next)
    ensures Longest(p, t, i, |p|, next) && next >= 0
  {
    assert Aligned(p, p, |p|, 0);
    forall k | next < k < |p| ensures !Aligned(p, t, i, k) {
      ShorterAlignmentIsBorder(p, t, i, |p|, k);
    }
    ShorterAlignmentIsBorder(p, t, i, |p|, next);
  }

  method Find(t: seq<char>, p: seq<char>) returns (matches: seq<nat>)
    requires p != []
    ensures matches == Occurrences(p, t, |t|)
  {
    var m := |p|;
    if m > |t| {
      NoRoom(p, t, |t|);
      return [];
    }
    var prefixTable := new int[m + 1];
    ghost var f := BuildPrefixTable(prefixTable, p);
    ghost var g;
    matches, g := KmpSearch(prefixTable, p, t);
  }

  lemma {:induction false} NoRoom(p: seq<char>, t: seq<char>, n: nat)
    requires n <= |t| < |p|
    ensures Occurrences(p, t, n) == []
  {
    if n > 0 {
      NoRoom(p, t, n - 1);
    }
  }

  // ----- Following the table from an entry

  /** j, a[j], a[a[j]], ... down to but not including -1. */
  ghost function Chain(a: seq<int>, p: seq<char>, j: int): seq<int>
    requires TableUpTo(a, p, |p|) && -1 <= j <= |p|
    decreases j
  {
    if j == -1 then [] else assert Entry(a, p, j); [j] + Chain(a, p, a[j])
  }

  /** The borders of p[..i] shorter than `bound`, longest first. */
  ghost function Borders(p: seq<char>, i: int, bound: int): seq<int>
    decreases bound
  {
    if bound <= 0 then []
    else (if Aligned(p, p, i, bound - 1) then [bound - 1] else []) + Borders(p, i, bound - 1)
  }

  lemma {:induction false} BordersSkip(p: seq<char>, i: int, bound: int, j: int)
    requires Longest(p, p, i, bound, j)
    ensures Borders(p, i, bound) == if j == -1 then [] else [j] + Borders(p, i, j)
    decreases bound
  {
    if j + 1 < bound {
      assert !Aligned(p, p, i, bound - 1);
      BordersSkip(p, i, bound - 1, j);
    }
  }

  lemma {:induction false} SameBorders(p: seq<char>, i: int, j: int, bound: int)
    requires forall k :: 0 <= k < bound ==> (Aligned(p, p, i, k) <==> Aligned(p, p, j, k))
    ensures Borders(p, i, bound) == Borders(p, j, bound)
    decreases bound
  {
    if bound > 0 {
      SameBorders(p, i, j, bound - 1);
    }
  }

  lemma BordersOfBorder(p: seq<char>, i: int, j: int, bound: int)
    requires Aligned(p, p, i, j) && bound <= j
    ensures Borders(p, i, bound) == Borders(p, j, bound)
  {
    forall k | 0 <= k < bound ensures Aligned(p, p, i, k) <==> Aligned(p, p, j, k) {
      ShorterAlignmentIsBorder(p, p, i, j, k);
    }
    SameBorders(p, i, j, bound);
  }

  /** Following the table from A[i] visits exactly the proper borders of p[..i], longest first. */
  lemma {:induction false} ChainVisitsAllBorders(a: seq<int>, p: seq<char>, i: int)
    requires TableUpTo(a, p, |p|) && 0 <= i <= |p|
    ensures Entry(a, p, i) && Chain(a, p, a[i]) == Borders(p, i, i)
    decreases i
  {
    assert Entry(a, p, i);
    BordersSkip(p, i, i, a[i]);
    if a[i] >= 0 {
      ChainVisitsAllBorders(a, p, a[i]);
      BordersOfBorder(p, i, a[i], a[i]);
    }
  }

  // ----- read_str_buf

  /** The result of one read call: up to READ_SIZE bytes (none at end of file), or -1 with EINTR or another error. */
  datatype ReadResult = Bytes(data: seq<char>) | Interrupted | Failed

  /** What the program makes of the reads: every -1 aborts, because r and not errno is compared with EINTR. */
  function FileContents(results: seq<ReadResult>): Option<seq<char>> {
    if results == [] || results[0] == Bytes([]) then Some([])
    else if !results[0].Bytes? then None
    else match FileContents(results[1..])
      case None => None
      case Some(rest) => Some(results[0].data + rest)
  }

  /** What the test for EINTR is there for: an interrupted read is tried again. */
  function IntendedContents(results: seq<ReadResult>): Option<seq<char>> {
    if results == [] || results[0] == Bytes([]) then Some([])
    else if results[0] == Failed then None
    else match IntendedContents(results[1..])
      case None => None
      case Some(rest) => Some((if results[0].Bytes? then results[0].data else []) + rest)
  }

  /** The first read that brings no data is an interrupted one. */
  predicate InterruptedFirst(results: seq<ReadResult>) {
    results != [] && results[0] != Bytes([]) && (results[0] == Interrupted || (results[0].Bytes? && InterruptedFirst(results[1..])))
  }

  /** No read fails, other than by interruption, before end of file. */
  predicate EofBeforeFailure(results: seq<ReadResult>) {
    results == [] || results[0] == Bytes([]) || (results[0] != Failed && EofBeforeFailure(results[1..]))
  }

  lemma {:induction false} IntendedReadsToEof(results: seq<ReadResult>)
    ensures IntendedContents(results).Some? <==> EofBeforeFailure(results)
  {
    if results != [] {
      IntendedReadsToEof(results[1..]);
    }
  }

  lemma SameTail(data: seq<char>, x: seq<char>, y: seq<char>)
    ensures data + x == data + y <==> x == y
  {
    assert (data + x)[|data|..] == x && (data + y)[|data|..] == y;
  }

  /**
    The program reads what was intended unless an interrupted read is the first to bring no data
    and end of file would have been reached: then it gives up on a readable file.
   */
  lemma {:induction false} ReadsAsIntendedIff(results: seq<ReadResult>)
    ensures FileContents(results) == IntendedContents(results)
       <==> !(InterruptedFirst(results) && EofBeforeFailure(results))
  {
    if results != [] && results[0] != Bytes([]) {
      IntendedReadsToEof(results[1..]);
      if results[0].Bytes? {
        ReadsAsIntendedIff(results[1..]);
        var x, y := FileContents(results[1..]), IntendedContents(results[1..]);
        if x.Some? && y.Some? {
          SameTail(results[0].data, x.value, y.value);
        }
      }
    }
  }

  /** An input on which it gives up: one byte, an interruption, end of file. */
  lemma InterruptionLosesTheFile()
    ensures FileContents([Bytes("a"), Interrupted, Bytes([])]) == None
    ensures IntendedContents([Bytes("a"), Interrupted, Bytes([])]) == Some("a")
  {
    var results := [Bytes("a"), Interrupted, Bytes([])];
    assert results[1..] == [Interrupted, Bytes([])] && results[1..][1..] == [Bytes([])];
    assert "a" + ([] + []) == "a";
  }

  /** FileContents when the first part of the file is already in the buffer. */
  function After(done: seq<char>, results: seq<ReadResult>): Option<seq<char>> {
    match FileContents(results)
    case None => None
    case Some(rest) => Some(done + rest)
  }

  lemma AfterSteps(done: seq<char>, results: seq<ReadResult>, i: nat)
    requires i <= |results|
    ensures i == |results| || results[i] == Bytes([]) ==> After(done, results[i..]) == Some(done)
    ensures i < |results| && !results[i].Bytes? ==> After(done, results[i..]) == None
    ensures i < |results| && results[i].Bytes? && results[i] != Bytes([]) ==>
              After(done, results[i..]) == After(done + results[i].data, results[i + 1..])
  {
    assert done + [] == done;
    if i < |results| {
      assert results[i..][1..] == results[i + 1..];
      var rest := FileContents(results[i + 1..]);
      if rest.Some? && results[i].Bytes? {
        assert (done + results[i].data) + rest.value == done + (results[i].data + rest.value);
      }
    }
  }

  lemma NothingReadYet(results: seq<ReadResult>)
    ensures After([], results[0..]) == FileContents(results)
  {
    assert results[0..] == results;
    var all := FileContents(results);
    assert all.Some? ==> [] + all.value == all.value;
  }

  /** Twice the capacity when the next read might not fit. */
  method MakeRoom(text: array<char>, capacity: nat, n: nat, readSize: nat) returns (larger: array<char>, size: nat)
    requires text.Length == capacity + 1 && n <= capacity && readSize <= capacity
    ensures larger == text || fresh(larger)
    ensures larger.Length == size + 1 && n + readSize <= size && larger[..n + 1] == text[..n + 1]
    ensures size == if capacity < n + readSize then 2 * capacity else capacity
  {
    larger, size := text, capacity;
    if capacity < n + readSize {
      size := capacity * 2;
      larger := Realloc(text, size + 1);
    }
  }

  /** The loop of read_str_buf. */
  method ReadAll(results: seq<ReadResult>, readSize: nat) returns (text: array<char>, length: Option<nat>)
    requires readSize > 0 && forall r :: r in results && r.Bytes? ==> |r.data| <= readSize
    ensures length == None <==> FileContents(results) == None
    ensures length.Some? ==> length.value < text.Length && FileContents(results) == Some(text[..length.value])
    ensures length.Some? && length.value > 0 ==> text[length.value] == '\0'
    ensures length.Some? ==> length.value + readSize < text.Length <= 2 * (length.value + readSize)
  {
    var capacity, n, i := readSize, 0, 0;
    text := new char[capacity + 1];
    NothingReadYet(results);
    while i < |results| && results[i] != Bytes([])
      invariant i <= |results| && fresh(text)
      invariant text.Length == capacity + 1 && n + readSize <= capacity < 2 * (n + readSize)
      invariant n > 0 ==> text[n] == '\0'
      invariant After(text[..n], results[i..]) == FileContents(results)
    {
      AfterSteps(text[..n], results, i);
      if !results[i].Bytes? {
        return text, None;
      }
      ReadInto(text, n, readSize, results[i].data);
      n := n + |results[i].data|;
      text[n] := '\0';
      ghost var ended := text[..n + 1];
      assert ended[..n] == text[..n];
      text, capacity := MakeRoom(text, capacity, n, readSize);
      assert text[..n] == text[..n + 1][..n] == ended[..n] && text[n] == ended[n];
      i := i + 1;
    }
    AfterSteps(text[..n], results, i);
    length := Some(n);
  }

  /**
    `openOk` and `closeOk` say whether open and close succeed; a failed read returns without closing.
    The text ends with a NUL unless the file is empty; one more read would fit, and the buffer is not
    more than twice what that takes.
   */
  method ReadStrBuf(openOk: bool, results: seq<ReadResult>, closeOk: bool, readSize: nat)
    returns (text: array<char>, length: Option<nat>)
    requires readSize > 0 && forall r :: r in results && r.Bytes? ==> |r.data| <= readSize
    ensures length == None <==> !openOk || FileContents(results) == None || !closeOk
    ensures length.Some? ==> length.value < text.Length && FileContents(results) == Some(text[..length.value])
    ensures length.Some? && length.value > 0 ==> text[length.value] == '\0'
    ensures length.Some? ==> length.value + readSize < text.Length <= 2 * (length.value + readSize)
  {
    if !openOk {
      text := new char[0];
      return text, None;
    }
    text, length := ReadAll(results, readSize);
    if !closeOk {
      length := None;
    }
  }
}
