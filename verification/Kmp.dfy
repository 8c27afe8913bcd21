/** The substring search of utstring.h: Knuth, Morris and Pratt with the optimised failure table,
    from the left and from the right. */
module Kmp {

  // ----- borders and the failure table -----

  /** The first b characters of n are also the b characters before position k, for b < k. */
  ghost predicate Border(n: string, k: nat, b: nat) {
    b < k <= |n| && forall x :: 0 <= x < b ==> n[x] == n[k - b + x]
  }

  lemma BorderOfBorder(n: string, k: nat, b: nat, c: nat)
    requires Border(n, k, b) && c < b
    ensures Border(n, b, c) <==> Border(n, k, c)
  {
    if Border(n, b, c) {
      forall x | 0 <= x < c
        ensures n[x] == n[k - c + x]
      {
        assert n[b - c + x] == n[k - b + (b - c + x)];
      }
    }
    if Border(n, k, c) {
      forall x | 0 <= x < c
        ensures n[x] == n[b - c + x]
      {
        assert n[b - c + x] == n[k - b + (b - c + x)];
      }
    }
  }

  /** A border of k + 1 characters is a border of k characters that can be extended, or empty. */
  lemma BorderExtends(n: string, k: nat, b: nat)
    requires k < |n| && b < k
    ensures Border(n, k + 1, b + 1) <==> Border(n, k, b) && n[b] == n[k]
  {
    if Border(n, k + 1, b + 1) {
      assert n[b] == n[k + 1 - (b + 1) + b];
      forall x | 0 <= x < b
        ensures n[x] == n[k - b + x]
      {
        assert n[x] == n[k + 1 - (b + 1) + x];
      }
    }
    if Border(n, k, b) && n[b] == n[k] {
      forall x | 0 <= x < b + 1
        ensures n[x] == n[k + 1 - (b + 1) + x]
      {
        if x < b {
          assert n[x] == n[k - b + x];
        }
      }
    }
  }

  lemma EmptyBorder(n: string, k: nat)
    requires 0 < k <= |n|
    ensures Border(n, k, 0)
  {
  }

  /** j is the longest border of the first k characters; -1 for k = 0. */
  ghost predicate Longest(n: string, k: nat, j: int) {
    && (k == 0 ==> j == -1)
    && (k > 0 ==> j >= 0 && Border(n, k, j))
    && (forall b: nat :: j < b ==> !Border(n, k, b))
  }

  /** t is the optimised failure entry of k: the longest border after which a different character
      follows, -1 if there is none; behind the last character, simply the longest border. */
  ghost predicate Failure(n: string, k: nat, t: int) {
    && k <= |n| && -1 <= t < k
    && (t >= 0 ==> Border(n, k, t) && (k < |n| ==> n[t] != n[k]))
    && (forall b: nat :: t < b && Border(n, k, b) ==> k < |n| && n[b] == n[k])
  }

  /** The candidates for extending a border of k characters, down to j. */
  ghost predicate Candidate(n: string, k: nat, j: int) {
    && k < |n| && -1 <= j < k && (j >= 0 ==> Border(n, k, j))
    && (forall b: nat :: j < b && Border(n, k, b) ==> n[b] != n[k])
  }

  lemma CandidateStart(n: string, k: nat, j: int)
    requires k < |n| && Longest(n, k, j)
    ensures Candidate(n, k, j) && -1 <= j < k
  {
  }

  lemma CandidateStep(n: string, k: nat, j: nat, t: int)
    requires Candidate(n, k, j) && n[k] != n[j] && Failure(n, j, t)
    ensures Candidate(n, k, t)
  {
    if t >= 0 {
      BorderOfBorder(n, k, j, t);
    }
    forall b: nat | t < b && Border(n, k, b)
      ensures n[b] != n[k]
    {
      if b < j {
        BorderOfBorder(n, k, j, b);
      }
    }
  }

  /** The candidate at which the search stops gives the longest border one further. */
  lemma CandidateExtends(n: string, k: nat, j: int)
    requires Candidate(n, k, j) && (j >= 0 ==> n[k] == n[j])
    ensures Longest(n, k + 1, j + 1)
  {
    if j >= 0 {
      BorderExtends(n, k, j);
    } else {
      EmptyBorder(n, k + 1);
    }
    var k' := k + 1;
    forall b: nat | j + 1 < b
      ensures !Border(n, k', b)
    {
      if b < k' {
        BorderExtends(n, k, b - 1);
      }
    }
  }

  /** The entry written for k: the longest border, or its own entry if the same character follows. */
  lemma EntryIsFailure(n: string, k: nat, j: nat, t: int)
    requires 0 < k <= |n| && Longest(n, k, j)
    requires k < |n| && n[k] == n[j] ==> Failure(n, j, t)
    ensures Failure(n, k, if k < |n| && n[k] == n[j] then t else j)
  {
    if k < |n| && n[k] == n[j] {
      if t >= 0 {
        BorderOfBorder(n, k, j, t);
      }
      forall b: nat | t < b && Border(n, k, b)
        ensures n[b] == n[k]
      {
        if b < j {
          BorderOfBorder(n, k, j, b);
        }
      }
    }
  }

  /** The first i + 1 entries of a failure table. */
  ghost predicate Failures(n: string, table: seq<int>, i: nat) {
    i < |table| && i <= |n| && forall k :: 0 <= k <= i ==> Failure(n, k, table[k])
  }

  lemma EntryAt(n: string, table: seq<int>, i: nat, k: nat)
    requires Failures(n, table, i) && k <= i
    ensures Failure(n, k, table[k]) && -1 <= table[k] < k
  {
  }

  lemma EntryAdded(n: string, table: seq<int>, table': seq<int>, i: nat, t: int)
    requires Failures(n, table, i) && |table'| == |table| && i + 1 < |table| && Failure(n, i + 1, t)
    requires table' == table[i + 1 := t]
    ensures Failures(n, table', i + 1)
  {
  }

  /** _utstring_BuildTable */
  method BuildTable(n: string, table: array<int>)
    requires |n| > 0 && table.Length == |n| + 1
    modifies table
    ensures Failures(n, table[..], |n|)
  {
    hide Border, Longest, Candidate, Failure, Failures;
    var i: nat, j: int := 0, -1;
    table[0] := -1;
    StartOfTable(n, table[..]);
    while i < |n|
      invariant i <= |n| && -1 <= j && Longest(n, i, j)
      invariant Failures(n, table[..], i)
    {
      CandidateStart(n, i, j);
      while j > -1 && n[i] != n[j]
        invariant -1 <= j < i && Candidate(n, i, j) && Failures(n, table[..], i)
      {
        EntryAt(n, table[..], i, j);
        CandidateStep(n, i, j, table[j]);
        j := table[j];
      }
      CandidateExtends(n, i, j);
      ghost var s := table[..];
      i := i + 1;
      j := j + 1;
      EntryAt(n, s, i - 1, j);
      EntryIsFailure(n, i, j, table[j]);
      if i < |n| {
        if n[i] == n[j] {
          table[i] := table[j];
        } else {
          table[i] := j;
        }
      } else {
        table[i] := j;
      }
      EntryAdded(n, s, table[..], i - 1, table[i]);
    }
  }

  lemma StartOfTable(n: string, table: seq<int>)
    requires |table| > 0 && table[0] == -1
    ensures Failures(n, table, 0) && Longest(n, 0, -1)
  {
  }

  // ----- searching -----

  ghost predicate Occurs(h: string, n: string, q: int) {
    0 <= q && q + |n| <= |h| && forall x :: 0 <= x < |n| ==> n[x] == h[q + x]
  }

  /** The first i characters of the needle stand before position j, and no occurrence starts
      further left. */
  ghost predicate Matched(h: string, n: string, i: int, j: nat) {
    && -1 <= i <= j <= |h| && i <= |n|
    && (forall x :: 0 <= x < i ==> n[x] == h[j - i + x])
    && (forall q :: 0 <= q < j - i ==> !Occurs(h, n, q))
  }

  /** A mismatch: only a border followed by another character can still match. */
  lemma Mismatch(h: string, n: string, i: nat, j: nat, t: int)
    requires Matched(h, n, i, j) && i < |n| && j < |h| && n[i] != h[j] && Failure(n, i, t)
    ensures Matched(h, n, t, j)
  {
    forall x | 0 <= x < t
      ensures n[x] == h[j - t + x]
    {
      assert n[x] == n[i - t + x] == h[j - i + (i - t + x)];
    }
    forall q | 0 <= q < j - t
      ensures !Occurs(h, n, q)
    {
      if j - i <= q && Occurs(h, n, q) {
        OccurrenceOverlaps(h, n, i, j, q);
      }
    }
  }

  /** An occurrence further right overlaps the matched part in a border. */
  lemma OccurrenceOverlaps(h: string, n: string, i: nat, j: nat, q: int)
    requires Matched(h, n, i, j) && i < |n| && j < |h| && j - i <= q <= j && Occurs(h, n, q)
    ensures n[j - q] == h[j] && (j - q < i ==> Border(n, i, j - q))
  {
    var b := j - q;
    assert n[b] == h[q + b];
    if b < i {
      OverlapIsBorder(h, n, i, j, b);
    }
  }

  lemma OverlapIsBorder(h: string, n: string, i: nat, j: nat, b: nat)
    requires i <= j && b < i < |n| && j < |h| && Occurs(h, n, j - b)
    requires forall x :: 0 <= x < i ==> n[x] == h[j - i + x]
    ensures Border(n, i, b)
  {
    forall x | 0 <= x < b
      ensures n[x] == n[i - b + x]
    {
      assert n[i - b + x] == h[j - i + (i - b + x)];
      assert n[x] == h[j - b + x];
    }
  }

  lemma Advance(h: string, n: string, i: int, j: nat)
    requires Matched(h, n, i, j) && i < |n| && j < |h| && (i >= 0 ==> n[i] == h[j])
    ensures Matched(h, n, i + 1, j + 1)
  {
    forall x | 0 <= x < i + 1
      ensures n[x] == h[j + 1 - (i + 1) + x]
    {
      if x < i {
        assert n[x] == h[j - i + x];
      }
    }
  }

  lemma NoRoom(h: string, n: string, i: nat, j: nat)
    requires Matched(h, n, i, j) && ((j == |h| && i < |n|) || |h| - j + i < |n|)
    ensures forall q :: !Occurs(h, n, q)
  {
  }

  /** q is the leftmost occurrence, or -1 and there is none. */
  ghost predicate Leftmost(h: string, n: string, q: int) {
    (q == -1 && forall p :: !Occurs(h, n, p)) || (Occurs(h, n, q) && forall p :: Occurs(h, n, p) ==> q <= p)
  }

  lemma FoundLeftmost(h: string, n: string, j: nat)
    requires Matched(h, n, |n|, j)
    ensures Leftmost(h, n, j - |n|)
  {
  }

  /** _utstring_find. The failure table keeps the number of character comparisons linear. */
  method Find(h: string, n: string, table: array<int>) returns (pos: int, ghost comparisons: nat)
    requires |n| > 0 && table.Length == |n| + 1
    requires Failures(n, table[..], |n|)
    ensures Leftmost(h, n, pos)
    ensures comparisons <= 2 * |h|
  {
    hide Failure, Failures, Matched, Leftmost, Occurs;
    pos, comparisons := -1, 0;
    var i: int, j: nat := 0, 0;
    MatchedStart(h, n);
    while j < |h| && |h| - j + i >= |n|
      invariant 0 <= i < |n| && i <= j <= |h|
      invariant Matched(h, n, i, j) && comparisons <= 2 * j - i
    {
      while i > -1 && n[i] != h[j]
        invariant -1 <= i < |n| && Matched(h, n, i, j) && comparisons <= 2 * j - i
      {
        comparisons := comparisons + 1;
        EntryAt(n, table[..], |n|, i);
        Mismatch(h, n, i, j, table[i]);
        i := table[i];
      }
      comparisons := if i > -1 then comparisons + 1 else comparisons;
      Advance(h, n, i, j);
      MatchedRange(h, n, i + 1, j + 1);
      i := i + 1;
      j := j + 1;
      if i >= |n| {
        FoundLeftmost(h, n, j);
        return j - i, comparisons;
      }
    }
    NoRoom(h, n, i, j);
    NoneLeftmost(h, n);
  }

  lemma MatchedStart(h: string, n: string)
    ensures Matched(h, n, 0, 0)
  {
  }

  lemma MatchedRange(h: string, n: string, i: int, j: nat)
    requires Matched(h, n, i, j)
    ensures -1 <= i <= j <= |h| && i <= |n|
  {
  }

  lemma NoneLeftmost(h: string, n: string)
    requires forall q :: !Occurs(h, n, q)
    ensures Leftmost(h, n, -1)
  {
  }

  // ----- the mirrored search -----

  function Reversed(s: string): (r: string)
    ensures |r| == |s| && forall k :: 0 <= k < |s| ==> r[k] == s[|s| - 1 - k]
  {
    seq(|s|, k requires 0 <= k < |s| => s[|s| - 1 - k])
  }

  /** The mirrored table: entry k, counted from the right, of the reversed needle. */
  ghost function Mirrored(table: seq<int>): (t: seq<int>)
    ensures |t| == |table|
  {
    var m := |table| - 1;
    seq(|table|, k requires 0 <= k <= m => m - 1 - table[m - k])
  }

  lemma MirroredUpdate(table: seq<int>, k: nat, t: int)
    requires 1 <= k < |table|
    ensures Mirrored(table[|table| - 1 - k := t]) == Mirrored(table)[k := |table| - 2 - t]
  {
  }

  lemma MirroredStart(n: string, table: seq<int>)
    requires |table| == |n| + 1 && table[|n|] == |n|
    ensures Failures(Reversed(n), Mirrored(table), 0) && Longest(Reversed(n), 0, -1)
  {
    StartOfTable(Reversed(n), Mirrored(table));
  }

  /** _utstring_BuildTableR; i' and j' are the positions seen from the other end. */
  method BuildTableR(n: string, table: array<int>)
    requires |n| > 0 && table.Length == |n| + 1
    modifies table
    ensures Failures(Reversed(n), Mirrored(table[..]), |n|)
  {
    hide Border, Longest, Candidate, Failure, Failures, Mirrored;
    ghost var r, m := Reversed(n), |n| - 1;
    var i: int, j: int := |n| - 1, |n|;
    table[i + 1] := j;
    MirroredStart(n, table[..]);
    while i >= 0
      invariant -1 <= i <= m && j <= |n| && Longest(r, m - i, m - j)
      invariant Failures(r, Mirrored(table[..]), m - i)
    {
      ghost var s, i' := table[..], m - i;
      CandidateStart(r, i', m - j);
      while j < |n| && n[i] != n[j]
        invariant i < j <= |n| && Candidate(r, i', m - j) && table[..] == s
        decreases |n| - j
      {
        MirroredAt(s, m - j);
        EntryAt(r, Mirrored(s), i', m - j);
        CandidateStep(r, i', m - j, m - table[j + 1]);
        j := table[j + 1];
      }
      CandidateExtends(r, i', m - j);
      i := i - 1;
      j := j - 1;
      MirroredEntry(n, s, i, j);
      if i >= 0 {
        if n[i] == n[j] {
          table[i + 1] := table[j + 1];
        } else {
          table[i + 1] := j;
        }
      } else {
        table[i + 1] := j;
      }
      assert table[..] == s[i + 1 := table[i + 1]];
    }
  }

  /** The entry written for position i. */
  lemma MirroredEntry(n: string, s: seq<int>, i: int, j: int)
    requires |s| == |n| + 1 && -1 <= i < |n| - 1
    requires Failures(Reversed(n), Mirrored(s), |n| - 2 - i) && Longest(Reversed(n), |n| - 1 - i, |n| - 1 - j)
    ensures i < j < |n|
    ensures var t := if i >= 0 && n[i] == n[j] then s[j + 1] else j;
            Failures(Reversed(n), Mirrored(s[i + 1 := t]), |n| - 1 - i)
  {
    hide Border, Failure, Failures, Mirrored;
    var r, k := Reversed(n), |n| - 1 - i;
    LongestRange(r, k, |n| - 1 - j);
    var t := if i >= 0 && n[i] == n[j] then s[j + 1] else j;
    MirroredAt(s, |n| - 1 - j);
    EntryAt(r, Mirrored(s), k - 1, |n| - 1 - j);
    EntryIsFailure(r, k, |n| - 1 - j, |n| - 1 - s[j + 1]);
    MirroredUpdate(s, k, t);
    EntryAdded(r, Mirrored(s), Mirrored(s[i + 1 := t]), k - 1, |n| - 1 - t);
  }

  lemma LongestRange(n: string, k: nat, j: int)
    requires Longest(n, k, j) && k > 0
    ensures 0 <= j < k
  {
  }

  lemma MirroredAt(table: seq<int>, k: nat)
    requires k < |table|
    ensures Mirrored(table)[k] == |table| - 2 - table[|table| - 1 - k]
  {
  }

  /** Occurrences in the mirrored texts. */
  lemma MirroredOccurs(h: string, n: string, q: int)
    ensures Occurs(h, n, q) <==> Occurs(Reversed(h), Reversed(n), |h| - |n| - q)
  {
    var r, m := Reversed(h), Reversed(n);
    if Occurs(h, n, q) {
      forall x | 0 <= x < |n|
        ensures m[x] == r[|h| - |n| - q + x]
      {
        assert n[|n| - 1 - x] == h[q + (|n| - 1 - x)];
      }
    }
    if Occurs(r, m, |h| - |n| - q) {
      forall x | 0 <= x < |n|
        ensures n[x] == h[q + x]
      {
        assert m[|n| - 1 - x] == r[|h| - |n| - q + (|n| - 1 - x)];
      }
    }
  }

  /** q is the rightmost occurrence, or -1 and there is none. */
  ghost predicate Rightmost(h: string, n: string, q: int) {
    (q == -1 && forall p :: !Occurs(h, n, p)) || (Occurs(h, n, q) && forall p :: Occurs(h, n, p) ==> p <= q)
  }

  lemma MirroredFound(h: string, n: string, j: nat)
    requires Matched(Reversed(h), Reversed(n), |n|, j)
    ensures Rightmost(h, n, |h| - j)
  {
    FoundLeftmost(Reversed(h), Reversed(n), j);
    MirroredOccurs(h, n, |h| - j);
    forall p | Occurs(h, n, p)
      ensures p <= |h| - j
    {
      MirroredOccurs(h, n, p);
    }
  }

  lemma MirroredNone(h: string, n: string)
    requires forall q :: !Occurs(Reversed(h), Reversed(n), q)
    ensures Rightmost(h, n, -1)
  {
    forall p
      ensures !Occurs(h, n, p)
    {
      MirroredOccurs(h, n, p);
    }
  }

  /** _utstring_findR, with the same bound. */
  method FindR(h: string, n: string, table: array<int>) returns (pos: int, ghost comparisons: nat)
    requires |n| > 0 && table.Length == |n| + 1
    requires Failures(Reversed(n), Mirrored(table[..]), |n|)
    ensures Rightmost(h, n, pos)
    ensures comparisons <= 2 * |h|
  {
    hide Failure, Failures, Matched, Rightmost, Occurs, Mirrored;
    ghost var r, m, t := Reversed(h), Reversed(n), table[..];
    pos, comparisons := -1, 0;
    var j: int, i: int := |h| - 1, |n| - 1;
    MatchedStart(r, m);
    while j >= 0 && j >= i
      invariant 0 <= i < |n| && -1 <= j < |h|
      invariant Matched(r, m, |n| - 1 - i, |h| - 1 - j)
      invariant comparisons <= 2 * (|h| - 1 - j) - (|n| - 1 - i)
      decreases j
    {
      while i < |n| && n[i] != h[j]
        invariant 0 <= i <= |n| && Matched(r, m, |n| - 1 - i, |h| - 1 - j)
        invariant comparisons <= 2 * (|h| - 1 - j) - (|n| - 1 - i)
        decreases |n| - i
      {
        comparisons := comparisons + 1;
        MirroredAt(t, |n| - 1 - i);
        EntryAt(m, Mirrored(t), |n|, |n| - 1 - i);
        Mismatch(r, m, |n| - 1 - i, |h| - 1 - j, |n| - 1 - table[i + 1]);
        i := table[i + 1];
      }
      comparisons := if i < |n| then comparisons + 1 else comparisons;
      Advance(r, m, |n| - 1 - i, |h| - 1 - j);
      MatchedRange(r, m, |n| - i, |h| - j);
      i := i - 1;
      j := j - 1;
      if i < 0 {
        MirroredFound(h, n, |h| - 1 - j);
        return j + 1, comparisons;
      }
    }
    NoRoom(r, m, |n| - 1 - i, |h| - 1 - j);
    MirroredNone(h, n);
  }

  // ----- the one-time searches -----

  /** Where a search starts; negative positions count from the end. */
  function StartOf(s: string, start: int): int {
    if start < 0 then |s| + start else start
  }

  /** utstring_find looks at the text at all. */
  predicate Searches(s: string, start: int, n: string, hasMemory: bool) {
    |s| - StartOf(s, start) >= |n| > 0 && hasMemory
  }

  predicate SearchesR(s: string, start: int, n: string, hasMemory: bool) {
    StartOf(s, start) + 1 >= |n| > 0 && hasMemory
  }

  /** Searching from -k is searching from the k-th last character. */
  lemma StartFromEnd(s: string, start: int)
    ensures start >= 0 ==> StartOf(s, start) == start
    ensures -|s| <= start < 0 ==> StartOf(s, start) == StartOf(s, |s| + start) == |s| - (-start)
  {
  }

  /** utstring_find: the leftmost occurrence at or after a start position. An empty needle is never found, nor is
      any without memory for the table. A search reads the character at the start position first, so it stays inside
      the text exactly when that position does. */
  method UtstringFind(s: string, start: int, n: string, hasMemory: bool) returns (pos: int)
    requires Searches(s, start, n, hasMemory) ==> StartOf(s, start) >= 0
    ensures n == "" || !hasMemory ==> pos == -1
    ensures pos == -1 || (Occurs(s, n, pos) && pos >= StartOf(s, start))
    ensures n != "" && hasMemory ==> forall p :: StartOf(s, start) <= p && Occurs(s, n, p) ==> 0 <= pos <= p
  {
    hide Failures, Failure;
    var from := if start < 0 then |s| + start else start;
    pos := -1;
    var length := |s| - from;
    if length >= |n| && |n| > 0 && hasMemory {
      var table := new int[|n| + 1];
      BuildTable(n, table);
      ghost var comparisons;
      pos, comparisons := Find(s[from..], n, table);
      forall p | from <= p
        ensures Occurs(s, n, p) <==> Occurs(s[from..], n, p - from)
      {
        OccursSuffix(s, n, from, p);
      }
      if pos >= 0 {
        OccursSuffix(s, n, from, pos + from);
        pos := pos + from;
      }
    }
  }

  lemma OccursSuffix(s: string, n: string, from: nat, p: int)
    requires from <= |s| && from <= p
    ensures Occurs(s, n, p) <==> Occurs(s[from..], n, p - from)
  {
    var h := s[from..];
    if p + |n| <= |s| {
      forall x | 0 <= x < |n|
        ensures n[x] == s[p + x] <==> n[x] == h[p - from + x]
      {
      }
    }
  }

  /** utstring_findR: the rightmost occurrence wholly inside the text up to and including the start
      position. A search reads that position first, too. */
  method UtstringFindR(s: string, start: int, n: string, hasMemory: bool) returns (pos: int)
    requires SearchesR(s, start, n, hasMemory) ==> StartOf(s, start) < |s|
    ensures n == "" || !hasMemory ==> pos == -1
    ensures pos == -1 || (Occurs(s, n, pos) && pos + |n| <= StartOf(s, start) + 1)
    ensures n != "" && hasMemory ==> forall p :: p + |n| <= StartOf(s, start) + 1 && Occurs(s, n, p) ==> p <= pos
  {
    hide Failures, Failure, Mirrored;
    var upTo := if start < 0 then |s| + start else start;
    pos := -1;
    var length := upTo + 1;
    if length >= |n| && |n| > 0 && hasMemory {
      var table := new int[|n| + 1];
      BuildTableR(n, table);
      ghost var comparisons;
      pos, comparisons := FindR(s[..length], n, table);
      forall p
        ensures Occurs(s[..length], n, p) <==> Occurs(s, n, p) && p + |n| <= length
      {
        OccursPrefix(s, n, length, p);
      }
    }
  }

  lemma OccursPrefix(s: string, n: string, length: nat, p: int)
    requires length <= |s|
    ensures Occurs(s[..length], n, p) <==> Occurs(s, n, p) && p + |n| <= length
  {
    var h := s[..length];
    if 0 <= p && p + |n| <= length {
      forall x | 0 <= x < |n|
        ensures n[x] == s[p + x] <==> n[x] == h[p + x]
      {
      }
    }
  }
}
