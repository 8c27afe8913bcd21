/** The same merge sort on links: LL_SORT2, DL_SORT2 and CDL_SORT2 of utlist.h and HASH_SRT of uthash.h.
    Nodes are numbered; their links are the entries of two arrays, NULL is -1. */
module ListSort {
  import opened Arith
  import opened Order
  import opened MergeSort

  const NULL: int := -1

  /** What the four macros do differently: whether prev links are set, whether the list is a ring, and
      whether the first node's prev link points to the last node. */
  datatype Kind = Single | Double | Ring | Hash

  // ----- chains of links -----

  ghost predicate InRange(s: seq<int>, n: nat) {
    forall i :: 0 <= i < |s| ==> 0 <= s[i] < n
  }

  ghost predicate Chain(next: seq<int>, s: seq<int>) {
    InRange(s, |next|) && forall i :: 0 <= i < |s| - 1 ==> next[s[i]] == s[i + 1]
  }

  /** The last node of s, if there is one, links to e. */
  ghost predicate EndsWith(next: seq<int>, s: seq<int>, e: int) {
    InRange(s, |next|) && (s != [] ==> next[s[|s| - 1]] == e)
  }

  ghost predicate BackChain(prev: seq<int>, s: seq<int>) {
    InRange(s, |prev|) && forall i :: 0 < i < |s| ==> prev[s[i]] == s[i - 1]
  }

  ghost predicate Starts(prev: seq<int>, s: seq<int>, e: int) {
    InRange(s, |prev|) && (s != [] ==> prev[s[0]] == e)
  }

  function First(s: seq<int>): int {
    if s == [] then NULL else s[0]
  }

  function Last(s: seq<int>): int {
    if s == [] then NULL else s[|s| - 1]
  }

  /** No node occurs twice. */
  ghost predicate Once(s: seq<int>) {
    forall x :: x in s ==> multiset(s)[x] == 1
  }

  lemma OnceParts(out: seq<int>, p: seq<int>, q: seq<int>)
    requires Once(out + p + q)
    ensures Once(out) && Once(p) && Once(q)
    ensures forall x :: x in p ==> x !in out && x !in q
    ensures forall x :: x in q ==> x !in out
  {
    assert multiset(out + p + q) == multiset(out) + multiset(p) + multiset(q);
    forall x
      ensures x in out || x in p || x in q ==> multiset(out)[x] + multiset(p)[x] + multiset(q)[x] == 1
    {
      assert x in out || x in p || x in q ==> x in out + p + q;
    }
    forall x | x in p
      ensures multiset(p)[x] > 0
    {
    }
    forall x | x in q
      ensures multiset(q)[x] > 0
    {
    }
    forall x | x in out
      ensures multiset(out)[x] > 0
    {
    }
  }

  lemma LastOnce(s: seq<int>, i: nat)
    requires Once(s) && i < |s| - 1
    ensures s[i] != Last(s)
  {
    var n := |s| - 1;
    assert s == s[..n] + [s[n]];
    assert s[..n][i] == s[i];
    assert multiset(s) == multiset(s[..n]) + multiset{s[n]};
    assert s[i] in multiset(s[..n]) && s[i] in s;
  }

  lemma OnceDistinct(s: seq<int>)
    requires Once(s)
    ensures Distinct(s)
  {
    forall i, j | 0 <= i < j < |s|
      ensures s[i] != s[j]
    {
      var t, u := s[..j + 1], s[j + 1..];
      assert s == t + u;
      assert multiset(s) == multiset(t) + multiset(u);
      forall x | x in t
        ensures multiset(t)[x] == 1
      {
        assert x in s && x in multiset(t);
      }
      LastOnce(t, i);
    }
  }

  lemma OnceMoved(s: seq<int>, t: seq<int>)
    requires Once(s) && multiset(s) == multiset(t)
    ensures Once(t)
  {
    forall x | x in t
      ensures multiset(t)[x] == 1
    {
      assert x in multiset(t);
      assert x in multiset(s);
      assert x in s;
    }
  }

  /** The links in the middle of a pass: the nodes in out are linked up; those in p and q are still to
      come, q being followed by `end`. Nodes of p lead to each other, but the last one may lead to a
      node that has been taken meanwhile. */
  ghost predicate Midway(next: seq<int>, prev: seq<int>, out: seq<int>, p: seq<int>, q: seq<int>, end: int, back: bool) {
    && |prev| == |next| && Once(out + p + q) && InRange(out, |next|)
    && Chain(next, out) && Chain(next, p) && Chain(next, q) && EndsWith(next, q, end)
    && (back ==> BackChain(prev, out) && Starts(prev, out, NULL))
  }

  /** Linking e behind the nodes in out. */
  function Linked(next: seq<int>, out: seq<int>, e: int): (n: seq<int>)
    ensures |n| == |next|
  {
    if out != [] && 0 <= Last(out) < |next| then next[Last(out) := e] else next
  }

  lemma LinkKeeps(next: seq<int>, out: seq<int>, e: int, s: seq<int>)
    requires Chain(next, s) && InRange(out, |next|) && forall x :: x in s ==> x !in out
    ensures Chain(Linked(next, out, e), s)
    ensures s != [] ==> Linked(next, out, e)[Last(s)] == next[Last(s)]
  {
    if out != [] {
      assert Last(out) in out;
    }
    assert forall i :: 0 <= i < |s| ==> s[i] in s;
  }

  lemma LinkExtends(next: seq<int>, out: seq<int>, e: int)
    requires Chain(next, out) && 0 <= e < |next| && Once(out)
    ensures Chain(Linked(next, out, e), out + [e])
  {
    var n, s := Linked(next, out, e), out + [e];
    forall i | 0 <= i < |s| - 1
      ensures n[s[i]] == s[i + 1]
    {
      if i < |out| - 1 {
        LastOnce(out, i);
      }
    }
  }

  lemma BackExtends(prev: seq<int>, out: seq<int>, e: int)
    requires BackChain(prev, out) && Starts(prev, out, NULL) && 0 <= e < |prev| && e !in out
    ensures BackChain(prev[e := Last(out)], out + [e]) && Starts(prev[e := Last(out)], out + [e], NULL)
  {
    var s := out + [e];
    assert forall i :: 0 <= i < |out| ==> s[i] in out;
  }

  lemma ChainTail(next: seq<int>, s: seq<int>, e: int)
    requires Chain(next, s) && s != []
    ensures Chain(next, s[1..]) && 0 <= s[0] < |next|
    ensures |s| > 1 ==> next[s[0]] == s[1]
    ensures EndsWith(next, s, e) ==> EndsWith(next, s[1..], e)
  {
  }

  lemma InRangeSnoc(s: seq<int>, e: int, n: nat)
    requires InRange(s, n) && 0 <= e < n
    ensures InRange(s + [e], n)
  {
  }

  /** The front node of p is appended to out. */
  lemma TakeP(next: seq<int>, prev: seq<int>, out: seq<int>, p: seq<int>, q: seq<int>, end: int, back: bool)
    requires Midway(next, prev, out, p, q, end, back) && p != []
    ensures var e := p[0];
            && 0 <= e < |next| == |prev|
            && Midway(Linked(next, out, e), if back then prev[e := Last(out)] else prev, out + [e], p[1..], q, end, back)
  {
    hide Once, BackChain, Starts, Linked, Chain, InRange;
    var e := p[0];
    OnceParts(out, p, q);
    ChainTail(next, p, end);
    LinkExtends(next, out, e);
    LinkKeeps(next, out, e, p);
    LinkKeeps(next, out, e, q);
    ChainTail(Linked(next, out, e), p, end);
    InRangeSnoc(out, e, |next|);
    KeepsEnd(next, Linked(next, out, e), q, end);
    if back {
      assert e in p;
      BackExtends(prev, out, e);
    }
    assert (out + [e]) + p[1..] + q == out + p + q;
  }

  lemma KeepsEnd(next: seq<int>, n: seq<int>, q: seq<int>, end: int)
    requires EndsWith(next, q, end) && |n| == |next| && (q != [] ==> InRange(q, |n|) && n[Last(q)] == next[Last(q)])
    ensures EndsWith(n, q, end)
  {
  }

  /** The front node of q is appended to out. */
  lemma TakeQ(next: seq<int>, prev: seq<int>, out: seq<int>, p: seq<int>, q: seq<int>, end: int, back: bool)
    requires Midway(next, prev, out, p, q, end, back) && q != []
    ensures var e := q[0];
            && 0 <= e < |next| == |prev|
            && Midway(Linked(next, out, e), if back then prev[e := Last(out)] else prev, out + [e], p, q[1..], end, back)
  {
    hide Once, BackChain, Starts, Linked, Chain, InRange;
    var e := q[0];
    OnceParts(out, p, q);
    ChainTail(next, q, end);
    LinkExtends(next, out, e);
    LinkKeeps(next, out, e, p);
    LinkKeeps(next, out, e, q);
    InRangeSnoc(out, e, |next|);
    KeepsEnd(next, Linked(next, out, e), q, end);
    ChainTail(Linked(next, out, e), q, end);
    if back {
      assert e in q;
      BackExtends(prev, out, e);
    }
    MoveFront(out, p, q);
    OnceMoved(out + p + q, (out + [e]) + p + q[1..]);
  }

  lemma MoveFront(out: seq<int>, p: seq<int>, q: seq<int>)
    requires q != []
    ensures multiset((out + [q[0]]) + p + q[1..]) == multiset(out + p + q)
  {
    HeadElement(q);
  }

  /** The front nodes and where they lead. */
  lemma Fronts(next: seq<int>, prev: seq<int>, out: seq<int>, p: seq<int>, q: seq<int>, end: int, back: bool)
    requires Midway(next, prev, out, p, q, end, back)
    ensures |prev| == |next|
    ensures p != [] ==> 0 <= p[0] < |next| && (|p| > 1 ==> next[p[0]] == p[1])
    ensures q != [] ==> 0 <= q[0] < |next| && next[q[0]] == if |q| > 1 then q[1] else end
    ensures out != [] ==> 0 <= Last(out) < |next|
  {
  }

  // ----- one pass -----

  /** The next node, NULL at the end of the list. */
  function Advance(next: seq<int>, x: int, end: int): int
    requires 0 <= x < |next|
  {
    if next[x] == end then NULL else next[x]
  }

  /** Elsewhere the links are as they were. */
  ghost predicate Untouched(a: seq<int>, b: seq<int>, o: seq<int>) {
    |a| == |b| && forall x :: 0 <= x < |a| && x !in o ==> a[x] == b[x]
  }

  /** The loop that finds the second run: at most n steps along the list r. */
  method CountRun(next: array<int>, p: int, n: nat, end: int, ghost r: seq<int>) returns (psize: nat, q: int)
    requires n >= 1 && r != [] && p == r[0] && Chain(next[..], r) && EndsWith(next[..], r, end) && end !in r[1..]
    ensures psize == Min(n, |r|) && q == First(r[psize..])
  {
    hide InRange;
    q, psize := p, 0;
    var i := 0;
    while i < n
      invariant 0 <= i == psize < |r| && psize <= n && q == r[psize]
    {
      psize := psize + 1;
      RunStep(next[..], r, psize - 1, end);
      q := Advance(next[..], q, end);
      i := i + 1;
      if q == NULL {
        break;
      }
    }
  }

  lemma RunStep(next: seq<int>, r: seq<int>, i: nat, end: int)
    requires Chain(next, r) && EndsWith(next, r, end) && i < |r| && end !in r[1..]
    ensures 0 <= r[i] < |next|
    ensures Advance(next, r[i], end) == if i + 1 < |r| then r[i + 1] else NULL
    ensures i + 1 < |r| ==> r[i + 1] != NULL
  {
    if i + 1 < |r| {
      assert r[i + 1] == r[1..][i];
      assert r[i + 1] in r[1..];
    }
  }

  /** What is left to merge, seen from the loop that merges two runs. */
  ghost predicate Merging(out: seq<int>, p: seq<int>, q: seq<int>, qsize: nat, cmp: (int, int) -> int, goal: seq<int>) {
    out + Merge(p, q[..Min(qsize, |q|)], cmp) == goal
  }

  lemma MergeTakesP(out: seq<int>, p: seq<int>, q: seq<int>, qsize: nat, cmp: (int, int) -> int, goal: seq<int>)
    requires Merging(out, p, q, qsize, cmp, goal) && p != [] && (qsize == 0 || q == [] || cmp(p[0], q[0]) <= 0)
    ensures Merging(out + [p[0]], p[1..], q, qsize, cmp, goal)
  {
    var t := q[..Min(qsize, |q|)];
    MergeNothing(p[1..], cmp);
    assert p == [p[0]] + p[1..];
    assert out + ([p[0]] + Merge(p[1..], t, cmp)) == (out + [p[0]]) + Merge(p[1..], t, cmp);
  }

  lemma MergeNothing(p: seq<int>, cmp: (int, int) -> int)
    ensures Merge(p, [], cmp) == p && Merge([], p, cmp) == p
  {
  }

  lemma MergeTakesQ(out: seq<int>, p: seq<int>, q: seq<int>, qsize: nat, cmp: (int, int) -> int, goal: seq<int>)
    requires Merging(out, p, q, qsize, cmp, goal) && q != [] && qsize > 0 && (p == [] || cmp(p[0], q[0]) > 0)
    ensures Merging(out + [q[0]], p, q[1..], qsize - 1, cmp, goal)
  {
    var t := q[..Min(qsize, |q|)];
    MergeNothing(t[1..], cmp);
    assert t[1..] == q[1..][..Min(qsize - 1, |q[1..]|)];
    assert t == [q[0]] + t[1..];
    assert out + ([q[0]] + Merge(p, t[1..], cmp)) == (out + [q[0]]) + Merge(p, t[1..], cmp);
  }

  lemma MergingDone(out: seq<int>, q: seq<int>, qsize: nat, cmp: (int, int) -> int, goal: seq<int>)
    requires Merging(out, [], q, qsize, cmp, goal) && (qsize == 0 || q == [])
    ensures out == goal
  {
    MergeNothing([], cmp);
  }

  /** Appending node e to the output: links it behind the tail. */
  method Append(next: array<int>, prev: array<int>, list0: int, tail: int, e: int, back: bool, ghost out: seq<int>)
    returns (list: int)
    requires next != prev && next.Length == prev.Length && 0 <= e < next.Length
    requires list0 == First(out) && tail == Last(out) && (out != [] ==> 0 <= tail < next.Length)
    modifies next, prev
    ensures next[..] == Linked(old(next[..]), out, e)
    ensures prev[..] == if back then old(prev[..])[e := Last(out)] else old(prev[..])
    ensures list == First(out + [e])
  {
    list := list0;
    if tail != NULL {
      next[tail] := e;
    } else {
      list := e;
    }
    if back {
      prev[e] := tail;
    }
  }

  lemma UntouchedLink(a: seq<int>, b: seq<int>, c: seq<int>, d: seq<int>, o: seq<int>, out: seq<int>, e: int, back: bool)
    requires Untouched(a, b, o) && Untouched(c, d, o) && e in o && 0 <= e < |d| && (out != [] ==> Last(out) in o)
    ensures Untouched(a, Linked(b, out, e), o) && Untouched(c, if back then d[e := Last(out)] else d, o)
  {
  }

  /** Where the merging loop stands. */
  ghost predicate Standing(next: seq<int>, prev: seq<int>, out: seq<int>, p: seq<int>, q: seq<int>, end: int, back: bool,
                           o: seq<int>, next0: seq<int>, prev0: seq<int>) {
    && Midway(next, prev, out, p, q, end, back) && end !in q && (p != [] ==> end !in p[1..])
    && Untouched(next0, next, o) && Untouched(prev0, prev, o)
    && multiset(out + p + q) == multiset(o)
  }

  lemma StandingMembers(out: seq<int>, p: seq<int>, q: seq<int>, o: seq<int>)
    requires multiset(out + p + q) == multiset(o)
    ensures forall x :: x in out || x in p || x in q ==> x in o
  {
    forall x | x in out || x in p || x in q
      ensures x in o
    {
      assert x in out + p + q;
      assert x in multiset(out + p + q);
      assert x in multiset(o);
    }
  }

  lemma StandTakeP(next: seq<int>, prev: seq<int>, out: seq<int>, p: seq<int>, q: seq<int>, end: int, back: bool,
                   o: seq<int>, next0: seq<int>, prev0: seq<int>)
    requires Standing(next, prev, out, p, q, end, back, o, next0, prev0) && p != []
    ensures var e := p[0];
            && 0 <= e < |next| == |prev|
            && Standing(Linked(next, out, e), if back then prev[e := Last(out)] else prev, out + [e], p[1..], q, end, back,
                        o, next0, prev0)
  {
    hide Midway, Linked, Untouched;
    TakeP(next, prev, out, p, q, end, back);
    StandingMembers(out, p, q, o);
    assert p[0] in p && (out != [] ==> Last(out) in out);
    UntouchedLink(next0, next, prev0, prev, o, out, p[0], back);
    assert (out + [p[0]]) + p[1..] + q == out + p + q;
    assert |p| > 1 ==> forall x :: x in p[1..][1..] ==> x in p[1..];
  }

  lemma StandTakeQ(next: seq<int>, prev: seq<int>, out: seq<int>, p: seq<int>, q: seq<int>, end: int, back: bool,
                   o: seq<int>, next0: seq<int>, prev0: seq<int>)
    requires Standing(next, prev, out, p, q, end, back, o, next0, prev0) && q != []
    ensures var e := q[0];
            && 0 <= e < |next| == |prev|
            && Standing(Linked(next, out, e), if back then prev[e := Last(out)] else prev, out + [e], p, q[1..], end, back,
                        o, next0, prev0)
  {
    hide Midway, Linked, Untouched;
    TakeQ(next, prev, out, p, q, end, back);
    StandingMembers(out, p, q, o);
    assert q[0] in q && (out != [] ==> Last(out) in out);
    UntouchedLink(next0, next, prev0, prev, o, out, q[0], back);
    MoveFront(out, p, q);
    assert forall x :: x in q[1..] ==> x in q;
  }

  lemma StandFronts(next: seq<int>, prev: seq<int>, out: seq<int>, p: seq<int>, q: seq<int>, end: int, back: bool,
                    o: seq<int>, next0: seq<int>, prev0: seq<int>)
    requires Standing(next, prev, out, p, q, end, back, o, next0, prev0)
    ensures |prev| == |next| && (out != [] ==> 0 <= Last(out) < |next|)
    ensures p != [] ==> 0 <= p[0] < |next| && (|p| > 1 ==> Advance(next, p[0], end) == p[1])
    ensures q != [] ==> 0 <= q[0] < |next| && Advance(next, q[0], end) == First(q[1..])
  {
    Fronts(next, prev, out, p, q, end, back);
    if |p| > 1 {
      assert p[1..][0] == p[1];
      assert p[1] in p[1..];
    }
    if |q| > 1 {
      assert q[1] in q;
    }
  }

  /** The loop that merges two runs. */
  method MergeRuns(next: array<int>, prev: array<int>, p0: int, q0: int, psize0: nat, insize: nat, list0: int, tail0: int,
                   end: int, back: bool, cmp: (int, int) -> int, ghost out0: seq<int>, ghost P0: seq<int>,
                   ghost Q0: seq<int>, ghost o: seq<int>, ghost next0: seq<int>, ghost prev0: seq<int>)
    returns (list: int, tail: int, q: int, ghost out: seq<int>)
    requires next != prev && psize0 == |P0| && p0 == First(P0) && q0 == First(Q0)
    requires list0 == First(out0) && tail0 == Last(out0)
    requires Standing(next[..], prev[..], out0, P0, Q0, end, back, o, next0, prev0)
    modifies next, prev
    ensures var k := Min(insize, |Q0|);
            && out == out0 + Merge(P0, Q0[..k], cmp) && q == First(Q0[k..])
            && Standing(next[..], prev[..], out, [], Q0[k..], end, back, o, next0, prev0)
    ensures list == First(out) && tail == Last(out)
  {
    hide Standing, Merging, Merge, Advance, Linked;
    ghost var k := Min(insize, |Q0|);
    ghost var P, Q, goal := P0, Q0, out0 + Merge(P0, Q0[..k], cmp);
    list, tail, out, q := list0, tail0, out0, q0;
    var p, psize, qsize := p0, psize0, insize;
    MergingStart(out0, P0, Q0, insize, cmp, goal);
    while psize > 0 || (qsize > 0 && q != NULL)
      invariant psize == |P| && (P != [] ==> p == P[0])
      invariant 0 <= qsize <= insize && insize - qsize <= k && Q == Q0[insize - qsize..] && q == First(Q)
      invariant Merging(out, P, Q, qsize, cmp, goal)
      invariant list == First(out) && tail == Last(out)
      invariant Standing(next[..], prev[..], out, P, Q, end, back, o, next0, prev0)
      decreases psize + qsize
    {
      StandFronts(next[..], prev[..], out, P, Q, end, back, o, next0, prev0);
      var e: int;
      if psize == 0 {
        e := q;
        q := Advance(next[..], q, end);
        qsize := qsize - 1;
      } else if qsize == 0 || q == NULL {
        e := p;
        p := Advance(next[..], p, end);
        psize := psize - 1;
      } else if cmp(p, q) <= 0 {
        e := p;
        p := Advance(next[..], p, end);
        psize := psize - 1;
      } else {
        e := q;
        q := Advance(next[..], q, end);
        qsize := qsize - 1;
      }
      ghost var n, b := next[..], prev[..];
      list := Append(next, prev, list, tail, e, back, out);
      if psize < |P| {
        MergeTakesP(out, P, Q, qsize, cmp, goal);
        StandTakeP(n, b, out, P, Q, end, back, o, next0, prev0);
        P := P[1..];
      } else {
        MergeTakesQ(out, P, Q, qsize + 1, cmp, goal);
        StandTakeQ(n, b, out, P, Q, end, back, o, next0, prev0);
        Q := Q[1..];
      }
      out := out + [e];
      tail := e;
    }
    StandFronts(next[..], prev[..], out, P, Q, end, back, o, next0, prev0);
    MergingDone(out, Q, qsize, cmp, goal);
  }

  lemma MergingStart(out: seq<int>, p: seq<int>, q: seq<int>, n: nat, cmp: (int, int) -> int, goal: seq<int>)
    requires goal == out + Merge(p, q[..Min(n, |q|)], cmp)
    ensures Merging(out, p, q, n, cmp, goal)
  {
  }

  // ----- a pass and the whole sort -----

  lemma PassUnfold(r: seq<int>, n: nat, cmp: (int, int) -> int)
    requires n >= 1 && r != []
    ensures var a, b := Min(n, |r|), Min(2 * n, |r|);
            Pass(r, n, cmp) == Merge(r[..a], r[a..b], cmp) + Pass(r[b..], n, cmp)
  {
  }

  lemma SecondRun(r: seq<int>, n: nat)
    requires n >= 1
    ensures var a, b := Min(n, |r|), Min(2 * n, |r|);
            && Min(n, |r[a..]|) == b - a && r[a..][..b - a] == r[a..b] && r[a..][b - a..] == r[b..]
  {
  }

  lemma PassStep(out: seq<int>, r: seq<int>, n: nat, cmp: (int, int) -> int, goal: seq<int>)
    requires n >= 1 && r != [] && out + Pass(r, n, cmp) == goal
    ensures var a, b := Min(n, |r|), Min(2 * n, |r|);
            (out + Merge(r[..a], r[a..b], cmp)) + Pass(r[b..], n, cmp) == goal
  {
    hide Merge, Pass;
    var a, b := Min(n, |r|), Min(2 * n, |r|);
    PassUnfold(r, n, cmp);
    var x, y := Merge(r[..a], r[a..b], cmp), Pass(r[b..], n, cmp);
    assert out + (x + y) == (out + x) + y;
  }

  lemma ChainSplit(next: seq<int>, r: seq<int>, a: nat, end: int)
    requires Chain(next, r) && EndsWith(next, r, end) && 1 <= a <= |r|
    ensures Chain(next, r[..a]) && Chain(next, r[a..]) && EndsWith(next, r[a..], end)
  {
  }

  lemma NotInParts(r: seq<int>, a: nat, end: int)
    requires r != [] && end !in r[1..] && 1 <= a <= |r|
    ensures end !in r[a..] && end !in r[..a][1..]
  {
    assert r[a..] == r[1..][a - 1..];
    assert r[..a][1..] == r[1..][..a - 1];
  }

  /** Cutting the first run off the remaining list. */
  lemma StandSplit(next: seq<int>, prev: seq<int>, out: seq<int>, r: seq<int>, a: nat, end: int, back: bool,
                   o: seq<int>, next0: seq<int>, prev0: seq<int>)
    requires Remaining(next, prev, out, r, end, back, o, next0, prev0) && 1 <= a <= |r|
    ensures Standing(next, prev, out, r[..a], r[a..], end, back, o, next0, prev0)
    ensures Chain(next, r) && EndsWith(next, r, end) && end !in r[1..]
  {
    hide Chain, EndsWith, InRange, Once, BackChain, Starts, Untouched;
    assert out + r[..a] + r[a..] == out + [] + r;
    ChainSplit(next, r, a, end);
    NotInParts(r, a, end);
  }

  /** Where a pass stands between two pairs of runs. */
  ghost predicate Remaining(next: seq<int>, prev: seq<int>, out: seq<int>, r: seq<int>, end: int, back: bool,
                            o: seq<int>, next0: seq<int>, prev0: seq<int>) {
    && Midway(next, prev, out, [], r, end, back) && (r != [] ==> end !in r[1..])
    && Untouched(next0, next, o) && Untouched(prev0, prev, o)
    && multiset(out + [] + r) == multiset(o)
  }

  lemma StandRemaining(next: seq<int>, prev: seq<int>, out: seq<int>, r: seq<int>, end: int, back: bool,
                       o: seq<int>, next0: seq<int>, prev0: seq<int>)
    requires Standing(next, prev, out, [], r, end, back, o, next0, prev0)
    ensures Remaining(next, prev, out, r, end, back, o, next0, prev0)
  {
    assert r != [] ==> forall x :: x in r[1..] ==> x in r;
  }

  /** The list as the macros keep it: the nodes in order o, linked both ways as the kind asks for. */
  ghost predicate ListIs(next: seq<int>, prev: seq<int>, list: int, o: seq<int>, kind: Kind) {
    && |next| == |prev| && Once(o) && list == First(o) && Chain(next, o)
    && EndsWith(next, o, if kind == Ring then list else NULL)
    && (kind != Single ==> BackChain(prev, o) && Starts(prev, o, if kind == Hash then NULL else Last(o)))
  }

  lemma HeadNotInTail(o: seq<int>)
    requires Once(o) && o != []
    ensures o[0] !in o[1..]
  {
    OnceDistinct(o);
    assert forall i :: 0 <= i < |o| - 1 ==> o[1..][i] == o[i + 1];
  }

  lemma PassBegins(next: seq<int>, prev: seq<int>, list: int, o: seq<int>, kind: Kind, next0: seq<int>, prev0: seq<int>,
                   o0: seq<int>)
    requires ListIs(next, prev, list, o, kind) && o != [] && multiset(o) == multiset(o0)
    requires Untouched(next0, next, o0) && Untouched(prev0, prev, o0)
    ensures Remaining(next, prev, [], o, if kind == Ring then list else NULL, kind != Single, o0, next0, prev0)
    ensures 0 <= list < |next|
  {
    assert [] + [] + o == o;
    var end := if kind == Ring then list else NULL;
    if kind == Ring {
      HeadNotInTail(o);
    }
  }

  /** The last steps of a pass: the end of the list and, in a doubly linked list, the link back from
      the first node to the last. */
  lemma PassEnds(next: seq<int>, prev: seq<int>, out: seq<int>, end: int, kind: Kind, o: seq<int>, next0: seq<int>, prev0: seq<int>)
    requires Remaining(next, prev, out, [], end, kind != Single, o, next0, prev0) && out != []
    ensures |prev| == |next| && 0 <= Last(out) < |next| && 0 <= out[0] < |next|
    ensures multiset(out) == multiset(o)
    ensures var n := next[Last(out) := if kind == Ring then out[0] else NULL];
            var b := if kind == Double || kind == Ring then prev[out[0] := Last(out)] else prev;
            ListIs(n, b, out[0], out, kind) && Untouched(next0, n, o) && Untouched(prev0, b, o)
  {
    assert out + [] + [] == out;
    OnceParts(out, [], []);
    OnceDistinct(out);
    assert out[0] in out && Last(out) in out;
    StandingMembers(out, [], [], o);
  }

  /** One round of a pass: the next two runs are found and merged. */
  method MergePair(next: array<int>, prev: array<int>, p: int, insize: nat, list0: int, tail0: int, end: int, back: bool,
                   cmp: (int, int) -> int, ghost out0: seq<int>, ghost r: seq<int>, ghost o: seq<int>,
                   ghost next0: seq<int>, ghost prev0: seq<int>)
    returns (list: int, tail: int, q: int, ghost out: seq<int>)
    requires next != prev && insize >= 1 && r != [] && p == First(r) && list0 == First(out0) && tail0 == Last(out0)
    requires Remaining(next[..], prev[..], out0, r, end, back, o, next0, prev0)
    modifies next, prev
    ensures var a, b := Min(insize, |r|), Min(2 * insize, |r|);
            && out == out0 + Merge(r[..a], r[a..b], cmp) && q == First(r[b..])
            && Remaining(next[..], prev[..], out, r[b..], end, back, o, next0, prev0)
    ensures list == First(out) && tail == Last(out)
    ensures q != NULL <==> r[Min(2 * insize, |r|)..] != []
  {
    hide Standing, Remaining, Merge, Chain, EndsWith;
    ghost var a, b := Min(insize, |r|), Min(2 * insize, |r|);
    StandSplit(next[..], prev[..], out0, r, a, end, back, o, next0, prev0);
    var psize;
    psize, q := CountRun(next, p, insize, end, r);
    SecondRun(r, insize);
    list, tail, q, out := MergeRuns(next, prev, p, q, psize, insize, list0, tail0, end, back, cmp, out0, r[..a], r[a..],
                                    o, next0, prev0);
    StandRemaining(next[..], prev[..], out, r[b..], end, back, o, next0, prev0);
    RemainingFirst(next[..], prev[..], out, r[b..], end, back, o, next0, prev0);
  }

  /** The links at the two ends of the list, after a pass. */
  method CloseList(next: array<int>, prev: array<int>, list: int, tail: int, end: int, kind: Kind, ghost out: seq<int>,
                   ghost o: seq<int>, ghost next0: seq<int>, ghost prev0: seq<int>)
    requires next != prev && out != [] && list == out[0] && tail == Last(out)
    requires Remaining(next[..], prev[..], out, [], end, kind != Single, o, next0, prev0)
    modifies next, prev
    ensures ListIs(next[..], prev[..], list, out, kind)
    ensures Untouched(next0, next[..], o) && Untouched(prev0, prev[..], o)
  {
    hide Remaining, ListIs, Untouched;
    PassEnds(next[..], prev[..], out, end, kind, o, next0, prev0);
    if kind == Double || kind == Ring {
      prev[list] := tail;
    }
    next[tail] := if kind == Ring then list else NULL;
  }

  /** One pass of the sort over the list o. */
  method SortPass(next: array<int>, prev: array<int>, list0: int, insize: nat, kind: Kind, cmp: (int, int) -> int,
                  ghost o: seq<int>, ghost o0: seq<int>, ghost next0: seq<int>, ghost prev0: seq<int>)
    returns (list: int, tail: int, nmerges: nat)
    requires next != prev && insize >= 1 && o != [] && ListIs(next[..], prev[..], list0, o, kind)
    requires multiset(o) == multiset(o0) && Untouched(next0, next[..], o0) && Untouched(prev0, prev[..], o0)
    modifies next, prev
    ensures ListIs(next[..], prev[..], list, Pass(o, insize, cmp), kind) && tail == Last(Pass(o, insize, cmp))
    ensures Untouched(next0, next[..], o0) && Untouched(prev0, prev[..], o0)
    ensures nmerges <= 1 <==> |o| <= 2 * insize
  {
    hide Remaining, Merge, Pass, ListIs, Untouched;
    var end := if kind == Ring then list0 else NULL;
    var back := kind != Single;
    ghost var out, r := [], o;
    var p := list0;
    list, tail, nmerges := NULL, NULL, 0;
    PassBegins(next[..], prev[..], list0, o, kind, next0, prev0, o0);
    FirstOf(next[..], prev[..], list0, o, kind);
    while p != NULL
      invariant p == First(r) && (p != NULL <==> r != []) && list == First(out) && tail == Last(out)
      invariant Remaining(next[..], prev[..], out, r, end, back, o0, next0, prev0)
      invariant out + Pass(r, insize, cmp) == Pass(o, insize, cmp) && |out| + |r| == |o|
      invariant nmerges == 0 ==> r == o
      invariant nmerges == 1 ==> |out| == Min(2 * insize, |o|)
      invariant nmerges >= 2 ==> |o| > 2 * insize
      decreases |r|
    {
      nmerges := nmerges + 1;
      PassStep(out, r, insize, cmp, Pass(o, insize, cmp));
      list, tail, p, out := MergePair(next, prev, p, insize, list, tail, end, back, cmp, out, r, o0, next0, prev0);
      r := r[Min(2 * insize, |r|)..];
    }
    PassNothing(insize, cmp);
    assert out + [] == out;
    CloseList(next, prev, list, tail, end, kind, out, o0, next0, prev0);
  }

  lemma PassNothing(n: nat, cmp: (int, int) -> int)
    requires n >= 1
    ensures Pass([], n, cmp) == []
  {
  }

  lemma FirstOf(next: seq<int>, prev: seq<int>, list: int, o: seq<int>, kind: Kind)
    requires ListIs(next, prev, list, o, kind)
    ensures list == First(o) && |next| == |prev|
  {
  }

  lemma RemainingFirst(next: seq<int>, prev: seq<int>, out: seq<int>, r: seq<int>, end: int, back: bool,
                       o: seq<int>, next0: seq<int>, prev0: seq<int>)
    requires Remaining(next, prev, out, r, end, back, o, next0, prev0)
    ensures r != [] ==> First(r) != NULL
    ensures |next| == |prev|
  {
  }

  lemma SortStep(o: seq<int>, n: nat, cmp: (int, int) -> int)
    requires n >= 1
    ensures SortFrom(o, n, cmp) == if |o| <= 2 * n then Pass(o, n, cmp) else SortFrom(Pass(o, n, cmp), 2 * n, cmp)
  {
  }

  lemma UntouchedSame(a: seq<int>, o: seq<int>)
    ensures Untouched(a, a, o)
  {
  }

  /** LL_SORT2 (Single), DL_SORT2 (Double), CDL_SORT2 (Ring) and HASH_SRT (Hash): the list is rebuilt in the
      order of the stable merge sort, with all its links; other nodes are not touched. */
  method SortList(next: array<int>, prev: array<int>, list0: int, kind: Kind, cmp: (int, int) -> int, ghost o: seq<int>)
    returns (list: int, tail: int)
    requires next != prev && ListIs(next[..], prev[..], list0, o, kind)
    modifies next, prev
    ensures ListIs(next[..], prev[..], list, SortFrom(o, 1, cmp), kind)
    ensures o != [] ==> tail == Last(SortFrom(o, 1, cmp))
    ensures Untouched(old(next[..]), next[..], o) && Untouched(old(prev[..]), prev[..], o)
  {
    hide ListIs, Untouched, Pass, SortFrom;
    ghost var next0, prev0 := next[..], prev[..];
    list, tail := list0, NULL;
    UntouchedSame(next0, o);
    UntouchedSame(prev0, o);
    FirstOf(next0, prev0, list0, o, kind);
    NodesOf(next0, prev0, list0, o, kind);
    if list != NULL {
      ghost var r := o;
      var insize := 1;
      var looping := true;
      while looping
        invariant insize >= 1 && r != [] && |r| == |o| && multiset(r) == multiset(o)
        invariant ListIs(next[..], prev[..], list, r, kind)
        invariant looping ==> SortFrom(r, insize, cmp) == SortFrom(o, 1, cmp)
        invariant !looping ==> r == SortFrom(o, 1, cmp) && tail == Last(r)
        invariant Untouched(next0, next[..], o) && Untouched(prev0, prev[..], o)
        decreases looping, |r| - insize
      {
        SortStep(r, insize, cmp);
        PassElements(r, insize, cmp);
        var nmerges;
        list, tail, nmerges := SortPass(next, prev, list, insize, kind, cmp, r, o, next0, prev0);
        r := Pass(r, insize, cmp);
        if nmerges <= 1 {
          looping := false;
        }
        insize := insize * 2;
      }
    } else {
      SortNothing(cmp);
    }
  }

  lemma NodesOf(next: seq<int>, prev: seq<int>, list: int, o: seq<int>, kind: Kind)
    requires ListIs(next, prev, list, o, kind)
    ensures list == NULL <==> o == []
  {
  }

  lemma SortNothing(cmp: (int, int) -> int)
    ensures SortFrom([], 1, cmp) == []
  {
  }

  /** What the sort is for: the new order is a stable sorted permutation of the old one. */
  lemma SortedStably(next: seq<int>, prev: seq<int>, list: int, o: seq<int>, kind: Kind, cmp: (int, int) -> int)
    requires Preorder(cmp) && ListIs(next, prev, list, o, kind)
    ensures multiset(SortFrom(o, 1, cmp)) == multiset(o)
    ensures SortedIn(SortFrom(o, 1, cmp), 0, |o|, cmp) && Stable(SortFrom(o, 1, cmp), cmp, RankIn(o))
  {
    hide Preorder, Stable, SortFrom, RankIn, SortedIn;
    OnceDistinct(o);
    SortIsStable(o, cmp);
  }
}
