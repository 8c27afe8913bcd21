/** The bottom-up merge sort of uthash.h and utlist.h on sequences: what a pass does, and why the
    result is a stable sorted permutation. */
module MergeSort {
  import opened Arith
  import opened Order

  /** Of equal elements, the one from the first run goes first. */
  function Merge(p: seq<int>, q: seq<int>, cmp: (int, int) -> int): (r: seq<int>)
    ensures |r| == |p| + |q|
    decreases |p| + |q|
  {
    if p == [] then q
    else if q == [] then p
    else if cmp(p[0], q[0]) <= 0 then [p[0]] + Merge(p[1..], q, cmp)
    else [q[0]] + Merge(p, q[1..], cmp)
  }

  /** One pass: neighbouring runs of size n are merged. */
  function Pass(o: seq<int>, n: nat, cmp: (int, int) -> int): (r: seq<int>)
    requires n >= 1
    ensures |r| == |o|
    decreases |o|
  {
    if o == [] then [] else
      var a, b := Min(n, |o|), Min(2 * n, |o|);
      Merge(o[..a], o[a..b], cmp) + Pass(o[b..], n, cmp)
  }

  /** Passes with doubled run size, until a pass has merged at most one pair. */
  function SortFrom(o: seq<int>, n: nat, cmp: (int, int) -> int): (r: seq<int>)
    requires n >= 1
    ensures |r| == |o|
    decreases |o| - n
  {
    if |o| <= 2 * n then Pass(o, n, cmp) else SortFrom(Pass(o, n, cmp), 2 * n, cmp)
  }

  // ----- permutation -----

  lemma HeadElement(s: seq<int>)
    requires s != []
    ensures multiset(s) == multiset{s[0]} + multiset(s[1..])
  {
    assert s == [s[0]] + s[1..];
  }

  lemma ConsElement(x: int, s: seq<int>)
    ensures multiset([x] + s) == multiset{x} + multiset(s)
  {
  }

  lemma {:induction false} MergeElements(p: seq<int>, q: seq<int>, cmp: (int, int) -> int)
    ensures multiset(Merge(p, q, cmp)) == multiset(p) + multiset(q)
    decreases |p| + |q|
  {
    if p == [] || q == [] {
    } else if cmp(p[0], q[0]) <= 0 {
      MergeElements(p[1..], q, cmp);
      HeadElement(p);
      ConsElement(p[0], Merge(p[1..], q, cmp));
    } else {
      MergeElements(p, q[1..], cmp);
      HeadElement(q);
      ConsElement(q[0], Merge(p, q[1..], cmp));
    }
  }

  lemma ThreeParts(o: seq<int>, a: nat, b: nat)
    requires a <= b <= |o|
    ensures multiset(o) == multiset(o[..a]) + multiset(o[a..b]) + multiset(o[b..])
  {
    assert o == o[..a] + o[a..b] + o[b..];
  }

  lemma {:induction false} PassElements(o: seq<int>, n: nat, cmp: (int, int) -> int)
    requires n >= 1
    ensures multiset(Pass(o, n, cmp)) == multiset(o)
    decreases |o|
  {
    hide Merge;
    if o != [] {
      var a, b := Min(n, |o|), Min(2 * n, |o|);
      MergeElements(o[..a], o[a..b], cmp);
      PassElements(o[b..], n, cmp);
      ThreeParts(o, a, b);
    }
  }

  /** Any comparison gives a permutation. */
  lemma {:induction false} SortElements(o: seq<int>, n: nat, cmp: (int, int) -> int)
    requires n >= 1
    ensures multiset(SortFrom(o, n, cmp)) == multiset(o)
    decreases |o| - n
  {
    hide Pass;
    PassElements(o, n, cmp);
    if |o| > 2 * n {
      SortElements(Pass(o, n, cmp), 2 * n, cmp);
    }
  }

  // ----- order -----

  /** x comes before y: smaller, or equal and earlier in the original list. */
  ghost predicate Before(x: int, y: int, cmp: (int, int) -> int, rank: map<int, nat>) {
    x in rank && y in rank && (cmp(x, y) < 0 || (cmp(x, y) == 0 && rank[x] < rank[y]))
  }

  ghost predicate Stable(s: seq<int>, cmp: (int, int) -> int, rank: map<int, nat>) {
    (forall i :: 0 <= i < |s| ==> s[i] in rank) &&
    (forall i, j :: 0 <= i < j < |s| ==> Before(s[i], s[j], cmp, rank))
  }

  /** Everything in s was before everything in t in the original list. */
  ghost predicate Earlier(s: seq<int>, t: seq<int>, rank: map<int, nat>) {
    forall x, y :: x in s && y in t ==> x in rank && y in rank && rank[x] < rank[y]
  }

  lemma BeforeTrans(x: int, y: int, z: int, cmp: (int, int) -> int, rank: map<int, nat>)
    requires Preorder(cmp) && Before(x, y, cmp, rank) && Before(y, z, cmp, rank)
    ensures Before(x, z, cmp, rank)
  {
    Trans(cmp, x, y, z);
    Turn(cmp, x, y);
    Turn(cmp, y, z);
    Turn(cmp, x, z);
    if cmp(x, z) == 0 {
      Trans(cmp, z, x, y);
      Trans(cmp, y, z, x);
    }
  }

  /** The head of a merge is before everything else. */
  lemma HeadFirst(x: int, p: seq<int>, q: seq<int>, cmp: (int, int) -> int, rank: map<int, nat>)
    requires Preorder(cmp) && Stable(p, cmp, rank) && Stable(q, cmp, rank) && p != [] && q != []
    requires Earlier(p, q, rank)
    ensures cmp(p[0], q[0]) <= 0 ==>
              (forall y :: y in p[1..] ==> Before(p[0], y, cmp, rank)) && (forall y :: y in q ==> Before(p[0], y, cmp, rank))
    ensures cmp(p[0], q[0]) > 0 ==>
              (forall y :: y in p ==> Before(q[0], y, cmp, rank)) && (forall y :: y in q[1..] ==> Before(q[0], y, cmp, rank))
  {
    assert p[0] in p && q[0] in q;
    Turn(cmp, p[0], q[0]);
    if cmp(p[0], q[0]) <= 0 {
      forall y | y in q
        ensures Before(p[0], y, cmp, rank)
      {
        if y != q[0] {
          BeforeTrans(p[0], q[0], y, cmp, rank);
        }
      }
    } else {
      forall y | y in p
        ensures Before(q[0], y, cmp, rank)
      {
        if y != p[0] {
          BeforeTrans(q[0], p[0], y, cmp, rank);
        }
      }
    }
  }

  lemma StableTail(s: seq<int>, cmp: (int, int) -> int, rank: map<int, nat>)
    requires Stable(s, cmp, rank) && s != []
    ensures Stable(s[1..], cmp, rank)
  {
  }

  lemma StableCons(x: int, s: seq<int>, cmp: (int, int) -> int, rank: map<int, nat>)
    requires Stable(s, cmp, rank) && x in rank && forall y :: y in s ==> Before(x, y, cmp, rank)
    ensures Stable([x] + s, cmp, rank)
  {
  }

  lemma SameMembers(s: seq<int>, p: seq<int>, q: seq<int>, y: int)
    requires multiset(s) == multiset(p) + multiset(q)
    ensures y in s <==> y in p || y in q
  {
    assert y in multiset(s) <==> y in s;
    assert y in multiset(p) <==> y in p;
    assert y in multiset(q) <==> y in q;
  }

  /** Merging two stable runs, the first from earlier in the list, gives a stable run. */
  lemma {:induction false} MergeStable(p: seq<int>, q: seq<int>, cmp: (int, int) -> int, rank: map<int, nat>)
    requires Preorder(cmp) && Stable(p, cmp, rank) && Stable(q, cmp, rank) && Earlier(p, q, rank)
    ensures Stable(Merge(p, q, cmp), cmp, rank)
    decreases |p| + |q|
  {
    hide Preorder, Stable, Before;
    if p == [] || q == [] {
    } else {
      HeadFirst(p[0], p, q, cmp, rank);
      InRank(p, cmp, rank);
      InRank(q, cmp, rank);
      if cmp(p[0], q[0]) <= 0 {
        var r := Merge(p[1..], q, cmp);
        StableTail(p, cmp, rank);
        MergeStable(p[1..], q, cmp, rank);
        MergeElements(p[1..], q, cmp);
        forall y | y in r
          ensures Before(p[0], y, cmp, rank)
        {
          SameMembers(r, p[1..], q, y);
        }
        StableCons(p[0], r, cmp, rank);
      } else {
        var r := Merge(p, q[1..], cmp);
        StableTail(q, cmp, rank);
        MergeStable(p, q[1..], cmp, rank);
        MergeElements(p, q[1..], cmp);
        forall y | y in r
          ensures Before(q[0], y, cmp, rank)
        {
          SameMembers(r, p, q[1..], y);
        }
        StableCons(q[0], r, cmp, rank);
      }
    }
  }

  lemma InRank(s: seq<int>, cmp: (int, int) -> int, rank: map<int, nat>)
    requires Stable(s, cmp, rank) && s != []
    ensures s[0] in rank
  {
  }

  /** Runs of size n: each stable, each earlier in the list than the following ones. */
  ghost predicate Runs(o: seq<int>, n: nat, cmp: (int, int) -> int, rank: map<int, nat>)
    requires n >= 1
    decreases |o|
  {
    o == [] ||
    var a := Min(n, |o|);
    Stable(o[..a], cmp, rank) && Earlier(o[..a], o[a..], rank) && Runs(o[a..], n, cmp, rank)
  }

  lemma {:induction false} PassRuns(o: seq<int>, n: nat, cmp: (int, int) -> int, rank: map<int, nat>)
    requires n >= 1 && Preorder(cmp) && Runs(o, n, cmp, rank)
    ensures Runs(Pass(o, n, cmp), 2 * n, cmp, rank)
    decreases |o|
  {
    hide Preorder, Stable, Earlier, Merge;
    if o != [] {
      var a, b := Min(n, |o|), Min(2 * n, |o|);
      var p, q, rest := o[..a], o[a..b], o[b..];
      TwoRuns(o, n, cmp, rank);
      EarlierParts(p, q, rest, rank);
      MergeStable(p, q, cmp, rank);
      MergeElements(p, q, cmp);
      PassRuns(rest, n, cmp, rank);
      PassElements(rest, n, cmp);
      var m, r := Merge(p, q, cmp), Pass(rest, n, cmp);
      EarlierMerged(p, q, rest, m, r, rank);
      assert (m + r)[..b] == m && (m + r)[b..] == r;
    }
  }

  /** The first two runs and the rest. */
  lemma TwoRuns(o: seq<int>, n: nat, cmp: (int, int) -> int, rank: map<int, nat>)
    requires n >= 1 && o != [] && Runs(o, n, cmp, rank)
    ensures var a, b := Min(n, |o|), Min(2 * n, |o|);
            && Stable(o[..a], cmp, rank) && Stable(o[a..b], cmp, rank) && Runs(o[b..], n, cmp, rank)
            && Earlier(o[..a], o[a..b] + o[b..], rank) && Earlier(o[a..b], o[b..], rank)
  {
    hide Stable, Earlier;
    var a, b := Min(n, |o|), Min(2 * n, |o|);
    var t := o[a..];
    assert t == o[a..b] + o[b..];
    if t == [] {
      NothingStable(o[a..b], o[b..], cmp, rank);
    } else {
      var c := Min(n, |t|);
      assert t[..c] == o[a..b] && t[c..] == o[b..];
    }
  }

  lemma NothingStable(s: seq<int>, t: seq<int>, cmp: (int, int) -> int, rank: map<int, nat>)
    requires s == []
    ensures Stable(s, cmp, rank) && Earlier(s, t, rank)
  {
  }

  lemma EarlierParts(p: seq<int>, q: seq<int>, rest: seq<int>, rank: map<int, nat>)
    requires Earlier(p, q + rest, rank)
    ensures Earlier(p, q, rank) && Earlier(p, rest, rank)
  {
    assert forall y :: y in q || y in rest ==> y in q + rest;
  }

  lemma EarlierMerged(p: seq<int>, q: seq<int>, rest: seq<int>, m: seq<int>, r: seq<int>, rank: map<int, nat>)
    requires Earlier(p, rest, rank) && Earlier(q, rest, rank)
    requires multiset(m) == multiset(p) + multiset(q) && multiset(r) == multiset(rest)
    ensures Earlier(m, r, rank)
  {
    forall x, y | x in m && y in r
      ensures x in rank && y in rank && rank[x] < rank[y]
    {
      SameMembers(m, p, q, x);
      SameMembers(r, rest, [], y);
    }
  }

  /** The rank of an element: its place in the original list. */
  ghost function RankIn(o: seq<int>): (rank: map<int, nat>)
    ensures forall x :: x in rank <==> x in o
    ensures forall x :: x in rank ==> rank[x] < |o| && o[rank[x]] == x
  {
    map x | x in o :: Place(o, x)
  }

  ghost function Place(o: seq<int>, x: int): (i: nat)
    requires x in o
    ensures i < |o| && o[i] == x
  {
    if o[0] == x then 0 else 1 + Place(o[1..], x)
  }

  ghost predicate Distinct(o: seq<int>) {
    forall i, j :: 0 <= i < j < |o| ==> o[i] != o[j]
  }

  lemma {:induction false} SingleRuns(o: seq<int>, k: nat, cmp: (int, int) -> int)
    requires Distinct(o) && k <= |o|
    ensures Runs(o[k..], 1, cmp, RankIn(o))
    decreases |o| - k
  {
    if k < |o| {
      SingleRuns(o, k + 1, cmp);
      assert o[k..][1..] == o[k + 1..];
      var s, t, rank := o[k..][..1], o[k..][1..], RankIn(o);
      forall x, y | x in s && y in t
        ensures x in rank && y in rank && rank[x] < rank[y]
      {
        var j :| 0 <= j < |t| && t[j] == y;
        assert o[k] == x && o[k + 1 + j] == y;
      }
    }
  }

  lemma {:induction false} SortStable(o: seq<int>, n: nat, cmp: (int, int) -> int, rank: map<int, nat>)
    requires n >= 1 && Preorder(cmp) && Runs(o, n, cmp, rank)
    ensures multiset(SortFrom(o, n, cmp)) == multiset(o)
    ensures Stable(SortFrom(o, n, cmp), cmp, rank)
    decreases |o| - n
  {
    hide Preorder, Stable, Earlier, Merge, Pass;
    PassRuns(o, n, cmp, rank);
    PassElements(o, n, cmp);
    if |o| <= 2 * n {
      var r := Pass(o, n, cmp);
      if r != [] {
        assert r[..|r|] == r;
      } else {
        NothingStable(r, [], cmp, rank);
      }
    } else {
      SortStable(Pass(o, n, cmp), 2 * n, cmp, rank);
    }
  }

  /** The bottom-up merge sort yields the elements of the list in order, equal ones in their old order. */
  lemma SortIsStable(o: seq<int>, cmp: (int, int) -> int)
    requires Distinct(o) && Preorder(cmp)
    ensures multiset(SortFrom(o, 1, cmp)) == multiset(o)
    ensures Stable(SortFrom(o, 1, cmp), cmp, RankIn(o))
    ensures SortedIn(SortFrom(o, 1, cmp), 0, |o|, cmp)
  {
    hide Preorder, Stable, Runs, SortFrom, RankIn, Distinct, SortedIn;
    SingleRuns(o, 0, cmp);
    assert o[0..] == o;
    SortStable(o, 1, cmp, RankIn(o));
    StableIsSorted(SortFrom(o, 1, cmp), cmp, RankIn(o));
  }

  /** Of two elements that compare equal, the one that came first stays first. */
  lemma TiesKeepOrder(o: seq<int>, cmp: (int, int) -> int, k: nat, l: nat, i: nat, j: nat)
    requires Distinct(o) && Preorder(cmp) && k < l < |o| && cmp(o[k], o[l]) == 0
    requires i < |SortFrom(o, 1, cmp)| && j < |SortFrom(o, 1, cmp)|
    requires SortFrom(o, 1, cmp)[i] == o[k] && SortFrom(o, 1, cmp)[j] == o[l]
    ensures i < j
  {
    hide SortFrom;
    SortIsStable(o, cmp);
    var s, rank := SortFrom(o, 1, cmp), RankIn(o);
    assert o[rank[o[k]]] == o[k] && o[rank[o[l]]] == o[l];
    assert j < i ==> Before(s[j], s[i], cmp, rank);
  }

  lemma StableIsSorted(s: seq<int>, cmp: (int, int) -> int, rank: map<int, nat>)
    requires Stable(s, cmp, rank)
    ensures SortedIn(s, 0, |s|, cmp)
  {
  }
}
