/** Doubly linked chains of numbered nodes, as uthash.h threads its items on two of them: the bucket chain
    and the application-order list. */
module HashChains {
  import opened ListSort
  import MergeSort

  /** The node at place i, NULL beyond either end. */
  function NodeAt(chain: seq<int>, i: int): int {
    if 0 <= i < |chain| then chain[i] else NULL
  }

  /** Place i of the chain is linked to its neighbours. */
  ghost predicate LinkedAt(next: seq<int>, prev: seq<int>, chain: seq<int>, i: nat) {
    && i < |chain| && 0 <= chain[i] < |next| == |prev|
    && next[chain[i]] == NodeAt(chain, i + 1) && prev[chain[i]] == NodeAt(chain, i - 1)
  }

  /** The nodes of the chain, linked both ways between NULLs, with the head pointer and the count. */
  ghost predicate ChainOk(next: seq<int>, prev: seq<int>, chain: seq<int>, head: int, count: nat) {
    && |next| == |prev| && Once(chain) && head == First(chain) && count == |chain|
    && (forall i :: 0 <= i < |chain| ==> LinkedAt(next, prev, chain, i))
  }

  lemma EmptyChain(next: seq<int>, prev: seq<int>)
    requires |next| == |prev|
    ensures ChainOk(next, prev, [], NULL, 0)
  {
  }

  /** Changing links of other nodes does not matter. */
  lemma ChainKept(next: seq<int>, prev: seq<int>, next': seq<int>, prev': seq<int>, chain: seq<int>, head: int, count: nat)
    requires ChainOk(next, prev, chain, head, count) && |next'| == |prev'| == |next|
    requires forall x :: x in chain && 0 <= x < |next| ==> next'[x] == next[x] && prev'[x] == prev[x]
    ensures ChainOk(next', prev', chain, head, count)
  {
    forall i | 0 <= i < |chain|
      ensures LinkedAt(next', prev', chain, i)
    {
      assert LinkedAt(next, prev, chain, i) && chain[i] in chain;
    }
  }

  lemma ChainRange(next: seq<int>, prev: seq<int>, chain: seq<int>, head: int, count: nat)
    requires ChainOk(next, prev, chain, head, count)
    ensures |next| == |prev| && head == First(chain) && count == |chain| && Once(chain)
    ensures forall x :: x in chain ==> 0 <= x < |next|
    ensures forall i :: 0 <= i < |chain| ==> 0 <= chain[i] < |next|
    ensures chain == [] <==> head == NULL
  {
    forall i | 0 <= i < |chain|
      ensures 0 <= chain[i] < |next|
    {
      assert LinkedAt(next, prev, chain, i);
    }
  }

  lemma ChainLinks(next: seq<int>, prev: seq<int>, chain: seq<int>, head: int, count: nat, i: nat)
    requires ChainOk(next, prev, chain, head, count) && i < |chain|
    ensures 0 <= chain[i] < |next| == |prev|
    ensures next[chain[i]] == NodeAt(chain, i + 1) && prev[chain[i]] == NodeAt(chain, i - 1)
    ensures i + 1 < |chain| ==> 0 <= chain[i + 1] < |next|
    ensures i > 0 ==> 0 <= chain[i - 1] < |next|
  {
    assert LinkedAt(next, prev, chain, i);
    assert i + 1 < |chain| ==> LinkedAt(next, prev, chain, i + 1);
    assert i > 0 ==> LinkedAt(next, prev, chain, i - 1);
  }

  // ----- adding a node -----

  lemma OnceWith(a: seq<int>, b: seq<int>, x: int)
    requires Once(a + b) && x !in a && x !in b
    ensures Once(a + [x] + b)
  {
    var s := a + [x] + b;
    assert multiset(s) == multiset(a + b) + multiset{x};
    forall y | y in s
      ensures multiset(s)[y] == 1
    {
      if y == x {
        assert y !in a + b;
        assert multiset(a + b)[y] == 0;
      } else {
        assert y in a + b;
      }
    }
  }

  /** The links after x has been put between the first k nodes and the rest. */
  function InsertNext(next: seq<int>, chain: seq<int>, k: nat, x: int): (n: seq<int>)
    requires k <= |chain|
    ensures |n| == |next|
  {
    var n := if 0 <= x < |next| then next[x := if k < |chain| then chain[k] else NULL] else next;
    if k > 0 && 0 <= chain[k - 1] < |n| then n[chain[k - 1] := x] else n
  }

  function InsertPrev(prev: seq<int>, chain: seq<int>, k: nat, x: int): (p: seq<int>)
    requires k <= |chain|
    ensures |p| == |prev|
  {
    var p := if 0 <= x < |prev| then prev[x := if k > 0 then chain[k - 1] else NULL] else prev;
    if k < |chain| && 0 <= chain[k] < |p| then p[chain[k] := x] else p
  }

  function Inserted(chain: seq<int>, k: nat, x: int): seq<int>
    requires k <= |chain|
  {
    chain[..k] + [x] + chain[k..]
  }

  lemma InsertOk(next: seq<int>, prev: seq<int>, chain: seq<int>, head: int, count: nat, k: nat, x: int)
    requires ChainOk(next, prev, chain, head, count) && k <= |chain| && 0 <= x < |next| && x !in chain
    ensures ChainOk(InsertNext(next, chain, k, x), InsertPrev(prev, chain, k, x), Inserted(chain, k, x),
                    if k == 0 then x else head, count + 1)
  {
    hide LinkedAt, InsertNext, InsertPrev;
    var s := Inserted(chain, k, x);
    InsertOnce(chain, k, x);
    OnceDistinct(chain);
    ChainRange(next, prev, chain, head, count);
    forall i | 0 <= i < |s|
      ensures LinkedAt(InsertNext(next, chain, k, x), InsertPrev(prev, chain, k, x), s, i)
    {
      InsertLinked(next, prev, chain, head, count, k, x, i);
    }
  }

  lemma InsertOnce(chain: seq<int>, k: nat, x: int)
    requires Once(chain) && k <= |chain| && x !in chain
    ensures Once(Inserted(chain, k, x))
    ensures forall j :: 0 <= j < |chain| ==> chain[j] != x
    ensures forall y :: y in Inserted(chain, k, x) <==> y in chain || y == x
  {
    assert chain == chain[..k] + chain[k..];
    assert forall y :: y in chain <==> y in chain[..k] || y in chain[k..];
    OnceWith(chain[..k], chain[k..], x);
    assert forall j :: 0 <= j < |chain| ==> chain[j] in chain;
  }

  lemma InsertedAt(chain: seq<int>, k: nat, x: int, i: int)
    requires k <= |chain|
    ensures NodeAt(Inserted(chain, k, x), i) ==
            if i < k then NodeAt(chain, i) else if i == k then x else NodeAt(chain, i - 1)
  {
  }

  lemma InsertNextAt(next: seq<int>, chain: seq<int>, k: nat, x: int, y: int)
    requires k <= |chain| && 0 <= x < |next| && 0 <= y < |next| && (k > 0 ==> 0 <= chain[k - 1] < |next|)
    ensures InsertNext(next, chain, k, x)[y] ==
            if k > 0 && y == chain[k - 1] then x else if y == x then NodeAt(chain, k) else next[y]
  {
  }

  lemma InsertPrevAt(prev: seq<int>, chain: seq<int>, k: nat, x: int, y: int)
    requires k <= |chain| && 0 <= x < |prev| && 0 <= y < |prev| && (k < |chain| ==> 0 <= chain[k] < |prev|)
    ensures InsertPrev(prev, chain, k, x)[y] ==
            if k < |chain| && y == chain[k] then x else if y == x then NodeAt(chain, k - 1) else prev[y]
  {
  }

  lemma InsertLinked(next: seq<int>, prev: seq<int>, chain: seq<int>, head: int, count: nat, k: nat, x: int, i: nat)
    requires ChainOk(next, prev, chain, head, count) && k <= |chain| && 0 <= x < |next| && i <= |chain|
    requires forall j :: 0 <= j < |chain| ==> chain[j] != x
    requires MergeSort.Distinct(chain)
    ensures LinkedAt(InsertNext(next, chain, k, x), InsertPrev(prev, chain, k, x), Inserted(chain, k, x), i)
  {
    hide Once, InsertNext, InsertPrev, Inserted;
    InsertedSize(chain, k, x);
    InsertedAt(chain, k, x, i);
    InsertedAt(chain, k, x, i - 1);
    InsertedAt(chain, k, x, i + 1);
    if i < k {
      ChainLinks(next, prev, chain, head, count, i);
    } else if i > k {
      ChainLinks(next, prev, chain, head, count, i - 1);
    }
    if k < |chain| {
      ChainLinks(next, prev, chain, head, count, k);
    }
    if k > 0 {
      ChainLinks(next, prev, chain, head, count, k - 1);
    }
    var y := if i < k then chain[i] else if i == k then x else chain[i - 1];
    InsertNextAt(next, chain, k, x, y);
    InsertPrevAt(prev, chain, k, x, y);
  }

  lemma InsertedSize(chain: seq<int>, k: nat, x: int)
    requires k <= |chain|
    ensures |Inserted(chain, k, x)| == |chain| + 1
    ensures forall i :: 0 <= i <= |chain| ==> Inserted(chain, k, x)[i] == NodeAt(Inserted(chain, k, x), i)
  {
  }

  // ----- removing a node -----

  /** The links after node x has been taken out, as HASH_DELETE_HH and HASH_DEL_IN_BKT do it. */
  function UnlinkNext(next: seq<int>, prev: seq<int>, x: int): (n: seq<int>)
    requires 0 <= x < |next| == |prev|
    ensures |n| == |next|
  {
    if 0 <= prev[x] < |next| then next[prev[x] := next[x]] else next
  }

  function UnlinkPrev(next: seq<int>, prev: seq<int>, x: int): (p: seq<int>)
    requires 0 <= x < |next| == |prev|
    ensures |p| == |prev|
  {
    if 0 <= next[x] < |prev| then prev[next[x] := prev[x]] else prev
  }

  function Removed(chain: seq<int>, k: nat): seq<int>
    requires k < |chain|
  {
    chain[..k] + chain[k + 1..]
  }

  lemma RemovedMembers(chain: seq<int>, k: nat)
    requires Once(chain) && k < |chain|
    ensures Once(Removed(chain, k))
    ensures forall x :: x in Removed(chain, k) <==> x in chain && x != chain[k]
  {
    var s := Removed(chain, k);
    assert chain == chain[..k] + [chain[k]] + chain[k + 1..];
    OnceParts(chain[..k], [chain[k]], chain[k + 1..]);
    assert multiset(chain) == multiset(s) + multiset{chain[k]};
    assert chain[k] in [chain[k]];
    forall x | x in s
      ensures multiset(s)[x] == 1 && x in chain && x != chain[k]
    {
      assert x in chain[..k] || x in chain[k + 1..];
      assert x in chain && x in multiset(s);
    }
  }

  lemma UnlinkOk(next: seq<int>, prev: seq<int>, chain: seq<int>, head: int, count: nat, k: nat)
    requires ChainOk(next, prev, chain, head, count) && k < |chain|
    ensures var x := chain[k];
            && 0 <= x < |next| == |prev| && count >= 1
            && ChainOk(UnlinkNext(next, prev, x), UnlinkPrev(next, prev, x), Removed(chain, k),
                       if prev[x] == NULL then next[x] else head, count - 1)
            && (head == x <==> prev[x] == NULL)
  {
    hide LinkedAt, UnlinkNext, UnlinkPrev;
    RemovedMembers(chain, k);
    OnceDistinct(chain);
    ChainRange(next, prev, chain, head, count);
    ChainLinks(next, prev, chain, head, count, k);
    var s := Removed(chain, k);
    forall i | 0 <= i < |s|
      ensures LinkedAt(UnlinkNext(next, prev, chain[k]), UnlinkPrev(next, prev, chain[k]), s, i)
    {
      UnlinkLinked(next, prev, chain, head, count, k, i);
    }
  }

  lemma UnlinkLinked(next: seq<int>, prev: seq<int>, chain: seq<int>, head: int, count: nat, k: nat, i: nat)
    requires ChainOk(next, prev, chain, head, count) && k < |chain| && i < |chain| - 1
    requires MergeSort.Distinct(chain) && 0 <= chain[k] < |next| == |prev|
    ensures LinkedAt(UnlinkNext(next, prev, chain[k]), UnlinkPrev(next, prev, chain[k]), Removed(chain, k), i)
  {
    hide Once;
    ChainLinks(next, prev, chain, head, count, k);
    ChainLinks(next, prev, chain, head, count, if i < k then i else i + 1);
  }
}
