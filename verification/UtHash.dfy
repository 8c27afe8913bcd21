/** The hash table of uthash.h: items threaded on bucket chains and on an application-order list, with
    bucket expansion, an optional Bloom filter and recovery from failed allocations. The items' hash
    handles are numbered; `hh_next` and its like are sequences indexed by item. */
module UtHash {
  import opened Arith
  import opened Order
  import opened ListSort
  import opened HashChains

  const INITIAL_LOG2: nat := 5
  const THRESHOLD: nat := 10

  // ----- sums over buckets -----

  ghost function Sum(counts: seq<nat>): nat {
    if |counts| == 0 then 0 else Sum(counts[..|counts| - 1]) + counts[|counts| - 1]
  }

  lemma {:induction false} SumUpdate(counts: seq<nat>, b: nat, c: nat)
    requires b < |counts|
    ensures Sum(counts[b := c]) == Sum(counts) - counts[b] + c
    decreases |counts|
  {
    var n := |counts| - 1;
    if b < n {
      SumUpdate(counts[..n], b, c);
      assert counts[b := c][..n] == counts[..n][b := c];
    } else {
      assert counts[b := c][..n] == counts[..n];
    }
  }

  lemma {:induction false} SumZero(counts: seq<nat>)
    requires forall b :: 0 <= b < |counts| ==> counts[b] == 0
    ensures Sum(counts) == 0
  {
    if |counts| > 0 {
      SumZero(counts[..|counts| - 1]);
    }
  }

  function Excess(count: nat, ideal: nat): nat {
    if count > ideal then count - ideal else 0
  }

  /** The number of items beyond the ideal chain length. */
  ghost function Excesses(counts: seq<nat>, ideal: nat): seq<nat> {
    seq(|counts|, b requires 0 <= b < |counts| => Excess(counts[b], ideal))
  }

  lemma ExcessUpdate(counts: seq<nat>, b: nat, ideal: nat)
    requires b < |counts|
    ensures Sum(Excesses(counts[b := counts[b] + 1], ideal)) ==
            Sum(Excesses(counts, ideal)) + if counts[b] + 1 > ideal then 1 else 0
  {
    var e := Excesses(counts, ideal);
    SumUpdate(e, b, Excess(counts[b] + 1, ideal));
    assert Excesses(counts[b := counts[b] + 1], ideal) == e[b := Excess(counts[b] + 1, ideal)];
  }

  /** expand_mult of a bucket: how many ideal lengths its chain needs, but one for the first item beyond the ideal
      length; with an ideal length of one it lags behind by one. */
  predicate Multiplier(count: nat, m: nat, ideal: nat) {
    if count <= ideal then m == 0
    else if count == ideal + 1 then m == 1
    else if ideal == 1 then m == count - 1
    else m >= 1 && (m - 1) * ideal < count <= m * ideal
  }

  /** What an expansion records about the new buckets. */
  ghost predicate Tallied(counts: seq<nat>, mults: seq<nat>, nonideal: nat, ideal: nat) {
    && nonideal == Sum(Excesses(counts, ideal)) && |mults| == |counts|
    && forall b :: 0 <= b < |counts| ==> Multiplier(counts[b], mults[b], ideal)
  }

  lemma TallyStart(counts: seq<nat>, mults: seq<nat>, ideal: nat)
    requires |mults| == |counts| && forall b :: 0 <= b < |counts| ==> counts[b] == mults[b] == 0
    ensures Tallied(counts, mults, 0, ideal)
  {
    SumZero(Excesses(counts, ideal));
  }

  /** One item more in bucket b. */
  lemma TallyStep(counts: seq<nat>, mults: seq<nat>, nonideal: nat, ideal: nat, b: nat)
    requires Tallied(counts, mults, nonideal, ideal) && b < |counts| && ideal >= 1
    ensures |mults| == |counts|
    ensures var count := counts[b] + 1;
            Tallied(counts[b := count], if count > ideal && count > mults[b] * ideal then mults[b := mults[b] + 1] else mults,
                    if count > ideal then nonideal + 1 else nonideal, ideal)
  {
    hide Sum, Excesses, Multiplier;
    ExcessUpdate(counts, b, ideal);
    MultiplierStep(counts[b], mults[b], ideal);
  }

  lemma MultiplierStep(count: nat, m: nat, ideal: nat)
    requires Multiplier(count, m, ideal) && ideal >= 1
    ensures Multiplier(count + 1, if count + 1 > ideal && count + 1 > m * ideal then m + 1 else m, ideal)
  {
    assert (m + 1) * ideal == m * ideal + ideal;
  }

  // ----- buckets -----

  /** What HASH_FSCK checks of the buckets. */
  ghost predicate Buckets(hhNext: seq<int>, hhPrev: seq<int>, heads: seq<int>, counts: seq<nat>, chains: seq<seq<int>>) {
    && |hhNext| == |hhPrev| && |heads| == |counts| == |chains|
    && forall b :: 0 <= b < |chains| ==> ChainOk(hhNext, hhPrev, chains[b], heads[b], counts[b])
  }

  /** The bucket of an item: hashv & (num_buckets - 1). */
  function BucketOf(hashv: seq<nat>, x: int, n: nat): (b: nat)
    requires n > 0 && 0 <= x < |hashv|
    ensures b < n
  {
    hashv[x] % n
  }

  /** With twice as many buckets an item stays where it is or moves up by the old number of buckets. */
  lemma BucketDoubles(hashv: seq<nat>, x: int, n: nat)
    requires n > 0 && 0 <= x < |hashv|
    ensures BucketOf(hashv, x, 2 * n) == BucketOf(hashv, x, n) || BucketOf(hashv, x, 2 * n) == BucketOf(hashv, x, n) + n
  {
    var h := hashv[x];
    var q, r := h / (2 * n), h % (2 * n);
    if r < n {
      DivUnique(h, n, 2 * q, r);
    } else {
      DivUnique(h, n, 2 * q + 1, r - n);
    }
  }

  /** The items of chain b have hash values that belong there. */
  ghost predicate InBucket(hashv: seq<nat>, chain: seq<int>, b: nat, n: nat)
    requires n > 0
  {
    forall x :: x in chain ==> 0 <= x < |hashv| && BucketOf(hashv, x, n) == b
  }

  /** Every chained item is in the bucket of its hash value. */
  ghost predicate Sorted(hashv: seq<nat>, chains: seq<seq<int>>) {
    forall b :: 0 <= b < |chains| ==> InBucket(hashv, chains[b], b, |chains|)
  }

  /** The chains hold exactly the items of the list. */
  ghost predicate Placed(hashv: seq<nat>, chains: seq<seq<int>>, order: seq<int>) {
    && |chains| > 0 && Sorted(hashv, chains)
    && (forall x :: 0 <= x < |hashv| ==> (x in chains[BucketOf(hashv, x, |chains|)] <==> x in order))
    && (forall x :: x in order ==> 0 <= x < |hashv|)
  }

  /** The links of the chain's nodes are the same. */
  ghost predicate Agree(hn: seq<int>, hp: seq<int>, hn': seq<int>, hp': seq<int>, chain: seq<int>) {
    && |hn'| == |hp'| == |hn| == |hp|
    && forall x :: x in chain && 0 <= x < |hn| ==> hn'[x] == hn[x] && hp'[x] == hp[x]
  }

  /** One bucket's chain is replaced; the links of the others' items have not changed. */
  lemma BucketReplaced(hn: seq<int>, hp: seq<int>, hn': seq<int>, hp': seq<int>, heads: seq<int>, counts: seq<nat>,
                       chains: seq<seq<int>>, b: nat, chain: seq<int>, head: int, count: nat)
    requires Buckets(hn, hp, heads, counts, chains) && b < |chains| && |hn'| == |hp'| == |hn|
    requires ChainOk(hn', hp', chain, head, count)
    requires forall c :: 0 <= c < |chains| && c != b ==> Agree(hn, hp, hn', hp', chains[c])
    ensures Buckets(hn', hp', heads[b := head], counts[b := count], chains[b := chain])
  {
    hide ChainOk;
    var cs, hs, ns := chains[b := chain], heads[b := head], counts[b := count];
    forall c | 0 <= c < |cs|
      ensures ChainOk(hn', hp', cs[c], hs[c], ns[c])
    {
      if c != b {
        assert Agree(hn, hp, hn', hp', chains[c]);
        ChainKept(hn, hp, hn', hp', chains[c], heads[c], counts[c]);
      }
    }
  }

  /** Changing links of one bucket's items leaves the other buckets alone. */
  lemma OthersAgree(hashv: seq<nat>, chains: seq<seq<int>>, b: nat, hn: seq<int>, hp: seq<int>, hn': seq<int>, hp': seq<int>)
    requires Sorted(hashv, chains) && b < |chains| && |hn'| == |hp'| == |hn| == |hp| == |hashv|
    requires forall x :: 0 <= x < |hn| && BucketOf(hashv, x, |chains|) != b ==> hn'[x] == hn[x] && hp'[x] == hp[x]
    ensures forall c :: 0 <= c < |chains| && c != b ==> Agree(hn, hp, hn', hp', chains[c])
  {
    forall c | 0 <= c < |chains| && c != b
      ensures Agree(hn, hp, hn', hp', chains[c])
    {
      assert InBucket(hashv, chains[c], c, |chains|);
    }
  }

  lemma SortedReplaced(hashv: seq<nat>, chains: seq<seq<int>>, b: nat, chain: seq<int>)
    requires Sorted(hashv, chains) && b < |chains| && InBucket(hashv, chain, b, |chains|)
    ensures Sorted(hashv, chains[b := chain])
  {
    var cs := chains[b := chain];
    forall c | 0 <= c < |cs|
      ensures InBucket(hashv, cs[c], c, |cs|)
    {
      assert InBucket(hashv, chains[c], c, |chains|);
    }
  }

  lemma BucketAt(hn: seq<int>, hp: seq<int>, heads: seq<int>, counts: seq<nat>, chains: seq<seq<int>>, b: nat)
    requires Buckets(hn, hp, heads, counts, chains) && b < |chains|
    ensures ChainOk(hn, hp, chains[b], heads[b], counts[b])
    ensures |hn| == |hp| && |heads| == |counts| == |chains|
  {
  }

  /** The links after x has been put in front of a chain, as HASH_ADD_TO_BKT does it. */
  function FrontNext(hn: seq<int>, head: int, x: int): (n: seq<int>)
    requires 0 <= x < |hn|
    ensures |n| == |hn|
  {
    hn[x := head]
  }

  function FrontPrev(hp: seq<int>, head: int, x: int): (p: seq<int>)
    requires 0 <= x < |hp|
    ensures |p| == |hp|
  {
    if 0 <= head < |hp| then hp[x := NULL][head := x] else hp[x := NULL]
  }

  lemma FrontIsInsert(hn: seq<int>, hp: seq<int>, chain: seq<int>, head: int, count: nat, x: int)
    requires ChainOk(hn, hp, chain, head, count) && 0 <= x < |hn| && x !in chain
    ensures ChainOk(FrontNext(hn, head, x), FrontPrev(hp, head, x), [x] + chain, x, count + 1)
  {
    hide ChainOk;
    ChainRange(hn, hp, chain, head, count);
    InsertOk(hn, hp, chain, head, count, 0, x);
    assert Inserted(chain, 0, x) == [x] + chain;
    assert InsertNext(hn, chain, 0, x) == FrontNext(hn, head, x);
    assert InsertPrev(hp, chain, 0, x) == FrontPrev(hp, head, x);
  }

  /** x joins the bucket of its hash value. */
  lemma PushBucket(hn: seq<int>, hp: seq<int>, heads: seq<int>, counts: seq<nat>, chains: seq<seq<int>>, hashv: seq<nat>, x: int)
    requires Buckets(hn, hp, heads, counts, chains) && Sorted(hashv, chains) && |chains| > 0
    requires 0 <= x < |hn| == |hashv| && x !in chains[BucketOf(hashv, x, |chains|)]
    ensures var b := BucketOf(hashv, x, |chains|);
            && b < |heads| == |counts| == |chains| && |hn| == |hp|
            && Buckets(FrontNext(hn, heads[b], x), FrontPrev(hp, heads[b], x), heads[b := x], counts[b := counts[b] + 1],
                       chains[b := [x] + chains[b]])
            && Sorted(hashv, chains[b := [x] + chains[b]])
            && (heads[b] == NULL || (0 <= heads[b] < |hn| && heads[b] in chains[b]))
  {
    hide ChainOk, Buckets;
    var b := BucketOf(hashv, x, |chains|);
    BucketAt(hn, hp, heads, counts, chains, b);
    ChainRange(hn, hp, chains[b], heads[b], counts[b]);
    FrontIsInsert(hn, hp, chains[b], heads[b], counts[b], x);
    assert InBucket(hashv, chains[b], b, |chains|);
    assert heads[b] != NULL ==> heads[b] in chains[b];
    OthersAgree(hashv, chains, b, hn, hp, FrontNext(hn, heads[b], x), FrontPrev(hp, heads[b], x));
    SortedReplaced(hashv, chains, b, [x] + chains[b]);
    BucketReplaced(hn, hp, FrontNext(hn, heads[b], x), FrontPrev(hp, heads[b], x), heads, counts, chains, b,
                   [x] + chains[b], x, counts[b] + 1);
  }

  /** Item k of its chain leaves the bucket. */
  lemma PopBucket(hn: seq<int>, hp: seq<int>, heads: seq<int>, counts: seq<nat>, chains: seq<seq<int>>, hashv: seq<nat>,
                  b: nat, k: nat)
    requires Buckets(hn, hp, heads, counts, chains) && Sorted(hashv, chains) && b < |chains| && k < |chains[b]|
    requires |hn| == |hashv|
    ensures var x := chains[b][k];
            && 0 <= x < |hn| == |hp| && b < |heads| == |counts| == |chains| && counts[b] >= 1
            && Buckets(UnlinkNext(hn, hp, x), UnlinkPrev(hn, hp, x), heads[b := if hp[x] == NULL then hn[x] else heads[b]],
                       counts[b := counts[b] - 1], chains[b := Removed(chains[b], k)])
            && (heads[b] == x <==> hp[x] == NULL)
            && Sorted(hashv, chains[b := Removed(chains[b], k)])
  {
    hide ChainOk, Buckets;
    var chain := chains[b];
    var x := chain[k];
    assert InBucket(hashv, chain, b, |chains|);
    BucketAt(hn, hp, heads, counts, chains, b);
    ChainRange(hn, hp, chain, heads[b], counts[b]);
    ChainLinks(hn, hp, chain, heads[b], counts[b], k);
    UnlinkOk(hn, hp, chain, heads[b], counts[b], k);
    RemovedMembers(chain, k);
    assert hp[x] != NULL ==> hp[x] in chain;
    assert hn[x] != NULL ==> hn[x] in chain;
    OthersAgree(hashv, chains, b, hn, hp, UnlinkNext(hn, hp, x), UnlinkPrev(hn, hp, x));
    SortedReplaced(hashv, chains, b, Removed(chain, k));
    BucketReplaced(hn, hp, UnlinkNext(hn, hp, x), UnlinkPrev(hn, hp, x), heads, counts, chains, b, Removed(chain, k),
                   if hp[x] == NULL then hn[x] else heads[b], counts[b] - 1);
  }

  /** An item that is not in the table is in no chain, so its hash value may change. */
  lemma Rehash(hashv: seq<nat>, chains: seq<seq<int>>, order: seq<int>, x: int, h: nat)
    requires Placed(hashv, chains, order) && 0 <= x < |hashv| && x !in order
    ensures Placed(hashv[x := h], chains, order)
    ensures forall b :: 0 <= b < |chains| ==> x !in chains[b]
  {
    forall b | 0 <= b < |chains|
      ensures x !in chains[b] && InBucket(hashv[x := h], chains[b], b, |chains|)
    {
      assert InBucket(hashv, chains[b], b, |chains|);
    }
  }

  /** The item that has joined both the list and its bucket. */
  lemma PlacedPush(hashv: seq<nat>, chains: seq<seq<int>>, order: seq<int>, order': seq<int>, x: int)
    requires Placed(hashv, chains, order) && 0 <= x < |hashv|
    requires forall y :: y in order' <==> y in order || y == x
    requires var b := BucketOf(hashv, x, |chains|); Sorted(hashv, chains[b := [x] + chains[b]])
    ensures var b := BucketOf(hashv, x, |chains|); Placed(hashv, chains[b := [x] + chains[b]], order')
  {
  }

  /** The item that has left both. */
  lemma PlacedPop(hashv: seq<nat>, chains: seq<seq<int>>, order: seq<int>, order': seq<int>, x: int, chain: seq<int>)
    requires Placed(hashv, chains, order) && x in order
    requires forall y :: y in order' <==> y in order && y != x
    requires forall y :: y in chain <==> y in chains[BucketOf(hashv, x, |chains|)] && y != x
    requires Sorted(hashv, chains[BucketOf(hashv, x, |chains|) := chain])
    ensures Placed(hashv, chains[BucketOf(hashv, x, |chains|) := chain], order')
  {
  }

  // ----- all items of all chains -----

  ghost function Flat(chains: seq<seq<int>>): seq<int> {
    if |chains| == 0 then [] else chains[0] + Flat(chains[1..])
  }

  lemma OnceJoin(a: seq<int>, b: seq<int>)
    requires Once(a) && Once(b) && forall x :: x in a ==> x !in b
    ensures Once(a + b)
  {
    assert multiset(a + b) == multiset(a) + multiset(b);
    forall x | x in a + b
      ensures multiset(a + b)[x] == 1
    {
      assert multiset(a)[x] > 0 <==> x in a;
      assert multiset(b)[x] > 0 <==> x in b;
    }
  }

  lemma SameSize(a: seq<int>, b: seq<int>)
    requires Once(a) && Once(b) && forall x :: x in a <==> x in b
    ensures |a| == |b|
  {
    forall x: int
      ensures multiset(a)[x] == multiset(b)[x]
    {
      assert x in multiset(a) <==> x in a;
      assert x in multiset(b) <==> x in b;
    }
    assert multiset(a) == multiset(b);
    assert |multiset(a)| == |a| && |multiset(b)| == |b|;
  }

  /** The items of the chains from i on: each once, and those whose bucket is i or later. */
  lemma {:induction false} FlatFrom(hn: seq<int>, hp: seq<int>, heads: seq<int>, counts: seq<nat>, chains: seq<seq<int>>,
                                    hashv: seq<nat>, i: nat)
    requires Buckets(hn, hp, heads, counts, chains) && Sorted(hashv, chains) && i <= |chains| && |chains| > 0
    ensures Once(Flat(chains[i..]))
    ensures forall x :: x in Flat(chains[i..]) <==>
              0 <= x < |hashv| && BucketOf(hashv, x, |chains|) >= i && x in chains[BucketOf(hashv, x, |chains|)]
    decreases |chains| - i
  {
    hide ChainOk, Once;
    if i == |chains| {
      NothingOnce();
    } else {
      FlatFrom(hn, hp, heads, counts, chains, hashv, i + 1);
      assert chains[i..][1..] == chains[i + 1..];
      BucketAt(hn, hp, heads, counts, chains, i);
      ChainRange(hn, hp, chains[i], heads[i], counts[i]);
      assert InBucket(hashv, chains[i], i, |chains|);
      OnceJoin(chains[i], Flat(chains[i + 1..]));
    }
  }

  lemma NothingOnce()
    ensures Once([])
  {
  }

  /** The chains together hold exactly the items of the list, each once. */
  lemma FlatIsOrder(hn: seq<int>, hp: seq<int>, heads: seq<int>, counts: seq<nat>, chains: seq<seq<int>>,
                    hashv: seq<nat>, order: seq<int>)
    requires Buckets(hn, hp, heads, counts, chains) && Placed(hashv, chains, order) && Once(order)
    ensures Once(Flat(chains)) && |Flat(chains)| == |order| && forall x :: x in Flat(chains) <==> x in order
  {
    hide ChainOk, Once, Buckets, Flat;
    FlatFrom(hn, hp, heads, counts, chains, hashv, 0);
    assert chains[0..] == chains;
    SameSize(Flat(chains), order);
  }

  lemma {:induction false} SumFront(counts: seq<nat>)
    requires |counts| > 0
    ensures Sum(counts) == counts[0] + Sum(counts[1..])
    decreases |counts|
  {
    if |counts| > 1 {
      var n := |counts| - 1;
      SumFront(counts[..n]);
      assert counts[..n][1..] == counts[1..][..n - 1];
    }
  }

  lemma {:induction false} FlatSize(chains: seq<seq<int>>, counts: seq<nat>)
    requires |counts| == |chains| && forall b :: 0 <= b < |chains| ==> counts[b] == |chains[b]|
    ensures |Flat(chains)| == Sum(counts)
    decreases |chains|
  {
    if |chains| > 0 {
      FlatSize(chains[1..], counts[1..]);
      SumFront(counts);
    }
  }

  // ----- expansion -----

  /** The state of HASH_EXPAND_BUCKETS: the items in `done` are in the new buckets, those in `rest` still have
      their old links. */
  ghost predicate Expanding(hn: seq<int>, hp: seq<int>, hn0: seq<int>, heads: seq<int>, counts: seq<nat>,
                            chains: seq<seq<int>>, hashv: seq<nat>, done: seq<int>, rest: seq<int>) {
    && Buckets(hn, hp, heads, counts, chains) && Placed(hashv, chains, done) && |hn| == |hn0| == |hashv|
    && Once(done + rest) && (forall x :: x in rest ==> 0 <= x < |hn| && hn[x] == hn0[x])
  }

  lemma PlacedSorted(hashv: seq<nat>, chains: seq<seq<int>>, order: seq<int>, x: int)
    requires Placed(hashv, chains, order) && 0 <= x < |hashv|
    ensures |chains| > 0 && Sorted(hashv, chains)
    ensures x in chains[BucketOf(hashv, x, |chains|)] <==> x in order
  {
  }

  /** One item is moved to the front of its new bucket. */
  lemma ExpandStep(hn: seq<int>, hp: seq<int>, hn0: seq<int>, heads: seq<int>, counts: seq<nat>,
                   chains: seq<seq<int>>, hashv: seq<nat>, done: seq<int>, rest: seq<int>)
    requires Expanding(hn, hp, hn0, heads, counts, chains, hashv, done, rest) && rest != []
    ensures var x := rest[0];
            && 0 <= x < |hn| == |hp| == |hashv| && |chains| > 0
            && var b := BucketOf(hashv, x, |chains|);
            && b < |heads| == |counts| == |chains|
            && Expanding(FrontNext(hn, heads[b], x), FrontPrev(hp, heads[b], x), hn0, heads[b := x],
                         counts[b := counts[b] + 1], chains[b := [x] + chains[b]], hashv, done + [x], rest[1..])
            && (heads[b] == NULL || 0 <= heads[b] < |hn|)
  {
    hide Buckets, Sorted, Placed, Once, BucketOf;
    var x := rest[0];
    assert x in rest;
    PlacedSorted(hashv, chains, done, x);
    var b := BucketOf(hashv, x, |chains|);
    assert done + rest == done + [x] + rest[1..];
    OnceParts(done, [x], rest[1..]);
    assert x in [x];
    PushBucket(hn, hp, heads, counts, chains, hashv, x);
    PlacedPush(hashv, chains, done, done + [x], x);
    assert (done + [x]) + rest[1..] == done + rest;
    forall y | y in rest[1..]
      ensures 0 <= y < |hn| && FrontNext(hn, heads[b], x)[y] == hn0[y]
    {
      assert y in rest && y != x;
    }
  }

  lemma ExpandStart(hn: seq<int>, hp: seq<int>, heads: seq<int>, counts: seq<nat>, chains: seq<seq<int>>, hashv: seq<nat>,
                    rest: seq<int>)
    requires |heads| == |counts| == |chains| > 0 && |hn| == |hp| == |hashv| && Once(rest)
    requires forall b :: 0 <= b < |chains| ==> chains[b] == [] && heads[b] == NULL && counts[b] == 0
    requires forall x :: x in rest ==> 0 <= x < |hn|
    ensures Expanding(hn, hp, hn, heads, counts, chains, hashv, [], rest)
  {
    EmptyChain(hn, hp);
    assert [] + rest == rest;
  }

  /** All items have been moved: the new buckets hold the items of the list. */
  lemma ExpandDone(hn: seq<int>, hp: seq<int>, hn0: seq<int>, heads: seq<int>, counts: seq<nat>,
                   chains: seq<seq<int>>, hashv: seq<nat>, done: seq<int>, order: seq<int>)
    requires Expanding(hn, hp, hn0, heads, counts, chains, hashv, done, [])
    requires forall x :: x in done <==> x in order
    ensures Buckets(hn, hp, heads, counts, chains) && Placed(hashv, chains, order)
  {
  }

  // ----- keys -----

  /** Every stored item carries its key's hash value, and no two the same key. */
  ghost predicate KeysOk<K(!new)>(keys: seq<K>, hashv: seq<nat>, order: seq<int>, hash: K -> nat) {
    && |keys| == |hashv|
    && (forall x :: x in order ==> 0 <= x < |keys| && hashv[x] == hash(keys[x]))
    && (forall x, y :: x in order && y in order && 0 <= x < |keys| && 0 <= y < |keys| && keys[x] == keys[y] ==> x == y)
  }

  /** The map from keys to items. */
  ghost function ContentsOf<K(!new)>(keys: seq<K>, hashv: seq<nat>, order: seq<int>, hash: K -> nat): map<K, int>
    requires KeysOk(keys, hashv, order, hash)
  {
    map x | x in order && 0 <= x < |keys| :: keys[x] := x
  }

  lemma KeyStored<K(!new)>(keys: seq<K>, hashv: seq<nat>, order: seq<int>, hash: K -> nat, key: K)
    requires KeysOk(keys, hashv, order, hash)
    ensures key in ContentsOf(keys, hashv, order, hash) <==> exists x :: x in order && 0 <= x < |keys| && keys[x] == key
    ensures forall x :: x in order && 0 <= x < |keys| && keys[x] == key ==>
              key in ContentsOf(keys, hashv, order, hash) && ContentsOf(keys, hashv, order, hash)[key] == x
  {
  }

  /** An item under a new key joins. */
  lemma KeyAdded<K(!new)>(keys: seq<K>, hashv: seq<nat>, order: seq<int>, hash: K -> nat, x: int, key: K, order': seq<int>)
    requires KeysOk(keys, hashv, order, hash) && 0 <= x < |keys| && x !in order && key !in ContentsOf(keys, hashv, order, hash)
    requires forall y :: y in order' <==> y in order || y == x
    ensures KeysOk(keys[x := key], hashv[x := hash(key)], order', hash)
    ensures ContentsOf(keys[x := key], hashv[x := hash(key)], order', hash) == ContentsOf(keys, hashv, order, hash)[key := x]
  {
    KeyStored(keys, hashv, order, hash, key);
    var m, m' := ContentsOf(keys, hashv, order, hash), ContentsOf(keys[x := key], hashv[x := hash(key)], order', hash);
    forall k
      ensures k in m' <==> k in m[key := x]
      ensures k in m' ==> m'[k] == m[key := x][k]
    {
    }
  }

  /** The handle of an item that is not stored does not matter. */
  lemma KeyIgnored<K(!new)>(keys: seq<K>, hashv: seq<nat>, order: seq<int>, hash: K -> nat, x: int, key: K, h: nat)
    requires KeysOk(keys, hashv, order, hash) && 0 <= x < |keys| && x !in order
    ensures KeysOk(keys[x := key], hashv[x := h], order, hash)
    ensures ContentsOf(keys[x := key], hashv[x := h], order, hash) == ContentsOf(keys, hashv, order, hash)
  {
  }

  /** The order of the list does not matter to the map. */
  lemma KeyReordered<K(!new)>(keys: seq<K>, hashv: seq<nat>, order: seq<int>, hash: K -> nat, order': seq<int>)
    requires KeysOk(keys, hashv, order, hash) && forall x :: x in order' <==> x in order
    ensures KeysOk(keys, hashv, order', hash)
    ensures ContentsOf(keys, hashv, order', hash) == ContentsOf(keys, hashv, order, hash)
  {
    forall x | x in order'
      ensures 0 <= x < |keys| && hashv[x] == hash(keys[x])
    {
      assert x in order;
    }
  }

  /** An item leaves with its key. */
  lemma KeyRemoved<K(!new)>(keys: seq<K>, hashv: seq<nat>, order: seq<int>, hash: K -> nat, x: int, order': seq<int>)
    requires KeysOk(keys, hashv, order, hash) && x in order
    requires forall y :: y in order' <==> y in order && y != x
    ensures KeysOk(keys, hashv, order', hash) && 0 <= x < |keys|
    ensures ContentsOf(keys, hashv, order', hash) == ContentsOf(keys, hashv, order, hash) - {keys[x]}
  {
    var m, m' := ContentsOf(keys, hashv, order, hash), ContentsOf(keys, hashv, order', hash);
    forall k
      ensures k in m' <==> k in m - {keys[x]}
    {
    }
  }

  // ----- adding in order -----

  /** Where HASH_ADD_INORDER puts x: before the first item that compares greater. */
  function Place(order: seq<int>, x: int, cmp: (int, int) -> int): (k: nat)
    ensures k <= |order|
    ensures k < |order| ==> cmp(order[k], x) > 0
    ensures forall i :: 0 <= i < k ==> cmp(order[i], x) <= 0
  {
    if order == [] || cmp(order[0], x) > 0 then 0 else 1 + Place(order[1..], x, cmp)
  }

  lemma {:induction false} PlaceIs(order: seq<int>, x: int, cmp: (int, int) -> int, k: nat)
    requires k <= |order| && (k < |order| ==> cmp(order[k], x) > 0)
    requires forall i :: 0 <= i < k ==> cmp(order[i], x) <= 0
    ensures k == Place(order, x, cmp)
  {
    if k > 0 {
      PlaceIs(order[1..], x, cmp, k - 1);
    }
  }

  /** Items always added in order stay sorted. */
  lemma PlaceKeepsSorted(order: seq<int>, x: int, cmp: (int, int) -> int)
    requires Preorder(cmp) && SortedIn(order, 0, |order|, cmp)
    ensures var s := Inserted(order, Place(order, x, cmp), x); SortedIn(s, 0, |s|, cmp)
  {
    hide Preorder;
    var k := Place(order, x, cmp);
    var s := Inserted(order, k, x);
    forall i, j | 0 <= i < j < |s|
      ensures Le(cmp, s[i], s[j])
    {
      var a, b := if i <= k then i else i - 1, if j <= k then j else j - 1;
      if i == k {
        Turn(cmp, order[k], x);
        if b > k {
          Trans(cmp, x, order[k], order[b]);
        }
      } else if j != k {
        assert Le(cmp, order[a], order[b]);
      }
    }
  }
}
