/** The table itself: adding, adding in order, finding and deleting items, and expanding the buckets. */
module HashTable {
  import opened Arith
  import opened Order
  import opened ListSort
  import MergeSort
  import opened HashChains
  import opened UtHash

  /** The bucket array under construction during an expansion. */
  datatype NewBuckets = NewBuckets(heads: seq<int>, counts: seq<nat>, mults: seq<nat>, nonideal: nat)

  function EmptyNew(size: nat): (nb: NewBuckets)
    ensures |nb.heads| == |nb.counts| == |nb.mults| == size && nb.nonideal == 0
    ensures forall b :: 0 <= b < size ==> nb.heads[b] == NULL && nb.counts[b] == 0 && nb.mults[b] == 0
  {
    NewBuckets(seq(size, b => NULL), seq(size, b => 0), seq(size, b => 0), 0)
  }

  class Table<K(==,!new)> {
    const hash: K -> nat
    const filtered: bool

    // the items' hash handles
    var keys: seq<K>
    var hashv: seq<nat>
    var next: seq<int>
    var prev: seq<int>
    var hhNext: seq<int>
    var hhPrev: seq<int>

    // the list head and the table, which exists while the list is not empty
    var head: int
    var tail: int
    var numItems: nat
    var log2: nat
    var heads: seq<int>
    var counts: seq<nat>
    var mults: seq<nat>
    var ideal: nat
    var nonideal: nat
    var ineff: nat
    var noexpand: bool
    var bloom: seq<bool>

    /** The items in application order, and each bucket's items. */
    ghost var order: seq<int>
    ghost var chains: seq<seq<int>>

    ghost predicate Handles()
      reads `keys, `hashv, `next, `prev, `hhNext, `hhPrev
    {
      |keys| == |hashv| == |next| == |prev| == |hhNext| == |hhPrev|
    }

    /** The application-order list and its tail pointer. */
    ghost predicate ListValid()
      reads `next, `prev, `order, `head, `tail
    {
      ChainOk(next, prev, order, head, |order|) && tail == Last(order)
    }

    ghost predicate Filtered(items: seq<int>)
      reads `bloom, `hashv
    {
      |bloom| > 0 && forall x :: x in items && 0 <= x < |hashv| ==> bloom[hashv[x] % |bloom|]
    }

    /** The table holds the given items. */
    ghost predicate TableHolds(items: seq<int>)
      reads `heads, `mults, `log2, `hhNext, `hhPrev, `counts, `chains, `hashv, `bloom
    {
      && |heads| == |mults| == Pow(2, log2) && Buckets(hhNext, hhPrev, heads, counts, chains)
      && |hhNext| == |hashv| && Placed(hashv, chains, items) && Filtered(items)
    }

    ghost predicate KeysValid()
      reads `keys, `hashv, `order
    {
      KeysOk(keys, hashv, order, hash)
    }

    /** The stored items by key. */
    ghost function Contents(): map<K, int>
      requires KeysValid()
      reads `keys, `hashv, `order
    {
      ContentsOf(keys, hashv, order, hash)
    }

    /** What HASH_FSCK checks, the tail pointer, the place of every item and the Bloom filter. */
    ghost predicate Structure()
      reads this
    {
      Handles() && ListValid() && (head != NULL ==> TableHolds(order) && numItems == |order|)
    }

    ghost predicate Valid()
      reads this
    {
      Structure() && KeysValid()
    }

    constructor (n: nat, hash: K -> nat, filtered: bool, key: K)
      ensures Valid() && order == [] && Contents() == map[] && this.hash == hash && this.filtered == filtered && |keys| == n
    {
      this.hash, this.filtered := hash, filtered;
      keys, hashv := seq(n, i => key), seq(n, i => 0);
      next, prev, hhNext, hhPrev := seq(n, i => NULL), seq(n, i => NULL), seq(n, i => NULL), seq(n, i => NULL);
      head, tail, numItems, log2 := NULL, NULL, 0, 0;
      heads, counts, mults, bloom := [], [], [], [];
      ideal, nonideal, ineff, noexpand := 0, 0, 0, false;
      order, chains := [], [];
    }

    // ----- finding -----

    lemma ItemChain(x: int)
      requires TableHolds(order) && 0 <= x < |hashv|
      ensures |chains| > 0 && (x in chains[BucketOf(hashv, x, |chains|)] <==> x in order)
    {
    }

    /** HASH_FIND_BYHASHVALUE: the item with the key, if there is one; the filter hides none. */
    method Find(key: K, hashval: nat) returns (out: int)
      requires Valid() && hashval == hash(key)
      ensures out == if key in Contents() then Contents()[key] else NULL
      ensures out != NULL ==> out in order && 0 <= out < |keys| && keys[out] == key
    {
      hide ChainOk, Buckets, Placed;
      KeyStored(keys, hashv, order, hash, key);
      out := NULL;
      if head != NULL {
        TableSizes();
        var bkt := hashval % |heads|;
        if !filtered || bloom[hashval % |bloom|] {
          out := FindInBucket(bkt, key, hashval);
          if out != NULL {
            ItemChain(out);
          }
        }
      } else {
        EmptyList();
      }
      if out == NULL {
        forall x | x in order && 0 <= x < |keys|
          ensures keys[x] != key
        {
          ItemChain(x);
        }
      }
    }

    lemma TableSizes()
      requires TableHolds(order)
      ensures |heads| == |counts| == |mults| == |chains| > 0 && |bloom| > 0
    {
    }

    lemma EmptyList()
      requires Valid() && head == NULL
      ensures order == []
    {
      ChainRange(next, prev, order, head, |order|);
    }

    /** HASH_FIND_IN_BKT */
    method FindInBucket(b: nat, key: K, hashval: nat) returns (out: int)
      requires Handles() && Buckets(hhNext, hhPrev, heads, counts, chains) && b < |heads|
      ensures out != NULL ==> b < |chains| && out in chains[b] && 0 <= out < |keys| && hashv[out] == hashval && keys[out] == key
      ensures b < |chains|
      ensures out == NULL ==> forall x :: x in chains[b] && 0 <= x < |keys| ==> !(hashv[x] == hashval && keys[x] == key)
    {
      hide ChainOk;
      BucketAt(hhNext, hhPrev, heads, counts, chains, b);
      ghost var chain, i := chains[b], 0;
      ChainRange(hhNext, hhPrev, chain, heads[b], counts[b]);
      out := heads[b];
      while out != NULL
        invariant 0 <= i <= |chain| && out == NodeAt(chain, i)
        invariant forall j :: 0 <= j < i ==> !(hashv[chain[j]] == hashval && keys[chain[j]] == key)
        decreases |chain| - i
      {
        ChainLinks(hhNext, hhPrev, chain, heads[b], counts[b], i);
        if hashv[out] == hashval && keys[out] == key {
          return;
        }
        out := hhNext[out];
        i := i + 1;
      }
    }

    // ----- the application-order list -----

    /** The key and hash value of an item before it is added. */
    method SetHandle(x: int, key: K, hashval: nat)
      requires Valid() && 0 <= x < |keys| && x !in order
      modifies `keys, `hashv
      ensures Valid() && Contents() == old(Contents())
      ensures keys == old(keys)[x := key] && hashv == old(hashv)[x := hashval]
    {
      hide ChainOk, Buckets, Placed, KeysOk, ContentsOf;
      if head != NULL {
        Rehash(hashv, chains, order, x, hashval);
      }
      KeyIgnored(keys, hashv, order, hash, x, key, hashval);
      keys := keys[x := key];
      hashv := hashv[x := hashval];
    }

    /** HASH_APPEND_LIST */
    method AppendList(x: int)
      requires ListValid() && 0 <= x < |next| && x !in order && head != NULL
      modifies this`next, this`prev, this`tail, this`order
      ensures ListValid() && order == old(order) + [x]
      ensures |next| == old(|next|) && |prev| == old(|prev|)
    {
      hide ChainOk;
      ChainRange(next, prev, order, head, |order|);
      InsertOk(next, prev, order, head, |order|, |order|, x);
      ghost var n, p := InsertNext(next, order, |order|, x), InsertPrev(prev, order, |order|, x);
      next := next[x := NULL];
      prev := prev[x := tail];
      next := next[tail := x];
      tail := x;
      assert next == n && prev == p;
      order := order + [x];
      assert order == Inserted(old(order), |old(order)|, x);
    }

    /** The first item, for which the table has to be made. */
    method FirstItem(x: int)
      requires ListValid() && 0 <= x < |next| && head == NULL
      modifies this`next, this`prev, this`head, this`tail, this`order
      ensures ListValid() && order == [x] && head == x
      ensures |next| == old(|next|) && |prev| == old(|prev|)
    {
      hide ChainOk;
      ChainRange(next, prev, order, head, |order|);
      InsertOk(next, prev, order, head, 0, 0, x);
      ghost var n, p := InsertNext(next, order, 0, x), InsertPrev(prev, order, 0, x);
      next := next[x := NULL];
      prev := prev[x := NULL];
      assert next == n && prev == p;
      head, tail := x, x;
      order := [x];
      assert order == Inserted(old(order), 0, x);
    }

    /** HASH_MAKE_TABLE: 32 empty buckets and an empty filter. */
    method MakeTable(bloomLog2: nat)
      requires Handles()
      modifies this`numItems, this`log2, this`heads, this`counts, this`mults, this`ideal, this`nonideal, this`ineff,
               this`noexpand, this`bloom, this`chains
      ensures TableHolds([]) && log2 == 5 && numItems == ideal == nonideal == ineff == 0 && !noexpand
      ensures |bloom| == Pow(2, bloomLog2) > 0 && forall b :: 0 <= b < |bloom| ==> !bloom[b]
      ensures |heads| == |counts| == |mults| == |chains| == 32
      ensures forall b :: 0 <= b < 32 ==> chains[b] == [] && heads[b] == NULL && counts[b] == 0 && mults[b] == 0
      ensures forall h :: !Full(h)
    {
      hide ChainOk, Buckets, Placed, Pow, Full, Filtered;
      numItems, ideal, nonideal, ineff, noexpand := 0, 0, 0, 0, false;
      TwoToTheFifth();
      MakeBuckets();
      bloom := EmptyFilter(bloomLog2);
      EmptyBuckets(hhNext, hhPrev, heads, counts, chains, hashv);
      NothingFiltered();
      forall h: nat
        ensures !Full(h)
      {
        NothingFull(h);
      }
    }

    lemma NothingFiltered()
      requires |bloom| > 0
      ensures Filtered([])
    {
    }

    lemma NothingFull(h: nat)
      requires forall b :: 0 <= b < |counts| ==> counts[b] == 0
      ensures !Full(h)
    {
    }

    method MakeBuckets()
      modifies this`log2, this`heads, this`counts, this`mults, this`chains
      ensures log2 == INITIAL_LOG2 && |heads| == |mults| == |counts| == |chains| == 32
      ensures forall b :: 0 <= b < 32 ==> chains[b] == [] && heads[b] == NULL && counts[b] == 0 && mults[b] == 0
    {
      var nb := EmptyNew(32);
      log2, heads, counts, mults, chains := INITIAL_LOG2, nb.heads, nb.counts, nb.mults, EmptyChains(32);
    }

    // ----- buckets -----

    /** HASH_ADD_TO_BKT without the expansion. */
    method PushItem(x: int, ghost items: seq<int>)
      requires Handles() && TableHolds(items) && 0 <= x < |hashv| && x !in items
      modifies this`hhNext, this`hhPrev, this`heads, this`counts, this`chains
      ensures Handles() && |heads| == |mults| == Pow(2, log2) && |hhNext| == old(|hhNext|)
      ensures Buckets(hhNext, hhPrev, heads, counts, chains) && Placed(hashv, chains, items + [x])
      ensures old(|chains|) > 0
      ensures var b := BucketOf(hashv, x, old(|chains|));
              && chains == old(chains)[b := [x] + old(chains[b])] && |chains| == |heads| == |counts|
              && b < |heads| && heads[b] == x && hhPrev[x] == NULL && hhNext[x] == old(heads[b])
              && heads == old(heads)[b := x] && counts == old(counts)[b := old(counts[b]) + 1]
    {
      hide ChainOk, Buckets, Placed;
      TableSizes2(items);
      PlacedSorted(hashv, chains, items, x);
      PushBucket(hhNext, hhPrev, heads, counts, chains, hashv, x);
      var bkt := hashv[x] % |heads|;
      PlacedPush(hashv, chains, items, items + [x], x);
      ghost var n, p := FrontNext(hhNext, heads[bkt], x), FrontPrev(hhPrev, heads[bkt], x);
      counts := counts[bkt := counts[bkt] + 1];
      hhNext := hhNext[x := heads[bkt]];
      hhPrev := hhPrev[x := NULL];
      if heads[bkt] != NULL {
        hhPrev := hhPrev[heads[bkt] := x];
      }
      assert hhNext == n && hhPrev == p;
      chains := chains[bkt := [x] + chains[bkt]];
      heads := heads[bkt := x];
    }

    /** The body of the inner loop of HASH_EXPAND_BUCKETS: one item goes to the front of its new bucket. */
    method MoveItem(thh: int, nb0: NewBuckets, ghost done: seq<int>, ghost rest: seq<int>, ghost hn0: seq<int>,
                    ghost chains0: seq<seq<int>>)
      returns (nb: NewBuckets, nxt: int, ghost newChains: seq<seq<int>>)
      requires Handles() && rest != [] && thh == rest[0] && |nb0.mults| == |nb0.heads|
      requires Expanding(hhNext, hhPrev, hn0, nb0.heads, nb0.counts, chains0, hashv, done, rest)
      requires Tallied(nb0.counts, nb0.mults, nb0.nonideal, ideal) && ideal >= 1
      modifies this`hhNext, this`hhPrev
      ensures Handles() && |nb.mults| == |nb.heads| == |nb0.heads|
      ensures 0 <= thh < |hn0| && nxt == hn0[thh]
      ensures Expanding(hhNext, hhPrev, hn0, nb.heads, nb.counts, newChains, hashv, done + [thh], rest[1..])
      ensures Tallied(nb.counts, nb.mults, nb.nonideal, ideal)
    {
      hide ChainOk, Expanding, Tallied;
      ExpandStep(hhNext, hhPrev, hn0, nb0.heads, nb0.counts, chains0, hashv, done, rest);
      OldLink(hhNext, hhPrev, hn0, nb0.heads, nb0.counts, chains0, hashv, done, rest);
      nxt := hhNext[thh];
      var bkt := hashv[thh] % |nb0.heads|;
      TallyStep(nb0.counts, nb0.mults, nb0.nonideal, ideal, bkt);
      var count := nb0.counts[bkt] + 1;
      var mults, nonideal := nb0.mults, nb0.nonideal;
      if count > ideal {
        nonideal := nonideal + 1;
        if count > mults[bkt] * ideal {
          mults := mults[bkt := mults[bkt] + 1];
        }
      }
      ghost var n, p := FrontNext(hhNext, nb0.heads[bkt], thh), FrontPrev(hhPrev, nb0.heads[bkt], thh);
      hhPrev := hhPrev[thh := NULL];
      hhNext := hhNext[thh := nb0.heads[bkt]];
      if nb0.heads[bkt] != NULL {
        hhPrev := hhPrev[nb0.heads[bkt] := thh];
      }
      assert hhNext == n && hhPrev == p;
      newChains := chains0[bkt := [thh] + chains0[bkt]];
      nb := NewBuckets(nb0.heads[bkt := thh], nb0.counts[bkt := count], mults, nonideal);
    }

    /** The inner loop: all items of one old bucket. */
    method MoveChain(i: nat, nb0: NewBuckets, ghost done0: seq<int>, ghost rest0: seq<int>, ghost hn0: seq<int>,
                     ghost hp0: seq<int>, ghost chains0: seq<seq<int>>)
      returns (nb: NewBuckets, ghost newChains: seq<seq<int>>, ghost done: seq<int>)
      requires Handles() && |nb0.mults| == |nb0.heads| && Buckets(hn0, hp0, heads, counts, chains) && i < |chains|
      requires i < |heads| && rest0 == chains[i] + Flat(chains[i + 1..])
      requires Expanding(hhNext, hhPrev, hn0, nb0.heads, nb0.counts, chains0, hashv, done0, rest0)
      requires Tallied(nb0.counts, nb0.mults, nb0.nonideal, ideal) && ideal >= 1
      modifies this`hhNext, this`hhPrev
      ensures Handles() && |nb.mults| == |nb.heads| == |nb0.heads|
      ensures done == done0 + chains[i]
      ensures Expanding(hhNext, hhPrev, hn0, nb.heads, nb.counts, newChains, hashv, done, Flat(chains[i + 1..]))
      ensures Tallied(nb.counts, nb.mults, nb.nonideal, ideal)
    {
      hide ChainOk, Expanding, Tallied, Flat, Buckets;
      ghost var chain, later := chains[i], Flat(chains[i + 1..]);
      BucketAt(hn0, hp0, heads, counts, chains, i);
      ChainRange(hn0, hp0, chain, heads[i], counts[i]);
      var thh := heads[i];
      nb, newChains, done := nb0, chains0, done0;
      ghost var j := 0;
      assert chain[0..] == chain && done0 + chain[..0] == done0;
      while thh != NULL
        invariant 0 <= j <= |chain| && thh == NodeAt(chain, j) && Handles()
        invariant |nb.mults| == |nb.heads| == |nb0.heads| && done == done0 + chain[..j]
        invariant Expanding(hhNext, hhPrev, hn0, nb.heads, nb.counts, newChains, hashv, done, chain[j..] + later)
        invariant Tallied(nb.counts, nb.mults, nb.nonideal, ideal)
        decreases |chain| - j
      {
        ChainLinks(hn0, hp0, chain, heads[i], counts[i], j);
        ghost var rest := chain[j..] + later;
        assert rest[0] == thh && rest[1..] == chain[j + 1..] + later;
        nb, thh, newChains := MoveItem(thh, nb, done, rest, hn0, newChains);
        assert done + [chain[j]] == done0 + chain[..j + 1];
        done := done + [chain[j]];
        j := j + 1;
      }
      assert j == |chain|;
      assert chain[..|chain|] == chain && chain[|chain|..] + later == later;
    }

    /** The outer loop: all old buckets. */
    method MoveAll(nb0: NewBuckets, ghost hn0: seq<int>, ghost hp0: seq<int>, ghost chains0: seq<seq<int>>)
      returns (nb: NewBuckets, ghost newChains: seq<seq<int>>)
      requires Handles() && |nb0.mults| == |nb0.heads| && Buckets(hn0, hp0, heads, counts, chains)
      requires Expanding(hhNext, hhPrev, hn0, nb0.heads, nb0.counts, chains0, hashv, [], Flat(chains))
      requires Tallied(nb0.counts, nb0.mults, nb0.nonideal, ideal) && ideal >= 1
      modifies this`hhNext, this`hhPrev
      ensures Handles() && |nb.mults| == |nb.heads| == |nb0.heads|
      ensures Expanding(hhNext, hhPrev, hn0, nb.heads, nb.counts, newChains, hashv, Flat(chains), [])
      ensures Tallied(nb.counts, nb.mults, nb.nonideal, ideal)
    {
      hide ChainOk, Expanding, Tallied, Flat;
      nb, newChains := nb0, chains0;
      ghost var done: seq<int> := [];
      var i := 0;
      assert chains[0..] == chains && [] + Flat(chains) == Flat(chains);
      while i < |heads|
        invariant i <= |heads| == |chains| && Handles() && |nb.mults| == |nb.heads| == |nb0.heads|
        invariant done + Flat(chains[i..]) == Flat(chains)
        invariant Expanding(hhNext, hhPrev, hn0, nb.heads, nb.counts, newChains, hashv, done, Flat(chains[i..]))
        invariant Tallied(nb.counts, nb.mults, nb.nonideal, ideal)
      {
        FlatHead(chains, i);
        assert done + (chains[i] + Flat(chains[i + 1..])) == (done + chains[i]) + Flat(chains[i + 1..]);
        nb, newChains, done := MoveChain(i, nb, done, Flat(chains[i..]), hn0, hp0, newChains);
        i := i + 1;
      }
      assert chains[|chains|..] == [];
      FlatNothing();
      assert done + [] == done;
    }

    /** The two loops of HASH_EXPAND_BUCKETS: all items in the new, zeroed buckets. */
    method Redistribute(size: nat, ghost items: seq<int>) returns (nb: NewBuckets, ghost newChains: seq<seq<int>>)
      requires Handles() && size > 0 && ideal >= 1 && |hhNext| == |hashv|
      requires Buckets(hhNext, hhPrev, heads, counts, chains) && Placed(hashv, chains, items) && Once(items)
      modifies this`hhNext, this`hhPrev
      ensures Handles() && |nb.mults| == |nb.heads| == size && |hhNext| == |hashv|
      ensures Buckets(hhNext, hhPrev, nb.heads, nb.counts, newChains) && Placed(hashv, newChains, items)
      ensures Tallied(nb.counts, nb.mults, nb.nonideal, ideal)
    {
      hide ChainOk, Buckets, Placed, Expanding, Flat, Once, Tallied;
      BucketSizes(hhNext, hhPrev, heads, counts, chains, hashv, items);
      FlatIsOrder(hhNext, hhPrev, heads, counts, chains, hashv, items);
      ItemsInRange(hashv, chains, items);
      nb := EmptyNew(size);
      newChains := EmptyChains(size);
      ExpandStart(hhNext, hhPrev, nb.heads, nb.counts, newChains, hashv, Flat(chains));
      TallyStart(nb.counts, nb.mults, ideal);
      ghost var hn0 := hhNext;
      nb, newChains := MoveAll(nb, hhNext, hhPrev, newChains);
      ExpandDone(hhNext, hhPrev, hn0, nb.heads, nb.counts, newChains, hashv, Flat(chains), items);
      BucketSizes(hhNext, hhPrev, nb.heads, nb.counts, newChains, hashv, items);
    }

    /** HASH_EXPAND_BUCKETS after the allocation: the same items in twice as many buckets, each where its hash
        value belongs; the ideal chain length and the number of items beyond it. */
    method ExpandBuckets(ghost items: seq<int>)
      requires Handles() && |heads| == |mults| == Pow(2, log2) && |hhNext| == |hashv|
      requires Buckets(hhNext, hhPrev, heads, counts, chains) && Placed(hashv, chains, items)
      requires Once(items) && numItems > 0
      modifies this`hhNext, this`hhPrev, this`heads, this`counts, this`mults, this`chains, this`log2, this`ideal,
               this`nonideal, this`ineff, this`noexpand
      ensures Handles() && |hhNext| == |hashv|
      ensures log2 == old(log2) + 1 && |heads| == |mults| == Pow(2, log2) == 2 * old(|heads|)
      ensures Buckets(hhNext, hhPrev, heads, counts, chains) && Placed(hashv, chains, items)
      ensures IsCeiling(numItems, |heads|, ideal)
      ensures Tallied(counts, mults, nonideal, ideal)
      ensures ineff == (if nonideal > numItems / 2 then old(ineff) + 1 else 0)
      ensures noexpand == (old(noexpand) || ineff > 1)
    {
      hide ChainOk, Buckets, Placed, Once, Tallied, Pow, IsCeiling;
      PowerStep(log2);
      var size := 2 * |heads|;
      ideal := Ceiling(numItems, size);
      ghost var newChains: seq<seq<int>>;
      var nb: NewBuckets;
      nb, newChains := Redistribute(size, items);
      Install(nb, newChains);
      Judge();
    }

    /** The new bucket array replaces the old one. */
    method Install(nb: NewBuckets, ghost newChains: seq<seq<int>>)
      modifies this`heads, this`counts, this`mults, this`chains, this`log2, this`nonideal
      ensures heads == nb.heads && counts == nb.counts && mults == nb.mults && chains == newChains
      ensures nonideal == nb.nonideal && log2 == old(log2) + 1
    {
      log2 := log2 + 1;
      heads, counts, mults, chains, nonideal := nb.heads, nb.counts, nb.mults, newChains, nb.nonideal;
    }

    /** Two ineffective expansions in a row stop further ones. */
    method Judge()
      modifies this`ineff, this`noexpand
      ensures ineff == (if nonideal > numItems / 2 then old(ineff) + 1 else 0)
      ensures noexpand == (old(noexpand) || ineff > 1)
    {
      ineff := if nonideal > numItems / 2 then ineff + 1 else 0;
      if ineff > 1 {
        noexpand := true;
      }
    }

    lemma TableSizes2(items: seq<int>)
      requires TableHolds(items)
      ensures |heads| == |counts| == |mults| == |chains| > 0 && |bloom| > 0
    {
    }

    // ----- removing an item -----

    /** The bucket an item's hash value selects. */
    ghost function Bucket(x: int): nat
      reads `hashv, `heads
    {
      if 0 <= x < |hashv| && |heads| > 0 then hashv[x] % |heads| else 0
    }

    /** Taking x out of its bucket leaves the given chains. */
    ghost predicate Leaves(x: int, chains': seq<seq<int>>)
      reads `hashv, `hhNext, `hhPrev, `heads, `counts
    {
      var b := Bucket(x);
      && 0 <= x < |hhNext| == |hhPrev| == |hashv| && b < |heads| == |counts| && counts[b] > 0
      && (hhPrev[x] == NULL || 0 <= hhPrev[x] < |hhNext|) && (hhNext[x] == NULL || 0 <= hhNext[x] < |hhPrev|)
      && Buckets(UnlinkNext(hhNext, hhPrev, x), UnlinkPrev(hhNext, hhPrev, x),
                 heads[b := if heads[b] == x then hhNext[x] else heads[b]], counts[b := counts[b] - 1], chains')
    }

    /** HASH_DEL_IN_BKT */
    method DelInBucket(x: int, ghost chains': seq<seq<int>>)
      requires Leaves(x, chains')
      modifies this`hhNext, this`hhPrev, this`heads, this`counts, this`chains
      ensures Buckets(hhNext, hhPrev, heads, counts, chains) && chains == chains'
      ensures |heads| == old(|heads|) && |hhNext| == old(|hhNext|) == |hhPrev|
    {
      hide ChainOk, Buckets;
      var bkt := hashv[x] % |heads|;
      ghost var hn, hp := UnlinkNext(hhNext, hhPrev, x), UnlinkPrev(hhNext, hhPrev, x);
      ghost var hs := heads[bkt := if heads[bkt] == x then hhNext[x] else heads[bkt]];
      counts := counts[bkt := counts[bkt] - 1];
      if heads[bkt] == x {
        heads := heads[bkt := hhNext[x]];
      }
      assert heads == hs;
      if hhPrev[x] != NULL {
        hhNext := hhNext[hhPrev[x] := hhNext[x]];
      }
      if hhNext[x] != NULL {
        hhPrev := hhPrev[hhNext[x] := hhPrev[x]];
      }
      assert hhNext == hn && hhPrev == hp;
      chains := chains';
    }

    /** HASH_DELETE_HH on the application-order list when other items remain. */
    method UnlinkItem(x: int, ghost k: nat)
      requires ListValid() && k < |order| && order[k] == x && |order| > 1
      modifies this`next, this`prev, this`head, this`tail, this`order
      ensures ListValid() && order == Removed(old(order), k) && head != NULL
      ensures |next| == old(|next|) && |prev| == old(|prev|)
    {
      hide ChainOk, Once;
      ChainRange(next, prev, order, head, |order|);
      ChainLinks(next, prev, order, head, |order|, k);
      UnlinkOk(next, prev, order, head, |order|, k);
      LastRemoved(order, k);
      ghost var n, p := UnlinkNext(next, prev, x), UnlinkPrev(next, prev, x);
      if x == tail {
        tail := prev[x];
      }
      if prev[x] != NULL {
        next := next[prev[x] := next[x]];
      } else {
        head := next[x];
      }
      if next[x] != NULL {
        prev := prev[next[x] := prev[x]];
      }
      assert next == n && prev == p;
      order := Removed(order, k);
      ChainRange(next, prev, order, head, |order|);
    }

    /** HASH_DELETE_HH: the item leaves the list and its bucket; with the last item goes the table. */
    method DeleteHandle(x: int, ghost k: nat, ghost chains': seq<seq<int>>)
      requires Handles() && ListValid() && k < |order| && order[k] == x
      requires |order| > 1 ==> Leaves(x, chains') && numItems > 0
      modifies this`next, this`prev, this`hhNext, this`hhPrev, this`head, this`tail, this`numItems, this`heads, this`counts,
               this`order, this`chains
      ensures Handles() && ListValid() && order == Removed(old(order), k)
      ensures old(|order|) == 1 ==> head == NULL
      ensures old(|order|) > 1 ==> head != NULL && numItems == old(numItems) - 1 && chains == chains'
                                   && Buckets(hhNext, hhPrev, heads, counts, chains) && |heads| == old(|heads|)
      ensures |hhNext| == old(|hhNext|)
    {
      hide ChainOk, Once, Buckets, Leaves;
      OnlyItem(next, prev, order, head, k);
      if prev[x] == NULL && next[x] == NULL {
        head, tail, order := NULL, NULL, [];
        EmptyChain(next, prev);
      } else {
        UnlinkItem(x, k);
        DelInBucket(x, chains');
        numItems := numItems - 1;
      }
    }

    /** A stored item can leave. */
    lemma StoredLeaves(x: int, items: seq<int>, after: seq<int>) returns (chains': seq<seq<int>>)
      requires Handles() && Buckets(hhNext, hhPrev, heads, counts, chains) && Placed(hashv, chains, items)
      requires |hhNext| == |hashv| && x in items && forall y :: y in after <==> y in items && y != x
      ensures Leaves(x, chains') && Placed(hashv, chains', after)
    {
      hide ChainOk, Buckets, Sorted, Once;
      BucketSizes(hhNext, hhPrev, heads, counts, chains, hashv, items);
      var b := hashv[x] % |heads|;
      var k :| 0 <= k < |chains[b]| && chains[b][k] == x;
      ChainOnce(hhNext, hhPrev, heads, counts, chains, b);
      RemovedMembers(chains[b], k);
      PopBucket(hhNext, hhPrev, heads, counts, chains, hashv, b, k);
      chains' := chains[b := Removed(chains[b], k)];
      PlacedPop(hashv, chains, items, after, x, Removed(chains[b], k));
      LinksInRange(hhNext, hhPrev, heads, counts, chains, b, k);
    }

    /** The item in front of its bucket can leave again. */
    lemma FrontLeaves(x: int, chains': seq<seq<int>>)
      requires Handles() && Buckets(hhNext, hhPrev, heads, counts, chains) && Sorted(hashv, chains)
      requires |hhNext| == |hashv| && 0 <= x < |hashv| && |chains'| == |chains| > 0
      requires var b := BucketOf(hashv, x, |chains|); chains == chains'[b := [x] + chains'[b]]
      ensures Leaves(x, chains')
    {
      hide ChainOk, Buckets, Sorted;
      var b := BucketOf(hashv, x, |chains|);
      PopBucket(hhNext, hhPrev, heads, counts, chains, hashv, b, 0);
      assert Removed(chains[b], 0) == chains'[b] && chains[b := chains'[b]] == chains';
      LinksInRange(hhNext, hhPrev, heads, counts, chains, b, 0);
    }

    // ----- adding an item -----

    /** One more item with this hash value makes the buckets expand. */
    ghost predicate Full(hashval: nat)
      reads `heads, `counts, `mults, `noexpand
    {
      && !noexpand && |heads| == |counts| == |mults| > 0
      && var b := hashval % |heads|; counts[b] + 1 >= (mults[b] + 1) * THRESHOLD
    }

    lemma FullIs(hashval: nat)
      requires Structure() && head != NULL
      ensures |heads| == |counts| == |mults| > 0
      ensures var b := hashval % |heads|; Full(hashval) <==> !noexpand && counts[b] + 1 >= 10 * (mults[b] + 1)
    {
    }

    /** What HASH_EXPAND_BUCKETS leaves in the table's statistics. */
    ghost predicate Balanced()
      reads `heads, `counts, `mults, `ideal, `nonideal, `numItems
    {
      IsCeiling(numItems, |heads|, ideal) && Tallied(counts, mults, nonideal, ideal)
    }

    /** What two ineffective expansions in a row, of which there have been ineff0 before, do to further ones. */
    ghost predicate Judged(ineff0: nat)
      reads `nonideal, `numItems, `ineff, `noexpand
    {
      ineff == (if nonideal > numItems / 2 then ineff0 + 1 else 0) && (noexpand <==> ineff > 1)
    }

    /** The buckets are the given ones with x in front of the one that the hash value selects. */
    ghost predicate OneMore(x: int, hashval: nat, chains0: seq<seq<int>>, heads0: seq<int>, counts0: seq<nat>)
      reads `heads, `counts, `chains
    {
      && |chains0| == |heads0| == |counts0| > 0
      && var b := hashval % |chains0|;
         chains == chains0[b := [x] + chains0[b]] && heads == heads0[b := x] && counts == counts0[b := counts0[b] + 1]
    }

    /** HASH_ADD_TO_BKT: when the bucket is long, the buckets are expanded; when memory for that runs out, the
        item leaves its bucket again. */
    method AddToBucket(x: int, expandOk: bool, ghost before: seq<int>, ghost after: seq<int>) returns (oomed: bool)
      requires Handles() && TableHolds(before) && 0 <= x < |hashv| && x !in before && numItems > 0
      requires Once(after) && forall y :: y in after <==> y in before || y == x
      modifies this`hhNext, this`hhPrev, this`heads, this`counts, this`mults, this`chains, this`log2, this`ideal,
               this`nonideal, this`ineff, this`noexpand
      ensures Handles() && |hhNext| == old(|hhNext|) && Buckets(hhNext, hhPrev, heads, counts, chains)
      ensures |heads| == |mults| == Pow(2, log2)
      ensures |bloom| > 0 && (if oomed then TableHolds(before) else Placed(hashv, chains, after))
      ensures oomed <==> old(Full(hashv[x])) && !expandOk
      ensures oomed ==> chains == old(chains) && heads == old(heads) && counts == old(counts)
      ensures !(old(Full(hashv[x])) && expandOk) ==> unchanged(`mults, `log2, `ideal, `nonideal, `ineff, `noexpand)
      ensures !old(Full(hashv[x])) ==> OneMore(x, hashv[x], old(chains), old(heads), old(counts))
      ensures old(Full(hashv[x])) && expandOk ==> log2 == old(log2) + 1 && Balanced() && Judged(old(ineff))
    {
      hide ChainOk, Buckets, Placed, Once, Pow, Tallied, Leaves, IsCeiling;
      TableSizes2(before);
      ghost var hn0, hp0 := hhNext, hhPrev;
      ghost var chains0 := chains;
      SameItems(hashv, chains, before, after, x);
      PushItem(x, before);
      oomed := false;
      var bkt := hashv[x] % |heads|;
      SameItems(hashv, chains, before, after, x);
      if counts[bkt] >= (mults[bkt] + 1) * THRESHOLD {
        if !noexpand {
          if expandOk {
            ExpandBuckets(after);
          } else {
            oomed := true;
            PlacedSorted(hashv, chains, before + [x], x);
            FrontLeaves(x, chains0);
            DelInBucket(x, chains0);
            SameHeads(hhNext, hhPrev, heads, counts, hn0, hp0, old(heads), old(counts), chains);
          }
        }
      }
    }

    /** HASH_ADD_TO_TABLE for an item that is in the list already, at place k. When the buckets cannot be expanded,
        HASH_ROLLBACK_BKT and HASH_DELETE_HH bring back the table without it. */
    method AddToTable(x: int, expandOk: bool, ghost before: seq<int>, ghost k: nat) returns (oomed: bool)
      requires Handles() && ListValid() && k <= |before| && order == Inserted(before, k, x)
      requires 0 <= x < |hashv| && x !in before && TableHolds(before) && numItems == |before|
      modifies this`next, this`prev, this`hhNext, this`hhPrev, this`head, this`tail, this`numItems, this`heads, this`counts,
               this`mults, this`log2, this`ideal, this`nonideal, this`ineff, this`noexpand, this`bloom, this`order, this`chains
      ensures Handles() && ListValid()
      ensures oomed <==> old(Full(hashv[x])) && !expandOk
      ensures !oomed ==> order == old(order) && head == old(head) && TableHolds(order) && numItems == |order|
      ensures oomed ==> order == before && (head != NULL ==> TableHolds(order) && numItems == |order|)
      ensures oomed && before != [] ==> chains == old(chains) && heads == old(heads) && counts == old(counts)
      ensures !(old(Full(hashv[x])) && expandOk) ==> unchanged(`mults, `log2, `ideal, `nonideal, `ineff, `noexpand)
      ensures !old(Full(hashv[x])) ==> OneMore(x, hashv[x], old(chains), old(heads), old(counts))
      ensures old(Full(hashv[x])) && expandOk ==> log2 == old(log2) + 1 && Balanced() && Judged(old(ineff))
      ensures |old(bloom)| > 0 && bloom == if oomed then old(bloom) else old(bloom)[hashv[x] % |old(bloom)| := true]
    {
      hide ChainOk, Buckets, Placed, Once, Pow, Tallied, Leaves, Full, IsCeiling, TableHolds, Filtered, Inserted, Balanced,
           Judged, OneMore, ListValid, Handles;
      numItems := numItems + 1;
      StillHolds(before);
      ListOnce();
      InsertedMembers(before, k, x);
      assert Full(hashv[x]) == old(Full(hashv[x]));
      oomed := AddToBucket(x, expandOk, before, order);
      if oomed {
        RollBack(x, before, k);
      } else {
        FilterItem(x, before);
        HoldsNow(order);
      }
    }

    lemma ListOnce()
      requires ListValid()
      ensures Once(order) && |next| == |prev|
    {
    }

    /** HASH_BLOOM_ADD */
    method FilterItem(x: int, ghost before: seq<int>)
      requires 0 <= x < |hashv| && Filtered(before) && forall y :: y in order <==> y in before || y == x
      modifies this`bloom
      ensures Filtered(order)
      ensures |old(bloom)| > 0 && bloom == old(bloom)[hashv[x] % |old(bloom)| := true]
    {
      FilterAdds(bloom, hashv, before, order, x);
      bloom := bloom[hashv[x] % |bloom| := true];
    }

    lemma HoldsNow(items: seq<int>)
      requires |heads| == |mults| == Pow(2, log2) && Buckets(hhNext, hhPrev, heads, counts, chains)
      requires |hhNext| == |hashv| && Placed(hashv, chains, items) && Filtered(items)
      ensures TableHolds(items)
    {
    }

    lemma StillHolds(items: seq<int>)
      requires TableHolds(items)
      ensures Filtered(items) && |bloom| > 0 && |hhNext| == |hashv| == |hhPrev|
    {
    }

    lemma ClearedLeaves(x: int)
      requires 0 <= x < |hhNext| == |hhPrev| == |hashv| && |heads| > 0 && Bucket(x) < |heads| == |counts| && counts[Bucket(x)] > 0
      requires hhPrev[x] == NULL && hhNext[x] == NULL && heads[Bucket(x)] != x
      requires UnlinkNext(hhNext, hhPrev, x) == hhNext && UnlinkPrev(hhNext, hhPrev, x) == hhPrev
      requires var b := Bucket(x); Buckets(hhNext, hhPrev, heads, counts[b := counts[b] - 1], chains)
      ensures Leaves(x, chains)
    {
      hide Buckets;
      var b := Bucket(x);
      assert heads[b := heads[b]] == heads;
    }

    /** HASH_ROLLBACK_BKT, then HASH_DELETE_HH */
    method RollBack(x: int, ghost before: seq<int>, ghost k: nat)
      requires Handles() && ListValid() && k <= |before| && order == Inserted(before, k, x)
      requires 0 <= x < |hashv| && x !in before && TableHolds(before) && numItems == |before| + 1
      modifies this`next, this`prev, this`hhNext, this`hhPrev, this`head, this`tail, this`numItems, this`heads, this`counts,
               this`order, this`chains
      ensures Handles() && ListValid() && order == before
      ensures head != NULL ==> TableHolds(order) && numItems == |order|
      ensures before != [] ==> chains == old(chains) && heads == old(heads) && counts == old(counts)
    {
      hide ChainOk, Buckets, Placed, Once, Pow, Leaves, Inserted, Removed, UnlinkNext, UnlinkPrev;
      TableSizes2(before);
      ghost var hn0, hp0, heads0, counts0 := hhNext, hhPrev, heads, counts;
      LoneLeaves(hhNext, hhPrev, heads, counts, chains, hashv, before, x);
      var bkt := hashv[x] % |heads|;
      counts := counts[bkt := counts[bkt] + 1];
      hhNext := hhNext[x := NULL];
      hhPrev := hhPrev[x := NULL];
      InsertedPlace(before, k, x);
      assert counts[bkt := counts[bkt] - 1] == counts0;
      ClearedLeaves(x);
      DeleteHandle(x, k, chains);
      if |before| > 0 {
        SameHeads(hhNext, hhPrev, heads, counts, hn0, hp0, heads0, counts0, chains);
      }
    }

    /** A table of 32 buckets and a filter with x alone, and nothing that has been said about expansions. */
    ghost predicate NewTable(x: int, hashval: nat, bloomLog2: nat)
      reads `numItems, `log2, `heads, `counts, `mults, `ideal, `nonideal, `ineff, `noexpand, `chains, `bloom
    {
      && |bloom| == Pow(2, bloomLog2) > 0 && (forall b :: 0 <= b < |bloom| ==> (bloom[b] <==> b == hashval % |bloom|))
      && log2 == 5 && |heads| == |counts| == |mults| == |chains| == 32 && numItems == 1
      && ideal == nonideal == ineff == 0 && !noexpand
      && forall b :: 0 <= b < 32 ==> mults[b] == 0 && if b == hashval % 32 then chains[b] == [x] && heads[b] == x && counts[b] == 1
                                                    else chains[b] == [] && heads[b] == NULL && counts[b] == 0
    }

    lemma NewTableIs(x: int, hashval: nat, bloomLog2: nat, chains0: seq<seq<int>>, heads0: seq<int>, counts0: seq<nat>,
                     bloom0: seq<bool>)
      requires |bloom0| == Pow(2, bloomLog2) > 0 && forall b :: 0 <= b < |bloom0| ==> !bloom0[b]
      requires bloom == bloom0[hashval % |bloom0| := true]
      requires OneMore(x, hashval, chains0, heads0, counts0) && |chains0| == 32
      requires forall b :: 0 <= b < 32 ==> chains0[b] == [] && heads0[b] == NULL && counts0[b] == 0
      requires log2 == 5 && |mults| == 32 && numItems == 1 && ideal == nonideal == ineff == 0 && !noexpand
      requires forall b :: 0 <= b < 32 ==> mults[b] == 0
      ensures NewTable(x, hashval, bloomLog2)
    {
      hide Pow;
    }

    /** The first item, with its new table. */
    method StoreFirst(x: int, bloomLog2: nat, expandOk: bool)
      requires Handles() && ListValid() && head == NULL && 0 <= x < |hashv|
      modifies `next, `prev, `hhNext, `hhPrev, `head, `tail, `numItems, `heads, `counts,
               `mults, `log2, `ideal, `nonideal, `ineff, `noexpand, `bloom, `order, `chains
      ensures Structure() && order == [x] && NewTable(x, hashv[x], bloomLog2)
    {
      hide ChainOk, TableHolds, Full, Filtered, Balanced, Judged, OneMore, NewTable, ListValid;
      MakeTable(bloomLog2);
      FirstItem(x);
      ghost var chains0, heads0, counts0, bloom0 := chains, heads, counts, bloom;
      var oomed := AddToTable(x, expandOk, [], 0);
      NewTableIs(x, hashv[x], bloomLog2, chains0, heads0, counts0, bloom0);
    }

    /** A further item, at the end. */
    method StoreLast(x: int, expandOk: bool) returns (oomed: bool)
      requires Structure() && head != NULL && 0 <= x < |hashv| && x !in order
      modifies `next, `prev, `hhNext, `hhPrev, `head, `tail, `numItems, `heads, `counts,
               `mults, `log2, `ideal, `nonideal, `ineff, `noexpand, `bloom, `order, `chains
      ensures Structure() && order == if oomed then old(order) else old(order) + [x]
      ensures oomed <==> old(Full(hashv[x])) && !expandOk
      ensures oomed ==> chains == old(chains) && heads == old(heads) && counts == old(counts)
      ensures !(old(Full(hashv[x])) && expandOk) ==> unchanged(`mults, `log2, `ideal, `nonideal, `ineff, `noexpand)
      ensures !old(Full(hashv[x])) ==> OneMore(x, hashv[x], old(chains), old(heads), old(counts))
      ensures old(Full(hashv[x])) && expandOk ==> log2 == old(log2) + 1 && Balanced() && Judged(old(ineff))
      ensures |old(bloom)| > 0 && bloom == if oomed then old(bloom) else old(bloom)[hashv[x] % |old(bloom)| := true]
    {
      hide ChainOk, TableHolds, Full, Filtered, Balanced, Judged, OneMore, ListValid;
      ListHead();
      ghost var before := order;
      AppendList(x);
      assert order == Inserted(before, |before|, x);
      oomed := AddToTable(x, expandOk, before, |before|);
      ListHead();
    }

    lemma ListHead()
      requires ListValid()
      ensures head == NULL <==> order == []
    {
      hide ChainOk;
      ChainRange(next, prev, order, head, |order|);
    }

    /** HASH_AKBI_INNER_LOOP: the first item that compares greater. */
    method FindPlace(x: int, cmp: (int, int) -> int) returns (iter: int, ghost k: nat)
      requires ListValid() && head != NULL
      ensures k == Place(order, x, cmp) && iter == NodeAt(order, k)
    {
      hide ChainOk;
      ChainRange(next, prev, order, head, |order|);
      iter, k := head, 0;
      while iter != NULL && cmp(iter, x) <= 0
        invariant k <= |order| && iter == NodeAt(order, k)
        invariant forall i :: 0 <= i < k ==> cmp(order[i], x) <= 0
        decreases |order| - k
      {
        ChainLinks(next, prev, order, head, |order|, k);
        iter := next[iter];
        k := k + 1;
      }
      PlaceIs(order, x, cmp, k);
    }

    /** x goes before another item of the list. */
    method InsertBefore(x: int, iter: int, ghost k: nat)
      requires ListValid() && 0 <= x < |next| && x !in order && k < |order| && iter == order[k]
      modifies `next, `prev, `head, `order
      ensures ListValid() && order == Inserted(old(order), k, x)
      ensures |next| == old(|next|) && |prev| == old(|prev|)
    {
      hide ChainOk;
      ChainRange(next, prev, order, head, |order|);
      ChainLinks(next, prev, order, head, |order|, k);
      InsertOk(next, prev, order, head, |order|, k, x);
      ghost var n, p := InsertNext(next, order, k, x), InsertPrev(prev, order, k, x);
      next := next[x := iter];
      prev := prev[x := prev[iter]];
      if prev[x] != NULL {
        next := next[prev[x] := x];
      } else {
        head := x;
      }
      prev := prev[iter := x];
      assert next == n && prev == p;
      assert Last(order) == Last(Inserted(order, k, x));
      order := Inserted(order, k, x);
    }

    /** A further item, where the comparison puts it. */
    method StoreInOrder(x: int, cmp: (int, int) -> int, expandOk: bool) returns (oomed: bool)
      requires Structure() && head != NULL && 0 <= x < |hashv| && x !in order
      modifies `next, `prev, `hhNext, `hhPrev, `head, `tail, `numItems, `heads, `counts,
               `mults, `log2, `ideal, `nonideal, `ineff, `noexpand, `bloom, `order, `chains
      ensures Structure()
      ensures order == if oomed then old(order) else Inserted(old(order), Place(old(order), x, cmp), x)
      ensures oomed <==> old(Full(hashv[x])) && !expandOk
      ensures oomed ==> chains == old(chains) && heads == old(heads) && counts == old(counts)
      ensures !(old(Full(hashv[x])) && expandOk) ==> unchanged(`mults, `log2, `ideal, `nonideal, `ineff, `noexpand)
      ensures !old(Full(hashv[x])) ==> OneMore(x, hashv[x], old(chains), old(heads), old(counts))
      ensures old(Full(hashv[x])) && expandOk ==> log2 == old(log2) + 1 && Balanced() && Judged(old(ineff))
      ensures |old(bloom)| > 0 && bloom == if oomed then old(bloom) else old(bloom)[hashv[x] % |old(bloom)| := true]
    {
      hide ChainOk, TableHolds, Full, Filtered, Balanced, Judged, OneMore, ListValid, Inserted, Place;
      ListHead();
      ghost var before := order;
      var iter;
      ghost var k;
      iter, k := FindPlace(x, cmp);
      NodeThere(before, k);
      ListRange();
      if iter != NULL {
        InsertBefore(x, iter, k);
      } else {
        InsertedLast(before, x);
        AppendList(x);
      }
      oomed := AddToTable(x, expandOk, before, k);
      ListHead();
    }

    lemma ListRange()
      requires ListValid()
      ensures forall i :: 0 <= i < |order| ==> order[i] != NULL
    {
      hide ChainOk;
      ChainRange(next, prev, order, head, |order|);
    }

    /** HASH_ADD_KEYPTR_BYHASHVALUE: a new key's item goes to the end of the list, unless memory runs out; then
        the table is as before. */
    method Add(x: int, key: K, hashval: nat, bloomLog2: nat, tableOk: bool, expandOk: bool) returns (added: bool)
      requires Valid() && 0 <= x < |keys| && x !in order && hashval == hash(key) && key !in Contents()
      modifies this
      ensures Valid()
      ensures order == (if added then old(order) + [x] else old(order)) && |keys| == old(|keys|)
      ensures Contents() == if added then old(Contents())[key := x] else old(Contents())
      ensures added <==> if old(order) == [] then tableOk else !old(Full(hashval)) || expandOk
      ensures old(order) == [] && added ==> NewTable(x, hashval, bloomLog2)
      ensures old(order) != [] ==> |old(heads)| == |old(counts)| == |old(mults)| > 0
      ensures old(order) != [] ==> var b := hashval % |old(heads)|;
                (old(Full(hashval)) <==> !old(noexpand) && old(counts)[b] + 1 >= 10 * (old(mults)[b] + 1))
      ensures old(order) != [] && !(old(Full(hashval)) && expandOk) ==>
                unchanged(`mults, `log2, `ideal, `nonideal, `ineff, `noexpand)
      ensures old(order) != [] && !old(Full(hashval)) ==> OneMore(x, hashval, old(chains), old(heads), old(counts))
      ensures old(order) != [] && old(Full(hashval)) && expandOk ==> log2 == old(log2) + 1 && Balanced() && Judged(old(ineff))
      ensures old(order) != [] && added ==>
                |old(bloom)| > 0 && bloom == old(bloom)[hashval % |old(bloom)| := true]
      ensures !added ==> (chains == old(chains) && heads == old(heads) && counts == old(counts)
                         && unchanged(`mults, `log2, `ideal, `nonideal, `ineff, `noexpand, `bloom))
    {
      hide ChainOk, TableHolds, Full, Filtered, Balanced, Judged, OneMore, NewTable, ListValid, KeysOk, ContentsOf;
      SetHandle(x, key, hashval);
      ListHead();
      added := true;
      if head == NULL {
        if tableOk {
          StoreFirst(x, bloomLog2, expandOk);
        } else {
          added := false;
        }
      } else {
        FullIs(hashval);
        var oomed := StoreLast(x, expandOk);
        added := !oomed;
      }
      if added {
        KeyAdded(old(keys), old(hashv), old(order), hash, x, key, order);
      }
    }

    /** HASH_ADD_KEYPTR_BYHASHVALUE_INORDER */
    method AddInOrder(x: int, key: K, hashval: nat, cmp: (int, int) -> int, bloomLog2: nat, tableOk: bool, expandOk: bool)
      returns (added: bool)
      requires Valid() && 0 <= x < |keys| && x !in order && hashval == hash(key) && key !in Contents()
      modifies this
      ensures Valid()
      ensures order == if added then Inserted(old(order), Place(old(order), x, cmp), x) else old(order)
      ensures Contents() == if added then old(Contents())[key := x] else old(Contents())
      ensures added <==> if old(order) == [] then tableOk else !old(Full(hashval)) || expandOk
      ensures old(order) == [] && added ==> NewTable(x, hashval, bloomLog2)
      ensures old(order) != [] ==> |old(heads)| == |old(counts)| == |old(mults)| > 0
      ensures old(order) != [] ==> var b := hashval % |old(heads)|;
                (old(Full(hashval)) <==> !old(noexpand) && old(counts)[b] + 1 >= 10 * (old(mults)[b] + 1))
      ensures old(order) != [] && !(old(Full(hashval)) && expandOk) ==>
                unchanged(`mults, `log2, `ideal, `nonideal, `ineff, `noexpand)
      ensures old(order) != [] && !old(Full(hashval)) ==> OneMore(x, hashval, old(chains), old(heads), old(counts))
      ensures old(order) != [] && old(Full(hashval)) && expandOk ==> log2 == old(log2) + 1 && Balanced() && Judged(old(ineff))
      ensures old(order) != [] && added ==>
                |old(bloom)| > 0 && bloom == old(bloom)[hashval % |old(bloom)| := true]
      ensures !added ==> (chains == old(chains) && heads == old(heads) && counts == old(counts)
                         && unchanged(`mults, `log2, `ideal, `nonideal, `ineff, `noexpand, `bloom))
    {
      hide ChainOk, TableHolds, Full, Filtered, Balanced, Judged, OneMore, NewTable, ListValid, KeysOk, ContentsOf, Inserted, Place;
      SetHandle(x, key, hashval);
      ListHead();
      InsertedFirst(x, cmp);
      added := true;
      if head == NULL {
        if tableOk {
          StoreFirst(x, bloomLog2, expandOk);
        } else {
          added := false;
        }
      } else {
        FullIs(hashval);
        var oomed := StoreInOrder(x, cmp, expandOk);
        added := !oomed;
      }
      if added {
        InsertedMembers(old(order), Place(old(order), x, cmp), x);
        KeyAdded(old(keys), old(hashv), old(order), hash, x, key, order);
      }
    }

    // ----- adding many items -----

    /** As long as the 32 buckets are the first ones, they hold fewer than ten items each; otherwise some bucket of
        these 32 would hold ten. */
    ghost predicate Loaded(hs: seq<nat>)
      reads `log2, `heads, `counts, `mults, `noexpand
    {
      && log2 >= 5
      && if log2 > 5 then Overloaded(hs)
         else && !noexpand && |heads| == |counts| == |mults| == 32
              && forall b :: 0 <= b < 32 ==> mults[b] == 0 && counts[b] == Load(hs, b) < 10
    }

    lemma LoadedFirst(hs: seq<nat>)
      requires |hs| > 0 && log2 == 5 && |heads| == |counts| == |mults| == 32 && !noexpand
      requires forall b :: 0 <= b < 32 ==> mults[b] == 0 && counts[b] == if b == hs[0] % 32 then 1 else 0
      ensures Loaded(hs[..1])
    {
      forall b: nat | b < 32
        ensures Load(hs[..1], b) == if b == hs[0] % 32 then 1 else 0
      {
        LoadStep(hs, 0, b);
        assert hs[..0] == [];
      }
    }

    lemma NewTableCounts(x: int, hashval: nat, bloomLog2: nat)
      requires NewTable(x, hashval, bloomLog2)
      ensures log2 == 5 && |heads| == |counts| == |mults| == 32 && !noexpand
      ensures forall b :: 0 <= b < 32 ==> mults[b] == 0 && counts[b] == if b == hashval % 32 then 1 else 0
    {
    }

    /** Ten items make a bucket full. */
    lemma LoadedFull(hs: seq<nat>, i: nat)
      requires i < |hs| && Loaded(hs[..i])
      ensures log2 > 5 ==> Overloaded(hs[..i + 1])
      ensures log2 == 5 && Full(hs[i]) ==> Overloaded(hs[..i + 1])
      ensures log2 == 5 && !Full(hs[i]) ==> Load(hs[..i + 1], hs[i] % 32) < 10
    {
      if log2 > 5 {
        StillOverloaded(hs, i);
      } else {
        LoadStep(hs, i, hs[i] % 32);
      }
    }

    lemma LoadedAgain(hs: seq<nat>, i: nat, x: int, chains0: seq<seq<int>>, heads0: seq<int>, counts0: seq<nat>)
      requires i < |hs| && OneMore(x, hs[i], chains0, heads0, counts0) && |heads0| == |mults| == 32 && log2 == 5 && !noexpand
      requires forall b :: 0 <= b < 32 ==> mults[b] == 0 && counts0[b] == Load(hs[..i], b) < 10
      requires Load(hs[..i + 1], hs[i] % 32) < 10
      ensures Loaded(hs[..i + 1])
    {
      hide Load;
      assert |counts0| == |heads0| == 32 && |counts| == |heads| == 32;
      LoadedMore(hs, i, counts0, counts);
      forall b | 0 <= b < 32
        ensures mults[b] == 0 && counts[b] == Load(hs[..i + 1], b) < 10
      {
        assert b == hs[i] % 32 || counts[b] == counts0[b];
      }
    }

    lemma LoadedParts(hs: seq<nat>)
      requires Loaded(hs)
      ensures log2 >= 5
      ensures log2 == 5 ==> !noexpand && |heads| == |counts| == |mults| == 32
      ensures log2 == 5 ==> forall b :: 0 <= b < 32 ==> mults[b] == 0 && counts[b] == Load(hs, b) < 10
    {
    }

    lemma LoadedLarge(hs: seq<nat>)
      requires log2 > 5 && Overloaded(hs)
      ensures Loaded(hs)
    {
    }

    /** One of a sequence of adds, with memory for everything. */
    method AddNext(xs: seq<int>, ks: seq<K>, hs: seq<nat>, i: nat, bloomLog2: nat)
      requires Valid() && i < |xs| == |ks| == |hs| && order == xs[..i]
      requires 0 <= xs[i] < |keys| && hs[i] == hash(ks[i]) && xs[i] !in order && ks[i] !in Contents()
      requires i > 0 ==> Loaded(hs[..i])
      modifies this
      ensures Valid() && order == xs[..i + 1] && Contents() == old(Contents())[ks[i] := xs[i]]
      ensures |keys| == old(|keys|) && Loaded(hs[..i + 1])
    {
      hide Structure, Full, Balanced, Judged, OneMore, NewTable, KeysValid, Contents, Loaded;
      ghost var chains0, heads0, counts0 := chains, heads, counts;
      if i > 0 {
        LoadedFull(hs, i);
        LoadedParts(hs[..i]);
      }
      var added := Add(xs[i], ks[i], hs[i], bloomLog2, true, true);
      assert xs[..i + 1] == xs[..i] + [xs[i]];
      if i == 0 {
        NewTableCounts(xs[0], hs[0], bloomLog2);
        LoadedFirst(hs);
      } else if log2 > 5 {
        LoadedLarge(hs[..i + 1]);
      } else {
        LoadedAgain(hs, i, xs[i], chains0, heads0, counts0);
      }
    }

    /** With memory for everything, adding items to an empty table expands its 32 buckets exactly when ten of the hash
        values agree modulo 32. */
    method AddAll(xs: seq<int>, ks: seq<K>, hs: seq<nat>, bloomLog2: nat)
      requires Valid() && order == [] && |xs| == |ks| == |hs|
      requires forall i :: 0 <= i < |xs| ==> 0 <= xs[i] < |keys| && hs[i] == hash(ks[i])
      requires forall i, j :: 0 <= i < j < |xs| ==> xs[i] != xs[j] && ks[i] != ks[j]
      modifies this
      ensures Valid() && order == xs && forall k :: k in Contents() <==> k in ks
      ensures xs != [] ==> log2 >= 5 && (log2 > 5 <==> Overloaded(hs))
    {
      hide Structure, KeysValid, Contents, Loaded;
      NoContents();
      var i := 0;
      while i < |xs|
        invariant 0 <= i <= |xs| && Valid() && order == xs[..i] && |keys| == old(|keys|)
        invariant forall k :: k in Contents() <==> k in ks[..i]
        invariant i > 0 ==> Loaded(hs[..i])
      {
        assert xs[i] !in xs[..i] && ks[i] !in ks[..i];
        AddNext(xs, ks, hs, i, bloomLog2);
        assert ks[..i + 1] == ks[..i] + [ks[i]];
        i := i + 1;
      }
      assert xs[..i] == xs && ks[..i] == ks && hs[..i] == hs;
      if i > 0 {
        LoadedEnd(hs);
      }
    }

    lemma NoContents()
      requires KeysValid() && order == []
      ensures forall k :: k !in Contents()
    {
    }

    lemma LoadedEnd(hs: seq<nat>)
      requires Loaded(hs)
      ensures log2 >= 5 && (log2 > 5 <==> Overloaded(hs))
    {
    }

    /** HASH_DELETE */
    method Delete(x: int) returns (ghost k: nat)
      requires Valid() && x in order
      modifies `next, `prev, `hhNext, `hhPrev, `head, `tail, `numItems, `heads, `counts, `order, `chains
      ensures Valid() && k < |old(order)| && old(order)[k] == x && order == Removed(old(order), k)
      ensures 0 <= x < |keys| && Contents() == old(Contents()) - {keys[x]}
    {
      hide ChainOk, TableHolds, Filtered, ListValid, KeysOk, ContentsOf, Removed, Leaves, Buckets, Placed, Pow;
      k :| 0 <= k < |order| && order[k] == x;
      ListOnce();
      ListHead();
      ghost var after := Removed(order, k);
      RemovedMembers(order, k);
      RemovedSize(order, k);
      KeyRemoved(keys, hashv, order, hash, x, after);
      TableParts(order, after);
      ghost var chains' := StoredLeaves(x, order, after);
      DeleteHandle(x, k, chains');
      ListHead();
      if head != NULL {
        HoldsNow(after);
      }
    }

    lemma TableParts(items: seq<int>, after: seq<int>)
      requires TableHolds(items) && forall x :: x in after ==> x in items
      ensures |heads| == |mults| == Pow(2, log2) && Buckets(hhNext, hhPrev, heads, counts, chains)
      ensures |hhNext| == |hashv| && Placed(hashv, chains, items) && Filtered(after)
    {
    }

    /** The links of the list are sorted. */
    method SortLinks(cmp: (int, int) -> int)
      requires ListValid()
      modifies `next, `prev, `head, `tail, `order
      ensures ListValid() && order == MergeSort.SortFrom(old(order), 1, cmp) && (head == NULL <==> old(head) == NULL)
      ensures |next| == old(|next|) && |prev| == old(|prev|)
    {
      hide ChainOk, MergeSort.SortFrom, ListIs;
      ListHead();
      ListAgree(next, prev, order, head);
      if head != NULL {
        var n0, p0 := next, prev;
        var n := new int[|n0|](i requires 0 <= i < |n0| => n0[i]);
        var p := new int[|p0|](i requires 0 <= i < |p0| => p0[i]);
        assert n[..] == n0 && p[..] == p0;
        head, tail := SortList(n, p, head, Hash, cmp, order);
        next, prev := n[..], p[..];
        order := MergeSort.SortFrom(order, 1, cmp);
        AgreeList(next, prev, order, head);
        ListHead();
      } else {
        SortNothing(cmp);
      }
    }

    /** HASH_SRT: the list is sorted and relinked, the buckets are as they were. */
    method Sort(cmp: (int, int) -> int)
      requires Valid()
      modifies `next, `prev, `head, `tail, `order
      ensures Valid() && order == MergeSort.SortFrom(old(order), 1, cmp) && multiset(order) == multiset(old(order))
      ensures Contents() == old(Contents())
    {
      hide ChainOk, Filtered, KeysOk, ContentsOf, Buckets, Placed, Pow, MergeSort.SortFrom, TableHolds, ListValid;
      ghost var before := order;
      MergeSort.SortElements(order, 1, cmp);
      SortLinks(cmp);
      Reordered(hashv, chains, before, order);
      if head != NULL {
        TableParts(before, order);
        HoldsNow(order);
      }
      KeyReordered(keys, hashv, before, hash, order);
    }

    /** The two counts that HASH_FSCK compares with the number of items. */
    lemma FsckCounts()
      requires Structure() && head != NULL
      ensures Sum(counts) == numItems == |order|
    {
      hide ChainOk, Placed, Once;
      ListOnce();
      FlatIsOrder(hhNext, hhPrev, heads, counts, chains, hashv, order);
      forall b | 0 <= b < |chains|
        ensures counts[b] == |chains[b]|
      {
        ChainRange(hhNext, hhPrev, chains[b], heads[b], counts[b]);
      }
      FlatSize(chains, counts);
    }
  }

  /** The list of HASH_SRT and the table's list are the same thing. */
  lemma ListAgree(next: seq<int>, prev: seq<int>, order: seq<int>, head: int)
    requires ChainOk(next, prev, order, head, |order|)
    ensures ListIs(next, prev, head, order, Hash)
  {
    forall i | 0 <= i < |order|
      ensures 0 <= order[i] < |next| == |prev|
      ensures next[order[i]] == NodeAt(order, i + 1) && prev[order[i]] == NodeAt(order, i - 1)
    {
      assert LinkedAt(next, prev, order, i);
    }
  }

  lemma AgreeList(next: seq<int>, prev: seq<int>, order: seq<int>, head: int)
    requires ListIs(next, prev, head, order, Hash)
    ensures ChainOk(next, prev, order, head, |order|)
  {
  }

  lemma Reordered(hashv: seq<nat>, chains: seq<seq<int>>, before: seq<int>, after: seq<int>)
    requires multiset(before) == multiset(after)
    ensures forall x :: x in before <==> x in after
    ensures Placed(hashv, chains, before) <==> Placed(hashv, chains, after)
  {
    hide Sorted;
    forall x: int
      ensures x in before <==> x in after
    {
      assert x in before <==> x in multiset(before);
      assert x in after <==> x in multiset(after);
    }
  }

  lemma NodeThere(chain: seq<int>, k: nat)
    requires k <= |chain|
    ensures NodeAt(chain, k) == if k < |chain| then chain[k] else NULL
  {
  }

  lemma InsertedLast(chain: seq<int>, x: int)
    ensures Inserted(chain, |chain|, x) == chain + [x]
  {
  }

  lemma InsertedFirst(x: int, cmp: (int, int) -> int)
    ensures Inserted([], Place([], x, cmp), x) == [x]
  {
  }

  lemma RemovedSize(chain: seq<int>, k: nat)
    requires k < |chain|
    ensures |Removed(chain, k)| == |chain| - 1
  {
  }

  lemma InsertedMembers(before: seq<int>, k: nat, x: int)
    requires k <= |before|
    ensures forall y :: y in Inserted(before, k, x) <==> y in before || y == x
    ensures |Inserted(before, k, x)| == |before| + 1
  {
    assert before == before[..k] + before[k..];
  }

  lemma InsertedPlace(before: seq<int>, k: nat, x: int)
    requires k <= |before|
    ensures |Inserted(before, k, x)| == |before| + 1 && Inserted(before, k, x)[k] == x
    ensures Removed(Inserted(before, k, x), k) == before
  {
    assert before == before[..k] + before[k..];
  }

  lemma FilterAdds(bloom: seq<bool>, hashv: seq<nat>, before: seq<int>, after: seq<int>, x: int)
    requires |bloom| > 0 && forall y :: y in before && 0 <= y < |hashv| ==> bloom[hashv[y] % |bloom|]
    requires 0 <= x < |hashv| && forall y :: y in after <==> y in before || y == x
    ensures var b := bloom[hashv[x] % |bloom| := true]; forall y :: y in after && 0 <= y < |hashv| ==> b[hashv[y] % |bloom|]
  {
  }

  /** An item outside all buckets, with its links cleared, leaves its bucket without changing it. */
  lemma LoneLeaves(hn: seq<int>, hp: seq<int>, heads: seq<int>, counts: seq<nat>, chains: seq<seq<int>>, hashv: seq<nat>,
                   items: seq<int>, x: int)
    requires Buckets(hn, hp, heads, counts, chains) && Placed(hashv, chains, items) && x !in items
    requires 0 <= x < |hn| == |hashv|
    ensures var n, p := hn[x := NULL], hp[x := NULL];
            |n| == |p| == |hn| && UnlinkNext(n, p, x) == n && UnlinkPrev(n, p, x) == p && Buckets(n, p, heads, counts, chains)
    ensures var b := BucketOf(hashv, x, |chains|); b < |heads| && heads[b] != x
  {
    hide ChainOk, Placed;
    Rehash(hashv, chains, items, x, 0);
    forall b | 0 <= b < |chains|
      ensures ChainOk(hn[x := NULL], hp[x := NULL], chains[b], heads[b], counts[b]) && heads[b] != x
    {
      ChainRange(hn, hp, chains[b], heads[b], counts[b]);
      ChainKept(hn, hp, hn[x := NULL], hp[x := NULL], chains[b], heads[b], counts[b]);
    }
  }

  lemma SameItems(hashv: seq<nat>, chains: seq<seq<int>>, before: seq<int>, after: seq<int>, x: int)
    requires forall y :: y in after <==> y in before || y == x
    ensures Placed(hashv, chains, before + [x]) <==> Placed(hashv, chains, after)
  {
    hide Sorted;
    assert forall y :: y in before + [x] <==> y in after;
  }

  /** The chains determine the head pointers and the counts. */
  lemma SameHeads(hn: seq<int>, hp: seq<int>, heads: seq<int>, counts: seq<nat>, hn0: seq<int>, hp0: seq<int>,
                  heads0: seq<int>, counts0: seq<nat>, chains: seq<seq<int>>)
    requires Buckets(hn, hp, heads, counts, chains) && Buckets(hn0, hp0, heads0, counts0, chains)
    ensures heads == heads0 && counts == counts0
  {
    hide ChainOk;
    forall b | 0 <= b < |chains|
      ensures heads[b] == heads0[b] && counts[b] == counts0[b]
    {
      ChainRange(hn, hp, chains[b], heads[b], counts[b]);
      ChainRange(hn0, hp0, chains[b], heads0[b], counts0[b]);
    }
  }

  lemma ChainOnce(hn: seq<int>, hp: seq<int>, heads: seq<int>, counts: seq<nat>, chains: seq<seq<int>>, b: nat)
    requires Buckets(hn, hp, heads, counts, chains) && b < |chains|
    ensures Once(chains[b])
  {
  }

  lemma LinksInRange(hn: seq<int>, hp: seq<int>, heads: seq<int>, counts: seq<nat>, chains: seq<seq<int>>, b: nat, k: nat)
    requires Buckets(hn, hp, heads, counts, chains) && b < |chains| && k < |chains[b]|
    ensures var x := chains[b][k];
            && 0 <= x < |hn| == |hp|
            && (hp[x] == NULL || 0 <= hp[x] < |hn|) && (hn[x] == NULL || 0 <= hn[x] < |hp|)
  {
    hide ChainOk;
    ChainLinks(hn, hp, chains[b], heads[b], counts[b], k);
  }

  lemma LastRemoved(chain: seq<int>, k: nat)
    requires Once(chain) && k < |chain|
    ensures chain[k] == Last(chain) <==> k == |chain| - 1
    ensures Last(Removed(chain, k)) == if k == |chain| - 1 then NodeAt(chain, k - 1) else Last(chain)
    ensures |Removed(chain, k)| == |chain| - 1
  {
    if k < |chain| - 1 {
      LastOnce(chain, k);
    }
  }

  lemma OnlyItem(next: seq<int>, prev: seq<int>, chain: seq<int>, head: int, k: nat)
    requires ChainOk(next, prev, chain, head, |chain|) && k < |chain|
    ensures 0 <= chain[k] < |next| == |prev|
    ensures prev[chain[k]] == NULL && next[chain[k]] == NULL <==> |chain| == 1
    ensures |chain| == 1 ==> Removed(chain, k) == []
  {
    hide ChainOk;
    ChainRange(next, prev, chain, head, |chain|);
    ChainLinks(next, prev, chain, head, |chain|, k);
  }

  lemma PowerStep(k: nat)
    ensures Pow(2, k + 1) == 2 * Pow(2, k) > 0
  {
  }

  lemma BucketSizes(hn: seq<int>, hp: seq<int>, heads: seq<int>, counts: seq<nat>, chains: seq<seq<int>>, hashv: seq<nat>,
                    items: seq<int>)
    requires Buckets(hn, hp, heads, counts, chains) && Placed(hashv, chains, items)
    ensures |heads| == |counts| == |chains| > 0 && |hn| == |hp|
  {
  }

  lemma ItemsInRange(hashv: seq<nat>, chains: seq<seq<int>>, items: seq<int>)
    requires Placed(hashv, chains, items)
    ensures forall x :: x in items ==> 0 <= x < |hashv|
  {
  }

  /** q is n / d rounded up. */
  predicate IsCeiling(n: nat, d: nat, q: nat) {
    q * d >= n && (q > 0 ==> (q - 1) * d < n)
  }

  function Ceiling(n: nat, d: nat): (q: nat)
    requires d > 0
    ensures IsCeiling(n, d, q)
  {
    n / d + (if n % d != 0 then 1 else 0)
  }

  lemma FlatHead(chains: seq<seq<int>>, i: nat)
    requires i < |chains|
    ensures Flat(chains[i..]) == chains[i] + Flat(chains[i + 1..])
  {
    assert chains[i..][1..] == chains[i + 1..];
  }

  lemma FlatNothing()
    ensures Flat([]) == []
  {
  }

  lemma OldLink(hn: seq<int>, hp: seq<int>, hn0: seq<int>, heads: seq<int>, counts: seq<nat>,
                chains: seq<seq<int>>, hashv: seq<nat>, done: seq<int>, rest: seq<int>)
    requires Expanding(hn, hp, hn0, heads, counts, chains, hashv, done, rest) && rest != []
    ensures 0 <= rest[0] < |hn| == |hn0| == |hashv| && hn[rest[0]] == hn0[rest[0]]
  {
    assert rest[0] in rest;
  }

  lemma EmptyBuckets(hn: seq<int>, hp: seq<int>, heads: seq<int>, counts: seq<nat>, chains: seq<seq<int>>, hashv: seq<nat>)
    requires |heads| == |counts| == |chains| > 0 && |hn| == |hp|
    requires forall b :: 0 <= b < |chains| ==> chains[b] == [] && heads[b] == NULL && counts[b] == 0
    ensures Buckets(hn, hp, heads, counts, chains) && Placed(hashv, chains, [])
  {
    hide ChainOk;
    EmptyChain(hn, hp);
  }

  lemma TwoToTheFifth()
    ensures Pow(2, 5) == 32
  {
    FastPowIsPow(2, 5);
  }

  function EmptyFilter(k: nat): (bits: seq<bool>)
    ensures |bits| == Pow(2, k) > 0 && forall b :: 0 <= b < |bits| ==> !bits[b]
  {
    seq(Pow(2, k), b => false)
  }

  function EmptyChains(n: nat): (chains: seq<seq<int>>)
    ensures |chains| == n && forall b :: 0 <= b < n ==> chains[b] == []
  {
    seq(n, b => [])
  }

  // ----- many items -----

  /** How many of the hash values fall into bucket b of the first 32. */
  ghost function Load(hs: seq<nat>, b: nat): nat {
    if |hs| == 0 then 0 else Load(hs[..|hs| - 1], b) + if hs[|hs| - 1] % 32 == b then 1 else 0
  }

  lemma LoadStep(hs: seq<nat>, i: nat, b: nat)
    requires i < |hs|
    ensures Load(hs[..i + 1], b) == Load(hs[..i], b) + if hs[i] % 32 == b then 1 else 0
  {
    assert hs[..i + 1][..i] == hs[..i];
  }

  ghost predicate Overloaded(hs: seq<nat>) {
    exists b: nat :: b < 32 && Load(hs, b) >= 10
  }

  lemma StillOverloaded(hs: seq<nat>, i: nat)
    requires i < |hs| && Overloaded(hs[..i])
    ensures Overloaded(hs[..i + 1])
  {
    var b: nat :| b < 32 && Load(hs[..i], b) >= 10;
    LoadStep(hs, i, b);
  }

  /** One item more without an expansion. */
  lemma LoadedMore(hs: seq<nat>, i: nat, counts0: seq<nat>, counts: seq<nat>)
    requires i < |hs| && |counts0| == |counts| == 32
    requires forall b :: 0 <= b < 32 ==> counts0[b] == Load(hs[..i], b)
    requires var b := hs[i] % 32; counts == counts0[b := counts0[b] + 1]
    ensures forall b :: 0 <= b < 32 ==> counts[b] == Load(hs[..i + 1], b)
  {
    forall b: nat | b < 32
      ensures counts[b] == Load(hs[..i + 1], b)
    {
      LoadStep(hs, i, b);
    }
  }
}
