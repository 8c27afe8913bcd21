/** Setting up the zip helpers: opening the iterators, collecting the padding, and, in the keyed form,
    filtering the keys in place. When something fails, all iterators recorded so far are closed. */
module ZipSetup {
  import opened Zip
  import opened ZipRows

  // ----- opening the iterators of zip -----

  /** What one round of the iterable of iterables gives: an iterator; something that is not one; an error of
      its own `next`; or an iterator whose `next` property cannot be read. */
  datatype Item<!V> =
    | Good(stream: Stream<V>)
    | Bad(error: int)
    | Broken(error: int)
    | Unreadable(stream: Stream<V>, error: int)

  /** The padding iterator: its answers, then done; and what closing it raises. It may also be impossible to
      get, or to read its `next` property. */
  datatype Padding<V> =
    | NoPadding
    | NoIterator(error: int)
    | NoNext(error: int)
    | Padding(steps: seq<Step<V>>, onClose: Option<int>)

  /** How opening ended, and what became of every iterator involved; `stray` is one that was obtained but
      never recorded, and so is still open. */
  datatype Setup<!V> = Setup(
    error: Option<int>,
    streams: seq<Stream<V>>, pads: seq<V>,
    iters: seq<Ending>, iterables: Ending, padding: Option<Ending>, stray: Option<Stream<V>>)

  function All(n: nat, e: Ending): (endings: seq<Ending>)
    ensures |endings| == n && forall i :: 0 <= i < n ==> endings[i] == e
  {
    seq(n, i => e)
  }

  /** How many items are iterators before the first that is not. */
  ghost function GoodItems<V>(items: seq<Item<V>>): (n: nat)
    ensures n <= |items| && (forall i :: 0 <= i < n ==> items[i].Good?) && (n < |items| ==> !items[n].Good?)
  {
    if items != [] && items[0].Good? then 1 + GoodItems(items[1..]) else 0
  }

  lemma GoodItemsAre<V>(items: seq<Item<V>>, n: nat)
    requires n <= |items| && (forall i :: 0 <= i < n ==> items[i].Good?) && (n < |items| ==> !items[n].Good?)
    ensures n == GoodItems(items)
  {
  }

  /** The iterators recorded before the first bad item. */
  ghost predicate Recorded<V>(items: seq<Item<V>>, streams: seq<Stream<V>>) {
    |streams| == GoodItems(items) && forall i :: 0 <= i < |streams| ==> streams[i] == items[i].stream
  }

  /** How reading the iterable of iterables ends. */
  ghost predicate Opened<V>(items: seq<Item<V>>, r: Setup<V>) {
    var n := GoodItems(items);
    && Recorded(items, r.streams) && r.pads == [] && r.padding == None
    && if n == |items| then r.error == None && r.iterables == Reported && r.iters == All(n, Open) && r.stray == None
       else && r.error == Some(items[n].error) && r.iters == All(n, Closed)
            && r.iterables == (if items[n].Broken? then Failed else Closed)
            && r.stray == (if items[n].Unreadable? then Some(items[n].stream) else None)
  }

  /** The catch block of zip(). */
  method CloseOpened<V>(streams: seq<Stream<V>>, iterables0: Ending, padding0: Option<Ending>, error: int,
                        stray: Option<Stream<V>>)
    returns (r: Setup<V>)
    ensures r.error == Some(error) && r.streams == streams && r.pads == [] && r.stray == stray
    ensures r.iters == All(|streams|, Closed)
    ensures r.iterables == (if iterables0 == Open then Closed else iterables0)
    ensures r.padding == (if padding0 == Some(Open) then Some(Closed) else padding0)
  {
    var iters := All(|streams|, Open);
    var i := |streams|;
    while i > 0
      invariant 0 <= i <= |streams| == |iters|
      invariant forall j :: 0 <= j < |iters| ==> iters[j] == if j < i then Open else Closed
    {
      i := i - 1;
      iters := iters[i := Closed];
    }
    assert iters == All(|streams|, Closed);
    r := Setup(Some(error), streams, [], iters,
               if iterables0 == Open then Closed else iterables0,
               if padding0 == Some(Open) then Some(Closed) else padding0, stray);
  }

  /** The first part of zip(): reading the iterable of iterables. */
  method OpenAll<V>(items: seq<Item<V>>) returns (r: Setup<V>)
    ensures Opened(items, r)
  {
    hide GoodItems;
    var streams: seq<Stream<V>> := [];
    var count := 0;
    while count < |items|
      invariant count <= |items| && |streams| == count
      invariant forall i :: 0 <= i < count ==> items[i].Good? && streams[i] == items[i].stream
    {
      if !items[count].Good? {
        GoodItemsAre(items, count);
        match items[count] {
          case Broken(e) => r := CloseOpened(streams, Failed, None, e, None);
          case Bad(e) => r := CloseOpened(streams, Open, None, e, None);
          case Unreadable(stream, e) => r := CloseOpened(streams, Open, None, e, Some(stream));
        }
        return;
      }
      streams := streams + [items[count].stream];
      count := count + 1;
    }
    GoodItemsAre(items, count);
    r := Setup(None, streams, [], All(count, Open), Reported, None, None);
  }

  // ----- the padding of zip -----

  function PaddingStep<V>(p: Padding<V>, i: nat): Step<V>
    requires p.Padding?
  {
    if i < |p.steps| then p.steps[i] else Done
  }

  /** The padding iterator's first n answers are values. */
  ghost predicate YieldsUpTo<V>(p: Padding<V>, n: nat)
    requires p.Padding?
    ensures YieldsUpTo(p, n) && n > 0 ==> PaddingStep(p, n - 1).Yield?
  {
    forall k: nat :: k < n ==> PaddingStep(p, k).Yield?
  }

  /** The first n padding values; undefined once the padding iterator has ended. */
  ghost function PadsOf<V>(p: Padding<V>, n: nat, undefined: V): (pads: seq<V>)
    ensures |pads| == n
  {
    seq(n, i requires 0 <= i < n =>
      if p.Padding? && YieldsUpTo(p, i + 1) then PaddingStep(p, i).value else undefined)
  }

  lemma YieldsAre<V>(p: Padding<V>, i: nat)
    requires p.Padding?
    ensures YieldsUpTo(p, i + 1) <==> i < |p.steps| && forall k :: 0 <= k <= i ==> p.steps[k].Yield?
  {
    if YieldsUpTo(p, i + 1) {
      assert PaddingStep(p, i).Yield?;
      forall k: nat | k <= i
        ensures p.steps[k].Yield?
      {
        assert PaddingStep(p, k).Yield?;
      }
    }
  }

  /** Padding value i is the i-th value of the padding iterator, as long as it has only given values. */
  lemma PadsAre<V>(p: Padding<V>, n: nat, undefined: V, i: nat)
    requires i < n
    ensures PadsOf(p, n, undefined)[i] ==
            if p.Padding? && i < |p.steps| && (forall k :: 0 <= k <= i ==> p.steps[k].Yield?) then p.steps[i].value
            else undefined
  {
    hide YieldsUpTo;
    if p.Padding? {
      YieldsAre(p, i);
    }
  }

  /** How reading the padding for count iterators ends: closed because enough values were read, reported
      done, or failed; only a failure and a failing close are errors. */
  ghost predicate PaddingRead<V>(p: Padding<V>, count: nat, undefined: V, error: Option<int>, pads: seq<V>, ending: Ending)
    requires p.Padding?
  {
    && (error.None? ==> pads == PadsOf(p, count, undefined))
    && match ending
       case Open => false
       case Closed => YieldsUpTo(p, count) && error == p.onClose
       case Reported => error.None? && exists k: nat :: k < count && YieldsUpTo(p, k) && PaddingStep(p, k).Done?
       case Failed => error.Some? && exists k: nat :: k < count && YieldsUpTo(p, k) && PaddingStep(p, k) == Throw(error.value)
  }

  /** The second part of zip(): the padding values. */
  method ReadPadding<V>(padding: Padding<V>, count: nat, undefined: V)
    returns (error: Option<int>, pads: seq<V>, ending: Ending)
    requires padding.Padding?
    ensures PaddingRead(padding, count, undefined, error, pads, ending)
  {
    pads, error, ending := [], None, Open;
    var i := 0;
    var done := false;
    while i < count && !done
      invariant 0 <= i <= count && |pads| == i && ending == (if done then Reported else Open)
      invariant YieldsUpTo(padding, i) && (done ==> i < count && PaddingStep(padding, i).Done?)
      invariant pads == PadsOf(padding, i, undefined)
      decreases count - i, !done
    {
      match PaddingStep(padding, i) {
        case Throw(e) =>
          return Some(e), pads, Failed;
        case Done =>
          done := true;
          ending := Reported;
        case Yield(v) =>
          YieldsMore(padding, i);
          pads := pads + [v];
          assert pads == PadsOf(padding, i + 1, undefined);
          i := i + 1;
      }
    }
    if !done {
      ending := Closed;
      if padding.onClose.Some? {
        return Some(padding.onClose.value), pads, Closed;
      }
    }
    ghost var n := i;
    while i < count
      invariant n <= i <= count && |pads| == i && (!done ==> n == count)
      invariant pads == PadsOf(padding, i, undefined)
    {
      assert !YieldsUpTo(padding, n + 1);
      YieldsLess(padding, n + 1, i + 1);
      pads := pads + [undefined];
      assert pads == PadsOf(padding, i + 1, undefined);
      i := i + 1;
    }
  }

  lemma YieldsMore<V>(p: Padding<V>, n: nat)
    requires p.Padding? && YieldsUpTo(p, n) && PaddingStep(p, n).Yield?
    ensures YieldsUpTo(p, n + 1)
  {
  }

  lemma YieldsLess<V>(p: Padding<V>, n: nat, m: nat)
    requires p.Padding? && !YieldsUpTo(p, n) && n <= m
    ensures !YieldsUpTo(p, m)
  {
  }

  /** What zip() promises before it returns its helper: without an error all iterators are open, the iterable
      has been read to its end, and the padding iterator has been read to its end or closed; with one,
      whatever was recorded is closed. */
  ghost predicate SetUp<V>(items: seq<Item<V>>, padding: Padding<V>, undefined: V, r: Setup<V>) {
    if GoodItems(items) < |items| then Opened(items, r)
    else
      && Recorded(items, r.streams) && r.iterables == Reported && r.stray == None
      && r.iters == All(|items|, if r.error.None? then Open else Closed)
      && match padding
         case NoPadding => r.error == None && r.padding == None && r.pads == PadsOf(padding, |items|, undefined)
         case NoIterator(e) => r.error == Some(e) && r.padding == None
         case NoNext(e) => r.error == Some(e) && r.padding == Some(Closed)
         case Padding(_, _) =>
           r.padding.Some? && PaddingRead(padding, |items|, undefined, r.error, r.pads, r.padding.value)
  }

  /** zip() up to the construction of the helper. */
  method OpenZip<V>(items: seq<Item<V>>, padding: Padding<V>, undefined: V) returns (r: Setup<V>)
    ensures SetUp(items, padding, undefined, r)
  {
    r := OpenAll(items);
    if r.error.Some? {
      return;
    }
    match padding {
      case NoPadding =>
        r := r.(pads := seq(|items|, i => undefined));
        assert r.pads == PadsOf(padding, |items|, undefined);
      case NoIterator(e) => r := CloseOpened(r.streams, Reported, None, e, None);
      case NoNext(e) => r := CloseOpened(r.streams, Reported, Some(Open), e, None);
      case Padding(_, _) =>
        var error, pads, ending := ReadPadding(padding, |items|, undefined);
        if error.Some? {
          r := CloseOpened(r.streams, Reported, Some(ending), error.value, None);
        } else {
          r := r.(pads := pads, padding := Some(ending));
        }
    }
  }

  /** Nothing is open anywhere. */
  ghost predicate NothingOpen<V>(r: Setup<V>) {
    && r.stray == None && r.iterables != Open && r.padding != Some(Open)
    && forall i :: 0 <= i < |r.iters| ==> r.iters[i] != Open
  }

  /** A failed zip() leaves nothing open, unless what failed was reading an iterator's `next` property: that
      iterator has not been recorded yet and stays open. */
  lemma FailedZip<V>(items: seq<Item<V>>, padding: Padding<V>, undefined: V, r: Setup<V>)
    requires SetUp(items, padding, undefined, r) && r.error.Some?
    ensures NothingOpen(r) <==> var n := GoodItems(items); !(n < |items| && items[n].Unreadable?)
  {
  }

  // ----- the keys of zipKeyed -----

  /** What looking up a key gives: nothing to zip (not enumerable, or undefined), an iterator, an error, or
      an iterator whose `next` property cannot be read. */
  datatype Lookup<!V> = Skip | Found(stream: Stream<V>) | Fails(error: int) | HasNoNext(stream: Stream<V>, error: int)

  predicate Fine<V>(l: Lookup<V>) {
    l.Skip? || l.Found?
  }

  /** The keys that count. */
  ghost function Kept<K(!new), V>(keys: seq<K>, lookup: K -> Lookup<V>): (kept: seq<K>) {
    if |keys| == 0 then []
    else Kept(keys[..|keys| - 1], lookup) + if lookup(keys[|keys| - 1]).Found? then [keys[|keys| - 1]] else []
  }

  lemma KeptStep<K(!new), V>(keys: seq<K>, n: nat, lookup: K -> Lookup<V>)
    requires n < |keys|
    ensures Kept(keys[..n + 1], lookup) ==
            Kept(keys[..n], lookup) + if lookup(keys[n]).Found? then [keys[n]] else []
  {
    assert keys[..n + 1][..n] == keys[..n];
  }

  /** The iterators of the kept keys, in the same order. */
  ghost predicate Aligned<K(!new), V>(kept: seq<K>, lookup: K -> Lookup<V>, iters: seq<Stream<V>>) {
    |iters| == |kept| && forall i :: 0 <= i < |kept| ==> lookup(kept[i]) == Found(iters[i])
  }

  /** n keys of s have been looked at; what is left of the array is the kept ones and the rest. */
  ghost predicate Filtering<K(!new), V>(s: seq<K>, n: nat, now: seq<K>, i: nat, lookup: K -> Lookup<V>, iters: seq<Stream<V>>) {
    && n <= |s| && |now| - i == |s| - n && i <= |now|
    && now[..i] == Kept(s[..n], lookup) && now[i..] == s[n..] && Aligned(now[..i], lookup, iters)
    && forall x :: 0 <= x < n ==> Fine(lookup(s[x]))
  }

  lemma FilterKeep<K(!new), V>(s: seq<K>, n: nat, now: seq<K>, i: nat, lookup: K -> Lookup<V>, iters: seq<Stream<V>>)
    requires Filtering(s, n, now, i, lookup, iters) && i < |now|
    ensures n < |s| && now[i] == s[n]
    ensures lookup(now[i]).Found? ==> Filtering(s, n + 1, now, i + 1, lookup, iters + [lookup(now[i]).stream])
  {
    hide Kept;
    assert now[i] == now[i..][0] == s[n..][0];
    KeptStep(s, n, lookup);
    assert now[..i + 1] == now[..i] + [now[i]];
    assert now[i + 1..] == now[i..][1..] == s[n..][1..];
  }

  lemma FilterDrop<K(!new), V>(s: seq<K>, n: nat, now: seq<K>, i: nat, lookup: K -> Lookup<V>, iters: seq<Stream<V>>)
    requires Filtering(s, n, now, i, lookup, iters) && i < |now| && lookup(now[i]).Skip?
    ensures Filtering(s, n + 1, now[..i] + now[i + 1..], i, lookup, iters)
  {
    hide Kept;
    assert now[i] == now[i..][0] == s[n..][0];
    KeptStep(s, n, lookup);
    assert (now[..i] + now[i + 1..])[..i] == now[..i];
    assert (now[..i] + now[i + 1..])[i..] == now[i..][1..] == s[n..][1..];
  }

  lemma FilterEnds<K(!new), V>(s: seq<K>, n: nat, now: seq<K>, lookup: K -> Lookup<V>, iters: seq<Stream<V>>)
    requires Filtering(s, n, now, |now|, lookup, iters)
    ensures now == Kept(s, lookup) && Aligned(now, lookup, iters) && forall x :: 0 <= x < |s| ==> Fine(lookup(s[x]))
  {
    assert now[..|now|] == now && s[..|s|] == s;
  }

  /** The first key whose lookup fails. */
  ghost predicate FirstFailure<K(!new), V>(s: seq<K>, lookup: K -> Lookup<V>, n: nat) {
    n < |s| && !Fine(lookup(s[n])) && forall x :: 0 <= x < n ==> Fine(lookup(s[x]))
  }

  /** How the splicing loop ends: without an error with the kept keys and their open iterators in the same
      order, otherwise with the error of the first key that fails and all iterators closed, its own included. */
  ghost predicate Spliced<K(!new), V>(s: seq<K>, lookup: K -> Lookup<V>, error: Option<int>, now: seq<K>,
                                     iters: seq<Stream<V>>, endings: seq<Ending>) {
    match error
    case None =>
      && now == Kept(s, lookup) && Aligned(now, lookup, iters) && endings == All(|iters|, Open)
      && (forall x :: 0 <= x < |s| ==> Fine(lookup(s[x])))
    case Some(e) =>
      && endings == All(|iters|, Closed)
      && exists n: nat :: FirstFailure(s, lookup, n) && e == lookup(s[n]).error
                          && Aligned(Kept(s[..n], lookup), lookup, if lookup(s[n]).HasNoNext? && iters != [] then iters[..|iters| - 1] else iters)
                          && (lookup(s[n]).HasNoNext? ==> iters != [] && iters[|iters| - 1] == lookup(s[n]).stream)
  }

  lemma FilterFails<K(!new), V>(s: seq<K>, n: nat, now: seq<K>, i: nat, lookup: K -> Lookup<V>, iters: seq<Stream<V>>)
    requires Filtering(s, n, now, i, lookup, iters) && i < |now| && !Fine(lookup(now[i]))
    ensures FirstFailure(s, lookup, n) && now[i] == s[n] && Aligned(Kept(s[..n], lookup), lookup, iters)
  {
    assert now[i] == now[i..][0] == s[n..][0];
  }

  /** The splicing loop of zipKeyed(), on the array of keys: keys that do not count are removed in place,
      the others keep their order and stay aligned with their iterators. */
  method FilterKeys<K(!new), V>(keys: array<K>, count0: nat, lookup: K -> Lookup<V>)
    returns (error: Option<int>, count: nat, iters: seq<Stream<V>>, endings: seq<Ending>)
    requires count0 <= keys.Length
    modifies keys
    ensures count <= keys.Length && Spliced(old(keys[..count0]), lookup, error, keys[..count], iters, endings)
  {
    hide Kept, Aligned, Filtering, FirstFailure;
    ghost var s := keys[..count0];
    error, iters := None, [];
    count := count0;
    var i := 0;
    ghost var n := 0;
    FilterStarts(s, lookup);
    while i < count
      invariant 0 <= i <= count <= keys.Length && Filtering(s, n, keys[..count], i, lookup, iters)
      decreases count - i
    {
      var key := keys[i];
      assert key == keys[..count][i];
      FilterKeep(s, n, keys[..count], i, lookup, iters);
      match lookup(key) {
        case Fails(e) =>
          FilterFails(s, n, keys[..count], i, lookup, iters);
          error, endings := Some(e), All(|iters|, Closed);
          return;
        case HasNoNext(stream, e) =>
          FilterFails(s, n, keys[..count], i, lookup, iters);
          assert (iters + [stream])[..|iters|] == iters;
          iters := iters + [stream];
          error, endings := Some(e), All(|iters|, Closed);
          return;
        case Found(stream) =>
          iters := iters + [stream];
          i := i + 1;
        case Skip =>
          FilterDrop(s, n, keys[..count], i, lookup, iters);
          ghost var next := keys[..i] + keys[i + 1..count];
          assert next == keys[..count][..i] + keys[..count][i + 1..];
          ShiftDown(keys, i, count);
          count := count - 1;
          assert keys[..count] == next;
      }
      n := n + 1;
    }
    FilterEnds(s, n, keys[..count], lookup, iters);
    endings := All(|iters|, Open);
  }

  lemma FilterStarts<K(!new), V>(s: seq<K>, lookup: K -> Lookup<V>)
    ensures Filtering(s, 0, s, 0, lookup, [])
  {
  }

  /** Key i is taken out of the first count keys; those behind it move down by one place. */
  method ShiftDown<K>(keys: array<K>, i: nat, count: nat)
    requires i < count <= keys.Length
    modifies keys
    ensures keys[..count - 1] == old(keys[..i] + keys[i + 1..count])
  {
    ghost var s := keys[..];
    for j := i + 1 to count
      invariant keys[..j - 1] == s[..i] + s[i + 1..j] && keys[j..] == s[j..]
    {
      assert keys[j] == keys[j..][0];
      keys[j - 1] := keys[j];
      assert s[i + 1..j + 1] == s[i + 1..j] + [s[j]];
      assert keys[j + 1..] == keys[j..][1..];
    }
  }

  /** What reading a key of the padding object gives. */
  datatype Property<V> = Value(value: V) | Getter(error: int)

  /** The padding of the keyed form, which is read key by key: the values, or the error of the first key
      that cannot be read, upon which all iterators are closed. */
  method KeyedPads<K(!new), V>(keys: array<K>, count: nat, padding: K -> Property<V>)
    returns (error: Option<int>, pads: seq<V>, endings: seq<Ending>)
    requires count <= keys.Length
    ensures error.None? ==> |pads| == count && endings == All(count, Open)
                            && forall i :: 0 <= i < count ==> padding(keys[i]) == Value(pads[i])
    ensures error.Some? ==> endings == All(count, Closed)
                            && exists i :: 0 <= i < count && padding(keys[i]) == Getter(error.value)
                                           && forall j :: 0 <= j < i ==> padding(keys[j]).Value?
  {
    error, pads := None, [];
    for i := 0 to count
      invariant |pads| == i && forall j :: 0 <= j < i ==> padding(keys[j]) == Value(pads[j])
    {
      match padding(keys[i]) {
        case Value(v) => pads := pads + [v];
        case Getter(e) => return Some(e), pads, All(count, Closed);
      }
    }
    endings := All(count, Open);
  }

  /** Filtering keeps the order: it may be done in parts. */
  lemma {:induction false} KeptAppend<K(!new), V>(a: seq<K>, b: seq<K>, lookup: K -> Lookup<V>)
    ensures Kept(a + b, lookup) == Kept(a, lookup) + Kept(b, lookup)
    decreases |b|
  {
    if |b| == 0 {
      assert a + b == a;
    } else {
      KeptAppend(a, b[..|b| - 1], lookup);
      assert (a + b)[..|a + b| - 1] == a + b[..|b| - 1];
    }
  }

  lemma {:induction false} KeptAre<K(!new), V>(keys: seq<K>, lookup: K -> Lookup<V>)
    ensures forall k :: k in Kept(keys, lookup) <==> k in keys && lookup(k).Found?
  {
    if |keys| > 0 {
      KeptAre(keys[..|keys| - 1], lookup);
      assert keys == keys[..|keys| - 1] + [keys[|keys| - 1]];
    }
  }

  ghost predicate NoRepeats<K(!new)>(keys: seq<K>) {
    forall i, j :: 0 <= i < j < |keys| ==> keys[i] != keys[j]
  }

  /** Property keys are all different, and so are those that are kept. */
  lemma {:induction false} KeptDiffer<K(!new), V>(keys: seq<K>, lookup: K -> Lookup<V>)
    requires NoRepeats(keys)
    ensures NoRepeats(Kept(keys, lookup))
  {
    if |keys| > 0 {
      KeptDiffer(keys[..|keys| - 1], lookup);
      KeptAre(keys[..|keys| - 1], lookup);
    }
  }

  /** The assignments results[key] = ... of the keyed helper, slot by slot: the object has exactly the keys, and
      every key carries the value of its own iterator. */
  method KeyedRow<K(==,!new), V>(keys: array<K>, count: nat, values: map<nat, V>) returns (row: map<K, V>)
    requires count <= keys.Length && NoRepeats(keys[..count]) && forall i: nat :: i in values <==> i < count
    ensures forall k :: k in row <==> k in keys[..count]
    ensures forall i :: 0 <= i < count ==> keys[i] in row && row[keys[i]] == values[i]
  {
    row := map[];
    for i := 0 to count
      invariant forall k :: k in row <==> k in keys[..i]
      invariant forall j :: 0 <= j < i ==> keys[j] in row && row[keys[j]] == values[j]
    {
      assert keys[..i + 1] == keys[..i] + [keys[i]];
      assert forall j :: 0 <= j < i ==> keys[..count][j] != keys[..count][i];
      row := row[keys[i] := values[i]];
    }
  }
}
