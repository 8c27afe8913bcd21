/** What the zip helpers should produce: the slot that decides a row, the outcome of the row, and whole runs,
    for streams that may be finite, endless or failing. */
module ZipRows {

  // ----- the underlying iterators -----

  datatype Option<T> = None | Some(value: T)

  /** What a call of `next` on an underlying iterator can do. */
  datatype Step<V> = Yield(value: V) | Done | Throw(error: int)

  /** An underlying iterator: its answers to successive calls, and what closing it raises. */
  datatype Stream<!V> = Stream(steps: nat -> Step<V>, onClose: Option<int>)

  datatype Mode = Shortest | Longest | Strict
  datatype Error = Running | Mismatched | Raised(error: int)
  datatype Outcome<V> = Row(values: map<nat, V>) | Finished | Threw(error: Error)

  /** The stream yields at least r values. */
  ghost predicate Lives<V>(s: Stream<V>, r: nat) {
    forall k: nat :: k < r ==> s.steps(k).Yield?
  }

  /** The stream yields exactly k values and then reports that it is done. */
  ghost predicate EndsAt<V>(s: Stream<V>, k: nat) {
    Lives(s, k) && s.steps(k).Done?
  }

  /** The stream yields exactly k values and then throws. */
  ghost predicate BreaksAt<V>(s: Stream<V>, k: nat) {
    Lives(s, k) && s.steps(k).Throw?
  }

  ghost predicate EndedBefore<V>(s: Stream<V>, r: nat) {
    exists k: nat :: k < r && EndsAt(s, k)
  }

  /** A stream asked for value r yields it, ends or breaks. */
  lemma Asked<V>(s: Stream<V>, r: nat)
    requires Lives(s, r)
    ensures !EndedBefore(s, r)
    ensures Lives(s, r + 1) <==> s.steps(r).Yield?
    ensures EndsAt(s, r) <==> s.steps(r).Done?
    ensures BreaksAt(s, r) <==> s.steps(r).Throw?
    ensures EndedBefore(s, r + 1) <==> s.steps(r).Done?
  {
    if EndsAt(s, r) {
      assert r < r + 1 && EndsAt(s, r);
    }
  }

  /** A stream that has ended is out of all later rows. */
  lemma Ended<V>(s: Stream<V>, r: nat)
    requires EndedBefore(s, r)
    ensures EndedBefore(s, r + 1) && !Lives(s, r) && !Lives(s, r + 1) && !EndsAt(s, r) && !BreaksAt(s, r)
  {
    var k: nat :| k < r && EndsAt(s, k);
    assert k < r + 1 && EndsAt(s, k);
  }

  // ----- the outcome of a row -----

  /** Slot i stops row r: its stream throws, or it ends in the sense of the mode (any in shortest mode; the
      last open one in longest mode; behind a value in strict mode), or in strict mode it yields behind an end. */
  ghost predicate Decides<V>(streams: seq<Stream<V>>, mode: Mode, r: nat, i: nat)
    requires i < |streams|
  {
    || BreaksAt(streams[i], r)
    || (mode == Shortest && EndsAt(streams[i], r))
    || (mode == Longest && EndsAt(streams[i], r) && LastOpen(streams, r, i))
    || (mode == Strict && EndsAt(streams[i], r) && GivesBefore(streams, r, i))
    || (mode == Strict && Lives(streams[i], r + 1) && EndsBefore(streams, r, i))
  }

  ghost predicate LastOpen<V>(streams: seq<Stream<V>>, r: nat, i: nat) {
    forall j: nat :: j < |streams| ==> EndedBefore(streams[j], if j <= i then r + 1 else r)
  }

  ghost predicate GivesBefore<V>(streams: seq<Stream<V>>, r: nat, i: nat) {
    exists j: nat :: j < i && j < |streams| && Lives(streams[j], r + 1)
  }

  ghost predicate EndsBefore<V>(streams: seq<Stream<V>>, r: nat, i: nat) {
    exists j: nat :: j < i && j < |streams| && EndsAt(streams[j], r)
  }

  ghost predicate Undecided<V>(streams: seq<Stream<V>>, mode: Mode, r: nat, i: nat) {
    i <= |streams| && forall j: nat :: j < i ==> !Decides(streams, mode, r, j)
  }

  /** The first slot that decides row r; |streams| if there is none. */
  ghost function Decider<V>(streams: seq<Stream<V>>, mode: Mode, r: nat): (d: nat)
    ensures Undecided(streams, mode, r, d) && (d < |streams| ==> Decides(streams, mode, r, d))
  {
    FirstFrom(streams, mode, r, 0)
  }

  ghost function FirstFrom<V>(streams: seq<Stream<V>>, mode: Mode, r: nat, i: nat): (d: nat)
    requires Undecided(streams, mode, r, i)
    ensures Undecided(streams, mode, r, d) && (d < |streams| ==> Decides(streams, mode, r, d))
    decreases |streams| - i
  {
    if i == |streams| || Decides(streams, mode, r, i) then i else FirstFrom(streams, mode, r, i + 1)
  }

  lemma DeciderIs<V>(streams: seq<Stream<V>>, mode: Mode, r: nat, d: nat)
    requires Undecided(streams, mode, r, d) && (d < |streams| ==> Decides(streams, mode, r, d))
    ensures Decider(streams, mode, r) == d
  {
    hide Decides;
  }

  /** The error of closing the open streams from i on, from the last to the first: the first that occurs. */
  ghost function CloseError<V>(streams: seq<Stream<V>>, open: seq<bool>, i: nat): Option<int>
    requires |open| == |streams| && i <= |streams|
    decreases |streams| - i
  {
    if i == |streams| then None
    else
      var e := CloseError(streams, open, i + 1);
      if e.Some? then e else if open[i] then streams[i].onClose else None
  }

  /** It is the error of the last open stream that cannot be closed. */
  lemma {:induction false} CloseErrorIsLast<V>(streams: seq<Stream<V>>, open: seq<bool>, i: nat)
    requires |open| == |streams| && i <= |streams|
    ensures var e := CloseError(streams, open, i);
            if e.None? then forall j :: i <= j < |streams| && open[j] ==> streams[j].onClose.None?
            else exists j :: && i <= j < |streams| && open[j] && streams[j].onClose == e
                             && forall k :: j < k < |streams| && open[k] ==> streams[k].onClose.None?
    decreases |streams| - i
  {
    if i < |streams| {
      CloseErrorIsLast(streams, open, i + 1);
    }
  }

  ghost function AllBut(n: nat, d: nat): (open: seq<bool>)
    ensures |open| == n
  {
    seq(n, j => j != d)
  }

  /** What next() does for row r. Of several slots that could stop the row, the first one counts. */
  ghost function OutcomeAt<V>(streams: seq<Stream<V>>, pads: seq<V>, mode: Mode, r: nat): Outcome<V>
    requires |pads| == |streams|
  {
    var d := Decider(streams, mode, r);
    if d < |streams| then
      match streams[d].steps(r)
      case Throw(e) => Threw(Raised(e))
      case Yield(_) => Threw(Mismatched)
      case Done =>
        match mode
        case Longest => Finished
        case Strict => Threw(Mismatched)
        case Shortest =>
          var e := CloseError(streams, AllBut(|streams|, d), 0);
          if e.Some? then Threw(Raised(e.value)) else Finished
    else if GivesBefore(streams, r, |streams|) then Row(RowValues(streams, pads, r))
    else Finished
  }

  /** Every stream's value, or its padding. */
  ghost function RowValues<V>(streams: seq<Stream<V>>, pads: seq<V>, r: nat): map<nat, V>
    requires |pads| == |streams|
  {
    map j: nat | j < |streams| :: Cell(streams[j], pads[j], r)
  }

  ghost function Cell<V>(s: Stream<V>, pad: V, r: nat): V {
    if Lives(s, r + 1) then s.steps(r).value else pad
  }

  // ----- rows and runs -----

  /** Before row r, every stream goes on or, in longest mode, has ended. */
  ghost predicate Ready<V>(streams: seq<Stream<V>>, mode: Mode, r: nat) {
    forall i: nat :: i < |streams| ==> Lives(streams[i], r) || (mode == Longest && EndedBefore(streams[i], r))
  }

  /** There are at least r rows: some stream yields r values, and all do or, in longest mode, have ended. */
  ghost predicate HasRows<V>(streams: seq<Stream<V>>, mode: Mode, r: nat) {
    Ready(streams, mode, r) && (r > 0 ==> exists i: nat :: i < |streams| && Lives(streams[i], r))
  }

  lemma ReadySlot<V>(streams: seq<Stream<V>>, mode: Mode, r: nat, i: nat)
    requires Ready(streams, mode, r) && i < |streams|
    ensures Lives(streams[i], r) || EndedBefore(streams[i], r)
    ensures EndedBefore(streams[i], r) ==> mode == Longest
    ensures Lives(streams[i], r + 1) || EndsAt(streams[i], r) || BreaksAt(streams[i], r) || EndedBefore(streams[i], r)
    ensures EndedBefore(streams[i], r + 1) <==> EndsAt(streams[i], r) || EndedBefore(streams[i], r)
    ensures !(Lives(streams[i], r + 1) && EndedBefore(streams[i], r + 1))
    ensures !(Lives(streams[i], r + 1) && (EndsAt(streams[i], r) || BreaksAt(streams[i], r)))
  {
    if Lives(streams[i], r) {
      Asked(streams[i], r);
    } else {
      Ended(streams[i], r);
    }
  }

  /** Next gives row r exactly when there is one more row; for any streams. */
  lemma RowIff<V>(streams: seq<Stream<V>>, pads: seq<V>, mode: Mode, r: nat)
    requires |pads| == |streams| && Ready(streams, mode, r)
    ensures OutcomeAt(streams, pads, mode, r).Row? <==> HasRows(streams, mode, r + 1)
  {
    hide Lives, EndsAt, BreaksAt, EndedBefore, RowValues, CloseError, Ready, Decider;
    var d := Decider(streams, mode, r);
    if OutcomeAt(streams, pads, mode, r).Row? {
      NoDecider(streams, mode, r);
    } else if HasRows(streams, mode, r + 1) {
      RowUndecided(streams, mode, r, d);
    }
  }

  /** A slot that ends and one that yields, in either order. */
  lemma Unlike<V>(streams: seq<Stream<V>>, r: nat, i: nat, j: nat)
    requires i < |streams| && j < |streams| && Lives(streams[j], r + 1)
    ensures EndsAt(streams[i], r) && j < i ==> GivesBefore(streams, r, i)
    ensures EndsAt(streams[i], r) && i < j ==> EndsBefore(streams, r, j)
  {
  }

  lemma NotLastOpen<V>(streams: seq<Stream<V>>, r: nat, i: nat, j: nat)
    requires j < |streams| && Lives(streams[j], r + 1)
    ensures !LastOpen(streams, r, i)
  {
    Asked(streams[j], r + 1);
    Asked(streams[j], r);
  }

  /** Without a deciding slot and with a value, there is a row. */
  lemma NoDecider<V>(streams: seq<Stream<V>>, mode: Mode, r: nat)
    requires Ready(streams, mode, r) && Undecided(streams, mode, r, |streams|) && GivesBefore(streams, r, |streams|)
    ensures HasRows(streams, mode, r + 1)
  {
    hide Lives, EndsAt, BreaksAt, EndedBefore, LastOpen;
    var j: nat :| j < |streams| && Lives(streams[j], r + 1);
    ReadySlot(streams, mode, r, j);
    forall i: nat | i < |streams|
      ensures Lives(streams[i], r + 1) || (mode == Longest && EndedBefore(streams[i], r + 1))
    {
      ReadySlot(streams, mode, r, i);
      assert !Decides(streams, mode, r, i) && !Decides(streams, mode, r, j);
      Unlike(streams, r, i, j);
    }
  }

  lemma RowUndecided<V>(streams: seq<Stream<V>>, mode: Mode, r: nat, d: nat)
    requires Ready(streams, mode, r) && HasRows(streams, mode, r + 1)
    ensures d < |streams| ==> !Decides(streams, mode, r, d)
    ensures GivesBefore(streams, r, |streams|)
  {
    hide Lives, EndsAt, BreaksAt, EndedBefore;
    var j: nat :| j < |streams| && Lives(streams[j], r + 1);
    ReadySlot(streams, mode, r, j);
    forall i: nat | i < |streams|
      ensures EndsAt(streams[i], r) ==> mode == Longest
      ensures !BreaksAt(streams[i], r)
    {
      ReadySlot(streams, mode, r, i);
      ReadySlot2(streams, mode, r, i);
    }
    NotLastOpen(streams, r, d, j);
  }

  lemma ReadySlot2<V>(streams: seq<Stream<V>>, mode: Mode, r: nat, i: nat)
    requires Ready(streams, mode, r) && Ready(streams, mode, r + 1) && i < |streams|
    ensures !BreaksAt(streams[i], r) && (EndsAt(streams[i], r) ==> mode == Longest)
  {
    ReadySlot(streams, mode, r, i);
    assert Lives(streams[i], r + 1) || (mode == Longest && EndedBefore(streams[i], r + 1));
    if Lives(streams[i], r) {
      Asked(streams[i], r);
    }
  }

  /** The first r calls of next give rows. */
  ghost predicate AllRows<V>(streams: seq<Stream<V>>, pads: seq<V>, mode: Mode, r: nat)
    requires |pads| == |streams|
  {
    forall q: nat :: q < r ==> OutcomeAt(streams, pads, mode, q).Row?
  }

  lemma FewerRows<V>(streams: seq<Stream<V>>, mode: Mode, r: nat)
    requires HasRows(streams, mode, r + 1)
    ensures HasRows(streams, mode, r)
  {
    forall i: nat | i < |streams|
      ensures Lives(streams[i], r) || (mode == Longest && EndedBefore(streams[i], r))
      ensures Lives(streams[i], r + 1) ==> Lives(streams[i], r)
    {
      if !Lives(streams[i], r + 1) {
        var k: nat :| k < r + 1 && EndsAt(streams[i], k);
        assert k < r ==> EndedBefore(streams[i], r);
      }
    }
  }

  /** How many rows there are, for any streams: the first r calls of next give rows exactly when every stream
      yields r values (shortest and strict), or when one does and no other has failed before (longest). */
  lemma {:induction false} RowsOfRun<V>(streams: seq<Stream<V>>, pads: seq<V>, mode: Mode, r: nat)
    requires |pads| == |streams|
    ensures AllRows(streams, pads, mode, r) <==> HasRows(streams, mode, r)
  {
    hide OutcomeAt, HasRows, EndedBefore;
    if r == 0 {
      NoRowsYet(streams, mode);
    } else {
      RowsOfRun(streams, pads, mode, r - 1);
      if HasRows(streams, mode, r) {
        FewerRows(streams, mode, r - 1);
      }
      if HasRows(streams, mode, r - 1) {
        RowsReady(streams, mode, r - 1);
        RowIff(streams, pads, mode, r - 1);
      }
    }
  }

  lemma NoRowsYet<V>(streams: seq<Stream<V>>, mode: Mode)
    ensures HasRows(streams, mode, 0)
  {
  }

  lemma RowsReady<V>(streams: seq<Stream<V>>, mode: Mode, r: nat)
    requires HasRows(streams, mode, r)
    ensures Ready(streams, mode, r)
  {
  }

  // ----- calls of next on a new helper -----

  /** Within the first k calls, the rows came to their end, or failed. */
  ghost predicate OverWith<V>(streams: seq<Stream<V>>, pads: seq<V>, mode: Mode, k: nat, finished: bool)
    requires |pads| == |streams|
  {
    exists q: nat :: q < k && AllRows(streams, pads, mode, q) && !OutcomeAt(streams, pads, mode, q).Row?
                     && OutcomeAt(streams, pads, mode, q).Finished? == finished
  }

  /** What call number k gives: its row as long as there are rows, then the outcome of the first row that is none,
      and from then on the end again or, after an error, the complaint that the helper is running. */
  ghost function CallOutcome<V>(streams: seq<Stream<V>>, pads: seq<V>, mode: Mode, k: nat): Outcome<V>
    requires |pads| == |streams|
  {
    if AllRows(streams, pads, mode, k) then OutcomeAt(streams, pads, mode, k)
    else if OverWith(streams, pads, mode, k, true) then Finished
    else Threw(Running)
  }

  /** The rows can only be over in one way. */
  lemma OverOnce<V>(streams: seq<Stream<V>>, pads: seq<V>, mode: Mode, k: nat)
    requires |pads| == |streams|
    ensures AllRows(streams, pads, mode, k) ==> !OverWith(streams, pads, mode, k, true) && !OverWith(streams, pads, mode, k, false)
    ensures !(OverWith(streams, pads, mode, k, true) && OverWith(streams, pads, mode, k, false))
  {
    hide OutcomeAt;
  }

  /** One call more. */
  lemma CallIs<V>(streams: seq<Stream<V>>, pads: seq<V>, mode: Mode, k: nat)
    requires |pads| == |streams|
    ensures AllRows(streams, pads, mode, k) ==>
              var o := OutcomeAt(streams, pads, mode, k);
              && CallOutcome(streams, pads, mode, k) == o
              && (o.Row? ==> AllRows(streams, pads, mode, k + 1))
              && (!o.Row? ==> OverWith(streams, pads, mode, k + 1, o.Finished?))
    ensures OverWith(streams, pads, mode, k, true) ==>
              CallOutcome(streams, pads, mode, k) == Finished && OverWith(streams, pads, mode, k + 1, true)
    ensures OverWith(streams, pads, mode, k, false) ==>
              CallOutcome(streams, pads, mode, k) == Threw(Running) && OverWith(streams, pads, mode, k + 1, false)
  {
    hide OutcomeAt;
    OverOnce(streams, pads, mode, k);
    if AllRows(streams, pads, mode, k) && !OutcomeAt(streams, pads, mode, k).Row? {
      assert k < k + 1;
    }
  }

  /** The number of rows of any run: call k gives a row exactly when there are k + 1 rows. */
  lemma CallIsRow<V>(streams: seq<Stream<V>>, pads: seq<V>, mode: Mode, k: nat)
    requires |pads| == |streams|
    ensures CallOutcome(streams, pads, mode, k).Row? <==> HasRows(streams, mode, k + 1)
    ensures HasRows(streams, mode, k + 1) ==> CallOutcome(streams, pads, mode, k) == Row(RowValues(streams, pads, k))
  {
    hide HasRows, RowValues, Decider, CloseError;
    RowsOfRun(streams, pads, mode, k + 1);
    RowsOfRun(streams, pads, mode, k);
  }

  /** What a row holds: the value that each stream gives in this call, the padding for a stream that has ended. */
  lemma CallValues<V>(streams: seq<Stream<V>>, pads: seq<V>, mode: Mode, k: nat, j: nat)
    requires |pads| == |streams| && j < |streams| && CallOutcome(streams, pads, mode, k).Row?
    ensures var row := CallOutcome(streams, pads, mode, k).values;
            && j in row && (forall i: nat :: i in row ==> i < |streams|)
            && if forall i: nat :: i <= k ==> streams[j].steps(i).Yield? then streams[j].steps(k) == Yield(row[j])
               else mode == Longest && EndedBefore(streams[j], k + 1) && row[j] == pads[j]
  {
    hide OutcomeAt, CallOutcome, HasRows, EndedBefore;
    CallIsRow(streams, pads, mode, k);
    RowsReady(streams, mode, k + 1);
    assert Lives(streams[j], k + 1) || (mode == Longest && EndedBefore(streams[j], k + 1));
    assert Lives(streams[j], k + 1) <==> forall i: nat :: i <= k ==> streams[j].steps(i).Yield?;
  }

  // ----- streams of known lengths -----

  ghost predicate HaveLengths<V>(streams: seq<Stream<V>>, lengths: seq<nat>) {
    |lengths| == |streams| && forall i: nat :: i < |streams| ==> EndsAt(streams[i], lengths[i])
  }

  lemma OneLength<V>(s: Stream<V>, k: nat, r: nat)
    requires EndsAt(s, k)
    ensures Lives(s, r) <==> r <= k
    ensures EndsAt(s, r) <==> r == k
    ensures EndedBefore(s, r) <==> k < r
    ensures !BreaksAt(s, r)
  {
    if k < r {
      assert EndedBefore(s, r);
    }
  }

  /** With finite streams: min-length rows in shortest and strict mode, max-length rows in longest mode. */
  lemma RowsOfLengths<V>(streams: seq<Stream<V>>, lengths: seq<nat>, pads: seq<V>, mode: Mode, k: nat)
    requires |pads| == |streams| > 0 && HaveLengths(streams, lengths)
    ensures CallOutcome(streams, pads, mode, k).Row? <==>
            if mode == Longest then exists i :: 0 <= i < |lengths| && k < lengths[i]
            else forall i :: 0 <= i < |lengths| ==> k < lengths[i]
  {
    hide Lives, EndsAt, EndedBefore, BreaksAt, CallOutcome, HasRows;
    CallIsRow(streams, pads, mode, k);
    RowsByLength(streams, lengths, mode, k + 1);
  }

  lemma RowsByLength<V>(streams: seq<Stream<V>>, lengths: seq<nat>, mode: Mode, r: nat)
    requires HaveLengths(streams, lengths) && r > 0 && streams != []
    ensures HasRows(streams, mode, r) <==>
            if mode == Longest then exists i :: 0 <= i < |lengths| && r <= lengths[i]
            else forall i :: 0 <= i < |lengths| ==> r <= lengths[i]
  {
    hide Lives, EndsAt, EndedBefore, BreaksAt;
    forall i: nat | i < |streams|
      ensures (Lives(streams[i], r) <==> r <= lengths[i]) && (EndedBefore(streams[i], r) <==> lengths[i] < r)
    {
      OneLength(streams[i], lengths[i], r);
    }
    assert Lives(streams[0], r) <==> r <= lengths[0];
    assert forall i :: 0 <= i < |lengths| && r <= lengths[i] ==> Lives(streams[i], r);
  }

  /** The first call that gives no row, with finite streams. In shortest mode the first of the shortest streams ends
      the run, and the run fails only if another stream cannot be closed; in longest mode the run ends; in strict
      mode it ends if all streams have the same length and is a mismatch otherwise. */
  lemma EndOfLengths<V>(streams: seq<Stream<V>>, lengths: seq<nat>, pads: seq<V>, mode: Mode, k: nat)
    requires |pads| == |streams| > 0 && HaveLengths(streams, lengths) && k in lengths
    requires forall i :: 0 <= i < |lengths| ==> if mode == Longest then lengths[i] <= k else k <= lengths[i]
    ensures mode == Shortest ==>
              exists d: nat :: && d < |lengths| && lengths[d] == k && (forall j :: 0 <= j < d ==> lengths[j] > k)
                               && CallOutcome(streams, pads, mode, k) ==
                                  (var e := CloseError(streams, AllBut(|streams|, d), 0);
                                   if e.Some? then Threw(Raised(e.value)) else Finished)
    ensures mode == Longest ==> CallOutcome(streams, pads, mode, k) == Finished
    ensures mode == Strict ==>
              CallOutcome(streams, pads, mode, k) ==
              if forall i :: 0 <= i < |lengths| ==> lengths[i] == k then Finished else Threw(Mismatched)
  {
    hide Lives, EndsAt, EndedBefore, BreaksAt, OutcomeAt, CloseError, Decides;
    RowsUpTo(streams, lengths, pads, mode, k);
    match mode {
      case Shortest => ShortestEnd(streams, lengths, pads, k);
      case Longest => LongestEnd(streams, lengths, pads, k);
      case Strict => StrictEnd(streams, lengths, pads, k);
    }
  }

  lemma RowsUpTo<V>(streams: seq<Stream<V>>, lengths: seq<nat>, pads: seq<V>, mode: Mode, k: nat)
    requires |pads| == |streams| && HaveLengths(streams, lengths) && k in lengths
    requires mode != Longest ==> forall i :: 0 <= i < |lengths| ==> k <= lengths[i]
    ensures AllRows(streams, pads, mode, k)
  {
    hide HaveLengths, AllRows, HasRows;
    RowsOfRun(streams, pads, mode, k);
    if k == 0 {
      NoRowsYet(streams, mode);
    } else {
      SameCount(streams, lengths);
      RowsByLength(streams, lengths, mode, k);
    }
  }

  /** What each slot does at the row where some stream ends. */
  lemma AtLength<V>(streams: seq<Stream<V>>, lengths: seq<nat>, k: nat, i: nat)
    requires HaveLengths(streams, lengths) && i < |streams|
    ensures |lengths| == |streams| && !BreaksAt(streams[i], k) && (EndsAt(streams[i], k) <==> lengths[i] == k)
    ensures (Lives(streams[i], k + 1) <==> k < lengths[i]) && (EndedBefore(streams[i], k + 1) <==> lengths[i] <= k)
    ensures (EndedBefore(streams[i], k) <==> lengths[i] < k) && (EndsAt(streams[i], k) ==> streams[i].steps(k).Done?)
  {
    OneLength(streams[i], lengths[i], k);
    OneLength(streams[i], lengths[i], k + 1);
  }

  lemma ShortestEnd<V>(streams: seq<Stream<V>>, lengths: seq<nat>, pads: seq<V>, k: nat)
    requires |pads| == |streams| && HaveLengths(streams, lengths) && k in lengths
    requires forall i :: 0 <= i < |lengths| ==> k <= lengths[i]
    ensures exists d: nat :: && d < |lengths| && lengths[d] == k && (forall j :: 0 <= j < d ==> lengths[j] > k)
                             && OutcomeAt(streams, pads, Shortest, k) ==
                                (var e := CloseError(streams, AllBut(|streams|, d), 0);
                                 if e.Some? then Threw(Raised(e.value)) else Finished)
  {
    hide Lives, EndsAt, EndedBefore, BreaksAt, CloseError, AllBut, RowValues, HaveLengths;
    var d := Decider(streams, Shortest, k);
    forall i: nat | i < |streams|
      ensures |lengths| == |streams| && (Decides(streams, Shortest, k, i) <==> lengths[i] == k)
    {
      AtLength(streams, lengths, k, i);
    }
    var i :| 0 <= i < |lengths| && lengths[i] == k;
    SameCount(streams, lengths);
    assert Decides(streams, Shortest, k, i);
    AtLength(streams, lengths, k, d);
  }

  lemma SameCount<V>(streams: seq<Stream<V>>, lengths: seq<nat>)
    requires HaveLengths(streams, lengths)
    ensures |lengths| == |streams|
  {
  }

  lemma LongestEnd<V>(streams: seq<Stream<V>>, lengths: seq<nat>, pads: seq<V>, k: nat)
    requires |pads| == |streams| && HaveLengths(streams, lengths) && k in lengths
    requires forall i :: 0 <= i < |lengths| ==> lengths[i] <= k
    ensures OutcomeAt(streams, pads, Longest, k) == Finished
  {
    hide Lives, EndsAt, EndedBefore, BreaksAt, CloseError, AllBut, RowValues, HaveLengths, LastOpen;
    SameCount(streams, lengths);
    forall i: nat | i < |streams|
      ensures !BreaksAt(streams[i], k) && !Lives(streams[i], k + 1) && (EndsAt(streams[i], k) ==> streams[i].steps(k).Done?)
    {
      AtLength(streams, lengths, k, i);
    }
  }

  lemma StrictEnd<V>(streams: seq<Stream<V>>, lengths: seq<nat>, pads: seq<V>, k: nat)
    requires |pads| == |streams| && HaveLengths(streams, lengths) && k in lengths
    requires forall i :: 0 <= i < |lengths| ==> k <= lengths[i]
    ensures OutcomeAt(streams, pads, Strict, k) ==
            if forall i :: 0 <= i < |lengths| ==> lengths[i] == k then Finished else Threw(Mismatched)
  {
    hide Lives, EndsAt, EndedBefore, BreaksAt, CloseError, AllBut, RowValues, HaveLengths;
    SameCount(streams, lengths);
    forall i: nat | i < |streams|
      ensures !BreaksAt(streams[i], k) && (Lives(streams[i], k + 1) <==> k < lengths[i])
      ensures (EndsAt(streams[i], k) <==> lengths[i] == k) && (EndsAt(streams[i], k) ==> streams[i].steps(k).Done?)
      ensures Lives(streams[i], k + 1) ==> streams[i].steps(k).Yield?
    {
      AtLength(streams, lengths, k, i);
      LastStep(streams[i], k);
    }
    var i :| 0 <= i < |lengths| && lengths[i] == k;
    if exists j: nat :: j < |lengths| && lengths[j] > k {
      var j: nat :| j < |lengths| && lengths[j] > k;
      Unlike(streams, k, i, j);
      assert Decides(streams, Strict, k, if j < i then i else j);
    }
  }

  lemma LastStep<V>(s: Stream<V>, k: nat)
    ensures Lives(s, k + 1) ==> s.steps(k).Yield?
  {
  }
}
