/** The iterator-zip helper: a state machine over underlying iterators that must each be ended
    exactly once. The keyed form runs the same machine with keys instead of indices. */
module Zip {
  import opened ZipRows

  /** How an underlying iterator has ended, if it has. */
  datatype Ending = Open | Reported | Failed | Closed

  // ----- counting open iterators -----

  ghost function CountSet(iters: seq<bool>): (n: nat) {
    if |iters| == 0 then 0 else CountSet(iters[..|iters| - 1]) + if iters[|iters| - 1] then 1 else 0
  }

  lemma {:induction false} CountUpdate(iters: seq<bool>, i: nat)
    requires i < |iters| && iters[i]
    ensures CountSet(iters[i := false]) == CountSet(iters) - 1
  {
    var n := |iters| - 1;
    if i < n {
      CountUpdate(iters[..n], i);
      assert iters[i := false][..n] == iters[..n][i := false];
    } else {
      assert iters[i := false][..n] == iters[..n];
    }
  }

  lemma {:induction false} CountZero(iters: seq<bool>)
    ensures CountSet(iters) == 0 <==> forall i :: 0 <= i < |iters| ==> !iters[i]
  {
    if |iters| > 0 {
      var n := |iters| - 1;
      CountZero(iters[..n]);
      assert forall i :: 0 <= i < n ==> iters[..n][i] == iters[i];
    }
  }

  lemma {:induction false} CountAll(iters: seq<bool>)
    requires forall i :: 0 <= i < |iters| ==> iters[i]
    ensures CountSet(iters) == |iters|
  {
    if |iters| > 0 {
      CountAll(iters[..|iters| - 1]);
    }
  }

  // ----- one row, slot by slot -----

  /** A slot before row n: open, stepped n times and always yielding, or, in longest mode only, ended by then. */
  ghost predicate SlotStarts<V>(s: Stream<V>, mode: Mode, n: nat, step: nat, ending: Ending) {
    if ending == Open then step == n && Lives(s, n) else mode == Longest && ending == Reported && EndedBefore(s, n)
  }

  ghost predicate RowStarts<V>(streams: seq<Stream<V>>, mode: Mode, n: nat, steps: seq<nat>, endings: seq<Ending>) {
    && |streams| == |steps| == |endings|
    && forall j :: 0 <= j < |streams| ==> SlotStarts(streams[j], mode, n, steps[j], endings[j])
  }

  lemma SlotAt<V>(streams: seq<Stream<V>>, mode: Mode, n: nat, steps: seq<nat>, endings: seq<Ending>, j: nat)
    requires RowStarts(streams, mode, n, steps, endings) && j < |streams|
    ensures |streams| == |steps| == |endings| && SlotStarts(streams[j], mode, n, steps[j], endings[j])
    ensures endings[j] == Open ==> Lives(streams[j], n) && steps[j] == n
    ensures endings[j] != Open ==> EndedBefore(streams[j], n) && mode == Longest && endings[j] == Reported
  {
  }

  lemma StartsReady<V>(streams: seq<Stream<V>>, mode: Mode, n: nat, steps: seq<nat>, endings: seq<Ending>)
    requires RowStarts(streams, mode, n, steps, endings)
    ensures Ready(streams, mode, n)
  {
    forall i: nat | i < |streams|
      ensures Lives(streams[i], n) || (mode == Longest && EndedBefore(streams[i], n))
    {
      assert SlotStarts(streams[i], mode, n, steps[i], endings[i]);
    }
  }

  /** How often the iterator of a slot has been stepped after row n, if the row visited the slot. */
  function StepsAfter(step: nat, ending: Ending, visited: bool): nat {
    if visited && ending == Open then step + 1 else step
  }

  /** How it has ended: an iterator that had ended before stays as it is; one that was visited has answered; what
      is open then is closed unless the helper goes on. */
  function EndingAfter<V>(s: Stream<V>, n: nat, ending: Ending, visited: bool, goesOn: bool): Ending {
    if ending != Open then ending
    else if visited && s.steps(n).Done? then Reported
    else if visited && s.steps(n).Throw? then Failed
    else if goesOn then Open
    else Closed
  }

  /** The iterators after row n has visited the slots before `visited`. */
  ghost predicate After<V>(streams: seq<Stream<V>>, n: nat, steps0: seq<nat>, endings0: seq<Ending>, steps: seq<nat>,
                           endings: seq<Ending>, visited: nat, goesOn: bool) {
    && |streams| == |steps0| == |endings0| == |steps| == |endings|
    && forall j :: 0 <= j < |streams| ==>
         && steps[j] == StepsAfter(steps0[j], endings0[j], j < visited)
         && endings[j] == EndingAfter(streams[j], n, endings0[j], j < visited, goesOn)
  }

  ghost predicate Tracks(iters: seq<bool>, endings: seq<Ending>) {
    |iters| == |endings| && forall j :: 0 <= j < |iters| ==> (iters[j] <==> endings[j] == Open)
  }

  lemma AfterNothing<V>(streams: seq<Stream<V>>, n: nat, steps: seq<nat>, endings: seq<Ending>)
    requires |streams| == |steps| == |endings|
    ensures After(streams, n, steps, endings, steps, endings, 0, true)
  {
  }

  /** Slot i is empty. */
  lemma AfterEmpty<V>(streams: seq<Stream<V>>, n: nat, steps0: seq<nat>, endings0: seq<Ending>, steps: seq<nat>,
                      endings: seq<Ending>, i: nat)
    requires After(streams, n, steps0, endings0, steps, endings, i, true) && i < |streams| && endings[i] != Open
    ensures After(streams, n, steps0, endings0, steps, endings, i + 1, true) && endings0[i] != Open
  {
  }

  /** Slot i is stepped. */
  lemma AfterStep<V>(streams: seq<Stream<V>>, n: nat, steps0: seq<nat>, endings0: seq<Ending>, steps: seq<nat>,
                     endings: seq<Ending>, i: nat)
    requires After(streams, n, steps0, endings0, steps, endings, i, true) && i < |streams| && endings[i] == Open
    ensures |steps| == |endings| == |streams| == |endings0| && endings0[i] == Open && steps[i] == steps0[i]
    ensures var e := match streams[i].steps(n) case Done => Reported case Throw(_) => Failed case Yield(_) => Open;
            After(streams, n, steps0, endings0, steps[i := steps[i] + 1], endings[i := e], i + 1, true)
  {
  }

  /** closeall ends the row. */
  lemma AfterClose<V>(streams: seq<Stream<V>>, n: nat, steps0: seq<nat>, endings0: seq<Ending>, steps: seq<nat>,
                      endings: seq<Ending>, visited: nat, closed: seq<Ending>)
    requires After(streams, n, steps0, endings0, steps, endings, visited, true) && |closed| == |endings|
    requires forall j :: 0 <= j < |closed| ==> closed[j] == if endings[j] == Open then Closed else endings[j]
    ensures After(streams, n, steps0, endings0, steps, closed, visited, false)
  {
  }

  /** With no iterator open there is nothing to close. */
  lemma AfterAll<V>(streams: seq<Stream<V>>, n: nat, steps0: seq<nat>, endings0: seq<Ending>, steps: seq<nat>,
                    endings: seq<Ending>, visited: nat)
    requires After(streams, n, steps0, endings0, steps, endings, visited, true)
    requires forall j :: 0 <= j < |endings| ==> endings[j] != Open
    ensures After(streams, n, steps0, endings0, steps, endings, visited, false)
  {
  }

  /** Every iterator ends once: what had ended is neither stepped nor closed, what is open is stepped at most once
      in a row, and when the helper does not go on nothing is open. */
  lemma EndsOnce<V>(streams: seq<Stream<V>>, n: nat, steps0: seq<nat>, endings0: seq<Ending>, steps: seq<nat>,
                    endings: seq<Ending>, visited: nat, goesOn: bool, j: nat)
    requires After(streams, n, steps0, endings0, steps, endings, visited, goesOn) && j < |streams|
    ensures |steps| == |endings| == |streams| == |steps0| == |endings0|
    ensures endings0[j] != Open ==> endings[j] == endings0[j] && steps[j] == steps0[j]
    ensures steps0[j] <= steps[j] <= steps0[j] + 1
    ensures endings[j] == Open ==> goesOn
  {
  }

  /** An open slot that was visited has given a value, one that was not will be asked. */
  lemma OpenAfter<V>(streams: seq<Stream<V>>, mode: Mode, n: nat, steps0: seq<nat>, endings0: seq<Ending>, steps: seq<nat>,
                     endings: seq<Ending>, i: nat, j: nat)
    requires RowStarts(streams, mode, n, steps0, endings0) && After(streams, n, steps0, endings0, steps, endings, i, true)
    requires j < |streams| && (j < i ==> !BreaksAt(streams[j], n))
    ensures j < |endings|
    ensures j < i ==> (endings[j] == Open <==> Lives(streams[j], n + 1)) && (endings[j] != Open <==> EndedBefore(streams[j], n + 1))
    ensures j >= i ==> (endings[j] == Open <==> Lives(streams[j], n)) && (endings[j] != Open <==> EndedBefore(streams[j], n))
    ensures endings[j] != Open && mode != Longest ==> j < i && EndsAt(streams[j], n)
  {
    hide Lives, EndsAt, BreaksAt, EndedBefore;
    SlotAt(streams, mode, n, steps0, endings0, j);
    if endings0[j] == Open {
      Asked(streams[j], n);
    } else {
      Ended(streams[j], n);
    }
  }

  lemma NoBreak<V>(streams: seq<Stream<V>>, mode: Mode, n: nat, i: nat, j: nat)
    requires Undecided(streams, mode, n, i) && j < i
    ensures j < |streams| && !BreaksAt(streams[j], n) && !(mode == Shortest && EndsAt(streams[j], n))
    ensures mode == Strict ==> !(EndsAt(streams[j], n) && GivesBefore(streams, n, j))
    ensures mode == Strict ==> !(Lives(streams[j], n + 1) && EndsBefore(streams, n, j))
  {
    assert !Decides(streams, mode, n, j);
  }

  /** In longest mode, no slot is left exactly when slot i was the last open one. */
  lemma LastOpenCounted<V>(streams: seq<Stream<V>>, n: nat, steps0: seq<nat>, endings0: seq<Ending>, steps: seq<nat>,
                           endings: seq<Ending>, iters: seq<bool>, i: nat)
    requires RowStarts(streams, Longest, n, steps0, endings0) && i < |streams|
    requires After(streams, n, steps0, endings0, steps, endings, i + 1, true) && Tracks(iters, endings)
    requires Undecided(streams, Longest, n, i) && EndsAt(streams[i], n)
    ensures CountSet(iters) == 0 <==> LastOpen(streams, n, i)
    ensures LastOpen(streams, n, i) ==> forall j :: 0 <= j < |endings| ==> endings[j] != Open
  {
    hide Lives, EndsAt, EndedBefore, BreaksAt, Decides, CountSet;
    CountZero(iters);
    forall j: nat | j < |streams|
      ensures j < |iters| && (!iters[j] <==> EndedBefore(streams[j], if j <= i then n + 1 else n))
    {
      if j < i {
        NoBreak(streams, Longest, n, i, j);
      }
      EndsNotBreaks(streams[i], n);
      OpenAfter(streams, Longest, n, steps0, endings0, steps, endings, i + 1, j);
    }
  }

  lemma EndsNotBreaks<V>(s: Stream<V>, n: nat)
    requires EndsAt(s, n)
    ensures !BreaksAt(s, n)
  {
  }

  /** In shortest mode, all slots but the one that has ended are open. */
  lemma OthersOpen<V>(streams: seq<Stream<V>>, n: nat, steps0: seq<nat>, endings0: seq<Ending>, steps: seq<nat>,
                      endings: seq<Ending>, iters: seq<bool>, i: nat)
    requires RowStarts(streams, Shortest, n, steps0, endings0) && i < |streams|
    requires After(streams, n, steps0, endings0, steps, endings, i + 1, true) && Tracks(iters, endings)
    requires Undecided(streams, Shortest, n, i) && EndsAt(streams[i], n)
    ensures iters == AllBut(|streams|, i)
  {
    hide Lives, EndsAt, EndedBefore, BreaksAt, Decides;
    forall j: nat | j < |streams|
      ensures j < |iters| && (iters[j] <==> j != i)
    {
      if j < i {
        NoBreak(streams, Shortest, n, i, j);
      }
      EndsNotBreaks(streams[i], n);
      OpenAfter(streams, Shortest, n, steps0, endings0, steps, endings, i + 1, j);
      ExactlyEnds(streams[i], n);
    }
  }

  lemma ExactlyEnds<V>(s: Stream<V>, n: nat)
    requires EndsAt(s, n)
    ensures !Lives(s, n + 1)
  {
  }

  // ----- counters and results -----

  /** What the counters of next() say about the slots before i. */
  ghost predicate Counters<V>(streams: seq<Stream<V>>, n: nat, i: nat, values: nat, dones: nat) {
    (values > 0 <==> GivesBefore(streams, n, i)) && (dones > 0 <==> EndsBefore(streams, n, i))
  }

  lemma CountersStep<V>(streams: seq<Stream<V>>, n: nat, i: nat, values: nat, dones: nat, values': nat, dones': nat)
    requires Counters(streams, n, i, values, dones) && i < |streams|
    requires values' == (if Lives(streams[i], n + 1) then values + 1 else values)
    requires dones' == (if EndsAt(streams[i], n) then dones + 1 else dones)
    ensures Counters(streams, n, i + 1, values', dones')
  {
    hide Lives, EndsAt;
    BeforeStep(streams, n, i);
  }

  lemma BeforeStep<V>(streams: seq<Stream<V>>, n: nat, i: nat)
    requires i < |streams|
    ensures GivesBefore(streams, n, i + 1) <==> GivesBefore(streams, n, i) || Lives(streams[i], n + 1)
    ensures EndsBefore(streams, n, i + 1) <==> EndsBefore(streams, n, i) || EndsAt(streams[i], n)
  {
    hide Lives, EndsAt;
    if GivesBefore(streams, n, i + 1) {
      var j: nat :| j < i + 1 && j < |streams| && Lives(streams[j], n + 1);
      assert j == i || GivesBefore(streams, n, i);
    }
    if EndsBefore(streams, n, i + 1) {
      var j: nat :| j < i + 1 && j < |streams| && EndsAt(streams[j], n);
      assert j == i || EndsBefore(streams, n, i);
    }
  }

  /** The results collected from the slots before i. */
  ghost predicate Results<V>(streams: seq<Stream<V>>, pads: seq<V>, mode: Mode, n: nat, i: nat, results: map<nat, V>) {
    && |pads| == |streams| && (forall j: nat :: j in results ==> j < i && j < |streams| && results[j] == Cell(streams[j], pads[j], n))
    && (forall j: nat :: j < i && j < |streams| && (mode == Longest || Lives(streams[j], n + 1)) ==> j in results)
  }

  lemma ResultAdded<V>(streams: seq<Stream<V>>, pads: seq<V>, mode: Mode, n: nat, i: nat, results: map<nat, V>, v: V)
    requires Results(streams, pads, mode, n, i, results) && i < |streams| && v == Cell(streams[i], pads[i], n)
    ensures Results(streams, pads, mode, n, i + 1, results[i := v])
  {
    hide Lives, Cell;
  }

  lemma ResultSkipped<V>(streams: seq<Stream<V>>, pads: seq<V>, mode: Mode, n: nat, i: nat, results: map<nat, V>)
    requires Results(streams, pads, mode, n, i, results) && i < |streams| && mode != Longest && !Lives(streams[i], n + 1)
    ensures Results(streams, pads, mode, n, i + 1, results)
  {
    hide Lives, Cell;
  }

  /** A row has a result for every slot. */
  lemma FullRow<V>(streams: seq<Stream<V>>, pads: seq<V>, mode: Mode, n: nat, results: map<nat, V>)
    requires Results(streams, pads, mode, n, |streams|, results) && Ready(streams, mode, n + 1)
    ensures results == RowValues(streams, pads, n)
  {
    hide Lives, Cell, EndedBefore;
    forall j: nat | j < |streams|
      ensures j in results
    {
      assert Lives(streams[j], n + 1) || (mode == Longest && EndedBefore(streams[j], n + 1));
    }
  }

  /** The slots at the end of a row are those at the start of the next. */
  lemma RowTurns<V>(streams: seq<Stream<V>>, mode: Mode, n: nat, steps0: seq<nat>, endings0: seq<Ending>, steps: seq<nat>,
                    endings: seq<Ending>)
    requires RowStarts(streams, mode, n, steps0, endings0) && Ready(streams, mode, n + 1)
    requires After(streams, n, steps0, endings0, steps, endings, |streams|, true)
    ensures RowStarts(streams, mode, n + 1, steps, endings)
  {
    hide Lives, EndedBefore;
    forall j: nat | j < |streams|
      ensures SlotStarts(streams[j], mode, n + 1, steps[j], endings[j])
    {
      assert Lives(streams[j], n + 1) || (mode == Longest && EndedBefore(streams[j], n + 1));
      SlotAt(streams, mode, n, steps0, endings0, j);
      if endings0[j] == Open {
        Asked(streams[j], n);
      } else {
        Ended(streams[j], n);
      }
    }
  }

  // ----- the helper -----

  class Zipper<V> {
    const mode: Mode
    const streams: seq<Stream<V>>
    const pads: seq<V>

    /** 0 new, 1 suspended, 2 executing, 3 complete */
    var state: nat
    var alive: int
    /** Which slots of the JavaScript array still hold an iterator. */
    var iters: seq<bool>

    /** The underlying iterators themselves: how often each was stepped and how it ended. */
    var steps: seq<nat>
    var endings: seq<Ending>

    /** The number of rows returned so far. */
    ghost var rows: nat

    ghost predicate Sizes()
      reads `iters, `steps, `endings
    {
      |pads| == |streams| == |iters| == |steps| == |endings|
    }

    /** No underlying iterator is left open. */
    ghost predicate NoneOpen()
      requires Sizes()
      reads `iters, `steps, `endings
    {
      forall i :: 0 <= i < |streams| ==> !iters[i] && endings[i] != Open
    }

    ghost predicate Valid()
      reads this
    {
      && Sizes() && state <= 3
      && (state <= 1 ==>
            RowStarts(streams, mode, rows, steps, endings) && Tracks(iters, endings) && alive == CountSet(iters))
      && (state >= 2 ==> NoneOpen())
    }

    constructor (streams: seq<Stream<V>>, pads: seq<V>, mode: Mode)
      requires |pads| == |streams|
      ensures Valid() && state == 0 && rows == 0
      ensures this.streams == streams && this.pads == pads && this.mode == mode
      ensures forall i :: 0 <= i < |streams| ==> steps[i] == 0 && endings[i] == Open
    {
      this.streams, this.pads, this.mode := streams, pads, mode;
      state, alive, rows := 0, |streams|, 0;
      iters := seq(|streams|, i => true);
      steps := seq(|streams|, i => 0);
      endings := seq(|streams|, i => Open);
      new;
      CountAll(iters);
    }

    /** call(iter, nexts[i]): only an open iterator may be stepped. */
    method CallNext(i: nat) returns (step: Step<V>)
      requires Sizes() && i < |streams| && endings[i] == Open
      modifies `steps, `endings
      ensures step == streams[i].steps(old(steps[i]))
      ensures steps == old(steps)[i := old(steps[i]) + 1]
      ensures endings == old(endings)[i := if step.Done? then Reported else if step.Throw? then Failed else Open]
    {
      step := streams[i].steps(steps[i]);
      steps := steps[i := steps[i] + 1];
      endings := endings[i := if step.Done? then Reported else if step.Throw? then Failed else Open];
    }

    /** close(iter): only an open iterator may be closed. */
    method Close(i: nat) returns (ex: Option<int>)
      requires Sizes() && i < |streams| && endings[i] == Open
      modifies `endings
      ensures ex == streams[i].onClose
      ensures endings == old(endings)[i := Closed]
    {
      endings := endings[i := Closed];
      ex := streams[i].onClose;
    }

    /** closeall: closes what is open, from the last to the first; the first error is kept. */
    method CloseAll() returns (ex: Option<int>)
      requires Sizes() && Tracks(iters, endings)
      modifies `endings, `iters
      ensures Sizes() && NoneOpen()
      ensures forall i :: 0 <= i < |streams| ==> endings[i] == if old(endings[i]) == Open then Closed else old(endings[i])
      ensures ex == CloseError(streams, old(iters), 0)
    {
      ex := None;
      var i := |streams|;
      while i > 0
        invariant 0 <= i <= |streams| && Sizes()
        invariant forall j :: 0 <= j < i ==> iters[j] == old(iters[j]) && endings[j] == old(endings[j])
        invariant forall j :: i <= j < |streams| ==>
                    !iters[j] && endings[j] == if old(endings[j]) == Open then Closed else old(endings[j])
        invariant ex == CloseError(streams, old(iters), i)
      {
        i := i - 1;
        var present := iters[i];
        iters := iters[i := false];
        var e := None;
        if present {
          e := Close(i);
        }
        if ex.None? {
          ex := e;
        }
      }
    }

    /** How things stand while row `rows` is being collected, before slot i; steps0 and endings0 are the
        iterators at the start of the row. */
    ghost predicate Collecting(i: nat, results: map<nat, V>, values: nat, dones: nat, steps0: seq<nat>, endings0: seq<Ending>)
      reads this
    {
      && Iterating(i, steps0, endings0) && Undecided(streams, mode, rows, i)
      && Results(streams, pads, mode, rows, i, results) && Counters(streams, rows, i, values, dones)
    }

    ghost predicate Iterating(i: nat, steps0: seq<nat>, endings0: seq<Ending>)
      reads this
    {
      && Sizes() && i <= |streams| && state == 2 && alive == CountSet(iters) && Tracks(iters, endings)
      && RowStarts(streams, mode, rows, steps0, endings0)
      && After(streams, rows, steps0, endings0, steps, endings, i, true)
    }

    /** The loop in next() has stopped at slot d, which decides the row. */
    ghost predicate Stopped(o: Outcome<V>, d: nat, steps0: seq<nat>, endings0: seq<Ending>)
      reads this
    {
      && Sizes() && NoneOpen() && d < |streams| && d == Decider(streams, mode, rows)
      && o == OutcomeAt(streams, pads, mode, rows) && !o.Row? && state == (if o.Finished? then 3 else 2)
      && After(streams, rows, steps0, endings0, steps, endings, d + 1, false)
    }

    /** The part of the loop in next() behind a step that reported the end. */
    method SlotDone(i: nat, results0: map<nat, V>, values: nat, dones0: nat,
                    ghost steps0: seq<nat>, ghost endings0: seq<Ending>)
      returns (stop: Option<Outcome<V>>, results: map<nat, V>, dones: nat)
      requires i < |streams| && Sizes() && iters[i] && endings[i] == Reported && Tracks(iters[i := false], endings)
      requires state == 2 && alive == CountSet(iters) && RowStarts(streams, mode, rows, steps0, endings0)
      requires After(streams, rows, steps0, endings0, steps, endings, i + 1, true)
      requires Undecided(streams, mode, rows, i) && EndsAt(streams[i], rows)
      requires Results(streams, pads, mode, rows, i, results0) && Counters(streams, rows, i, values, dones0)
      modifies `state, `alive, `iters, `endings
      ensures stop.None? ==> Collecting(i + 1, results, values, dones, steps0, endings0)
      ensures stop.Some? ==> Stopped(stop.value, i, steps0, endings0)
    {
      hide Lives, EndsAt, EndedBefore, RowStarts, After, Results, Counters, Undecided, Tracks, Decider, CloseError, Decides;
      stop, results, dones := None, results0, dones0 + 1;
      CountUpdate(iters, i);
      alive := alive - 1;
      iters := iters[i := false];
      AtEnd(streams, pads, mode, rows, i);
      ghost var open, asked := iters, endings;
      match mode {
        case Shortest =>
          OthersOpen(streams, rows, steps0, endings0, steps, endings, iters, i);
          var ex := CloseAll();
          AfterClose(streams, rows, steps0, endings0, steps, asked, i + 1, endings);
          if ex.Some? {
            stop := Some(Threw(Raised(ex.value)));
          } else {
            state := 3;
            stop := Some(Finished);
          }
        case Longest =>
          LastOpenCounted(streams, rows, steps0, endings0, steps, endings, iters, i);
          if alive < 1 {
            AfterAll(streams, rows, steps0, endings0, steps, endings, i + 1);
            NoneTracked(iters, endings);
            state := 3;
            stop := Some(Finished);
            return;
          }
          ResultAdded(streams, pads, mode, rows, i, results, pads[i]);
          results := results[i := pads[i]];
          CountersStep(streams, rows, i, values, dones0, values, dones);
        case Strict =>
          CountersAre(streams, rows, i, values, dones0);
          if values > 0 {
            var _ := CloseAll();
            AfterClose(streams, rows, steps0, endings0, steps, asked, i + 1, endings);
            stop := Some(Threw(Mismatched));
            return;
          }
          ResultSkipped(streams, pads, mode, rows, i, results);
          CountersStep(streams, rows, i, values, dones0, values, dones);
      }
    }

    /** One round of the loop in next(): slot i is stepped, or found empty. Only longest mode can find
        it empty: the internal error the code raises otherwise is out of reach. */
    method CollectSlot(i: nat, results0: map<nat, V>, values0: nat, dones0: nat, ghost steps0: seq<nat>, ghost endings0: seq<Ending>)
      returns (stop: Option<Outcome<V>>, results: map<nat, V>, values: nat, dones: nat)
      requires i < |streams| && Collecting(i, results0, values0, dones0, steps0, endings0)
      modifies `state, `alive, `iters, `steps, `endings
      ensures stop.None? ==> Collecting(i + 1, results, values, dones, steps0, endings0)
      ensures stop.Some? ==> Stopped(stop.value, i, steps0, endings0)
    {
      hide Lives, EndsAt, EndedBefore, BreaksAt, RowStarts, After, Results, Counters, Undecided, Tracks, Decider, CloseError,
           Decides, OutcomeAt;
      stop, results, values, dones := None, results0, values0, dones0;
      SlotOpen(streams, mode, rows, steps0, endings0, steps, endings, iters, i);
      if !iters[i] {
        AtEmpty(streams, pads, mode, rows, i, results, values, dones);
        AfterEmpty(streams, rows, steps0, endings0, steps, endings, i);
        results := results[i := pads[i]];
        return;
      }
      AfterStep(streams, rows, steps0, endings0, steps, endings, i);
      ghost var tracked := endings;
      var step := CallNext(i);
      Answered(iters, tracked, i, endings[i]);
      ghost var asked := endings;
      match step {
        case Throw(e) =>
          AtThrow(streams, pads, mode, rows, i, e);
          alive := 0;
          iters := iters[i := false];
          var _ := CloseAll();
          AfterClose(streams, rows, steps0, endings0, steps, asked, i + 1, endings);
          stop := Some(Threw(Raised(e)));
        case Yield(v) =>
          CountersAre(streams, rows, i, values, dones);
          AtYield(streams, pads, mode, rows, i, v);
          if mode == Strict && dones > 0 {
            var _ := CloseAll();
            AfterClose(streams, rows, steps0, endings0, steps, asked, i + 1, endings);
            stop := Some(Threw(Mismatched));
            return;
          }
          ResultAdded(streams, pads, mode, rows, i, results, v);
          CountersStep(streams, rows, i, values, dones, values + 1, dones);
          results := results[i := v];
          values := values + 1;
        case Done =>
          Asked(streams[i], rows);
          stop, results, dones := SlotDone(i, results, values, dones, steps0, endings0);
      }
    }

    /** next(): the outcome of the row, which for every choice of streams is a function of its number, and what
        became of every iterator: exactly the open ones up to the deciding slot are stepped, once; unless a row is
        returned, whatever is then open is closed; an iterator that has ended is left alone. An error leaves the
        helper in state 2 for good. */
    method Next() returns (o: Outcome<V>)
      requires Valid()
      modifies this
      ensures Valid()
      ensures old(state) == 2 ==> o == Threw(Running) && state == 2
      ensures old(state) == 3 ==> o == Finished && state == 3
      ensures old(state) >= 2 ==> steps == old(steps) && endings == old(endings) && rows == old(rows)
      ensures old(state) <= 1 ==>
        && o == OutcomeAt(streams, pads, mode, old(rows))
        && state == (match o case Row(_) => 1 case Finished => 3 case Threw(_) => 2)
        && rows == old(rows) + (if o.Row? then 1 else 0)
        && var d := Decider(streams, mode, old(rows));
           After(streams, old(rows), old(steps), old(endings), steps, endings, d + 1, d == |streams|)
    {
      hide Lives, EndsAt, EndedBefore, BreaksAt, RowStarts, After, Results, Counters, Undecided, Tracks, Decider, Decides, OutcomeAt;
      if state == 2 {
        return Threw(Running);
      }
      if state == 3 {
        return Finished;
      }
      state := 2;
      var dones, values, results := 0, 0, map[];
      AfterNothing(streams, rows, steps, endings);
      NothingCollected(streams, pads, mode, rows);
      var i := 0;
      while i < |streams|
        invariant i <= |streams| && rows == old(rows)
        invariant Collecting(i, results, values, dones, old(steps), old(endings))
      {
        var stop;
        stop, results, values, dones := CollectSlot(i, results, values, dones, old(steps), old(endings));
        if stop.Some? {
          return stop.value;
        }
        i := i + 1;
      }
      RowEnds(streams, pads, mode, rows, old(steps), old(endings), steps, endings, iters, results, values, dones);
      if values == 0 {
        state := 3;
        return Finished;
      }
      state := 1;
      rows := rows + 1;
      return Row(results);
    }

    /** return(): closes what is open. An error leaves the helper complete if no row had been asked
        for, and in state 2 otherwise. */
    method Return() returns (o: Outcome<V>)
      requires Valid()
      modifies this
      ensures Valid() && state >= 2 && NoneOpen() && rows == old(rows) && steps == old(steps)
      ensures forall i :: 0 <= i < |streams| ==> endings[i] == if old(endings[i]) == Open then Closed else old(endings[i])
      ensures old(state) == 2 ==> o == Threw(Running) && state == 2
      ensures old(state) == 3 ==> o == Finished && state == 3
      ensures old(state) <= 1 ==>
        var ex := CloseError(streams, old(iters), 0);
        if ex.Some? then o == Threw(Raised(ex.value)) && state == (if old(state) == 0 then 3 else 2)
        else o == Finished && state == 3
    {
      if state == 2 {
        return Threw(Running);
      }
      if state == 3 {
        return Finished;
      }
      state := if state == 0 then 3 else 2;
      var ex := CloseAll();
      if ex.Some? {
        return Threw(Raised(ex.value));
      }
      state := 3;
      return Finished;
    }
  }

  /** A slot holds an iterator, which is then to be asked for its n-th value, or it is empty and has ended. */
  lemma SlotOpen<V>(streams: seq<Stream<V>>, mode: Mode, n: nat, steps0: seq<nat>, endings0: seq<Ending>, steps: seq<nat>,
                    endings: seq<Ending>, iters: seq<bool>, i: nat)
    requires RowStarts(streams, mode, n, steps0, endings0) && i < |streams| && Tracks(iters, endings)
    requires After(streams, n, steps0, endings0, steps, endings, i, true)
    ensures i < |iters| == |endings| == |steps| && (iters[i] <==> endings[i] == Open)
    ensures iters[i] ==> Lives(streams[i], n) && steps[i] == n
    ensures !iters[i] ==> EndedBefore(streams[i], n) && mode == Longest
  {
    hide Lives, EndedBefore;
    SlotAt(streams, mode, n, steps0, endings0, i);
  }

  /** After an answer, an iterator that yields still holds its slot; the others no longer do. */
  lemma Answered(iters: seq<bool>, endings: seq<Ending>, i: nat, e: Ending)
    requires Tracks(iters, endings) && i < |iters| && iters[i]
    ensures |endings| == |iters| && Tracks(if e == Open then iters else iters[i := false], endings[i := e])
  {
  }

  lemma AtEmpty<V>(streams: seq<Stream<V>>, pads: seq<V>, mode: Mode, n: nat, i: nat, results: map<nat, V>, values: nat, dones: nat)
    requires i < |streams| && Undecided(streams, mode, n, i) && EndedBefore(streams[i], n) && mode == Longest
    requires Results(streams, pads, mode, n, i, results) && Counters(streams, n, i, values, dones)
    ensures |pads| == |streams| && Undecided(streams, mode, n, i + 1)
    ensures Results(streams, pads, mode, n, i + 1, results[i := pads[i]]) && Counters(streams, n, i + 1, values, dones)
  {
    hide Lives, EndsAt, BreaksAt, EndedBefore, Counters, LastOpen;
    Ended(streams[i], n);
    assert !Decides(streams, mode, n, i);
    ResultAdded(streams, pads, mode, n, i, results, pads[i]);
    CountersStep(streams, n, i, values, dones, values, dones);
  }

  lemma AtThrow<V>(streams: seq<Stream<V>>, pads: seq<V>, mode: Mode, n: nat, i: nat, e: int)
    requires |pads| == |streams| && i < |streams| && Undecided(streams, mode, n, i)
    requires Lives(streams[i], n) && streams[i].steps(n) == Throw(e)
    ensures Decider(streams, mode, n) == i && OutcomeAt(streams, pads, mode, n) == Threw(Raised(e))
  {
    hide Decider, CloseError, RowValues;
    assert Decides(streams, mode, n, i);
    DeciderIs(streams, mode, n, i);
  }

  lemma AtYield<V>(streams: seq<Stream<V>>, pads: seq<V>, mode: Mode, n: nat, i: nat, v: V)
    requires |pads| == |streams| && i < |streams| && Undecided(streams, mode, n, i)
    requires Lives(streams[i], n) && streams[i].steps(n) == Yield(v)
    ensures Lives(streams[i], n + 1) && !EndsAt(streams[i], n) && v == Cell(streams[i], pads[i], n)
    ensures if mode == Strict && EndsBefore(streams, n, i)
            then Decider(streams, mode, n) == i && OutcomeAt(streams, pads, mode, n) == Threw(Mismatched)
            else Undecided(streams, mode, n, i + 1)
  {
    hide Decider, CloseError, RowValues, LastOpen, GivesBefore, EndsBefore;
    Asked(streams[i], n);
    if Decides(streams, mode, n, i) {
      DeciderIs(streams, mode, n, i);
    }
  }

  lemma NothingCollected<V>(streams: seq<Stream<V>>, pads: seq<V>, mode: Mode, n: nat)
    requires |pads| == |streams|
    ensures Results(streams, pads, mode, n, 0, map[]) && Counters(streams, n, 0, 0, 0) && Undecided(streams, mode, n, 0)
  {
  }

  /** All slots have been visited and none decides the row. */
  lemma RowEnds<V>(streams: seq<Stream<V>>, pads: seq<V>, mode: Mode, n: nat, steps0: seq<nat>, endings0: seq<Ending>,
                   steps: seq<nat>, endings: seq<Ending>, iters: seq<bool>, results: map<nat, V>, values: nat, dones: nat)
    requires RowStarts(streams, mode, n, steps0, endings0) && Tracks(iters, endings) && |pads| == |streams|
    requires After(streams, n, steps0, endings0, steps, endings, |streams|, true) && Undecided(streams, mode, n, |streams|)
    requires Results(streams, pads, mode, n, |streams|, results) && Counters(streams, n, |streams|, values, dones)
    ensures |pads| == |streams| == |iters| == |endings| && Decider(streams, mode, n) == |streams|
    ensures After(streams, n, steps0, endings0, steps, endings, |streams| + 1, true)
    ensures values == 0 ==>
              && OutcomeAt(streams, pads, mode, n) == Finished
              && forall j :: 0 <= j < |streams| ==> !iters[j] && endings[j] != Open
    ensures values > 0 ==> OutcomeAt(streams, pads, mode, n) == Row(results) && RowStarts(streams, mode, n + 1, steps, endings)
  {
    hide Lives, EndsAt, EndedBefore, BreaksAt, Decides, RowStarts, Results, RowValues, CloseError, Decider, HasRows, Ready;
    DeciderIs(streams, mode, n, |streams|);
    StartsReady(streams, mode, n, steps0, endings0);
    if values > 0 {
      NoDecider(streams, mode, n);
      RowsReady(streams, mode, n + 1);
      FullRow(streams, pads, mode, n, results);
      RowTurns(streams, mode, n, steps0, endings0, steps, endings);
    } else {
      forall j: nat | j < |streams|
        ensures endings[j] != Open
      {
        NoBreak(streams, mode, n, |streams|, j);
        OpenAfter(streams, mode, n, steps0, endings0, steps, endings, |streams|, j);
      }
    }
  }

  lemma NoneTracked(iters: seq<bool>, endings: seq<Ending>)
    requires Tracks(iters, endings) && forall j :: 0 <= j < |endings| ==> endings[j] != Open
    ensures forall j :: 0 <= j < |iters| ==> !iters[j]
  {
  }

  lemma CountersAre<V>(streams: seq<Stream<V>>, n: nat, i: nat, values: nat, dones: nat)
    requires Counters(streams, n, i, values, dones)
    ensures (values > 0 <==> GivesBefore(streams, n, i)) && (dones > 0 <==> EndsBefore(streams, n, i))
  {
  }

  /** What the end of slot i means for the row. */
  lemma AtEnd<V>(streams: seq<Stream<V>>, pads: seq<V>, mode: Mode, n: nat, i: nat)
    requires |pads| == |streams| && i < |streams| && Undecided(streams, mode, n, i) && EndsAt(streams[i], n)
    ensures !Lives(streams[i], n + 1) && Cell(streams[i], pads[i], n) == pads[i]
    ensures var decides := (mode == Longest ==> LastOpen(streams, n, i)) && (mode == Strict ==> GivesBefore(streams, n, i));
            if decides then
              && Decider(streams, mode, n) == i
              && OutcomeAt(streams, pads, mode, n) ==
                 match mode
                 case Longest => Finished
                 case Strict => Threw(Mismatched)
                 case Shortest =>
                   var e := CloseError(streams, AllBut(|streams|, i), 0);
                   if e.Some? then Threw(Raised(e.value)) else Finished
            else Undecided(streams, mode, n, i + 1)
  {
    hide LastOpen, GivesBefore, EndsBefore, CloseError, AllBut, Decider, RowValues;
    ExactlyEnds(streams[i], n);
    EndsNotBreaks(streams[i], n);
    if Decides(streams, mode, n, i) {
      DeciderIs(streams, mode, n, i);
    }
  }

  // ----- whole runs -----

  /** A client that calls next n times on a new helper, whatever the streams: each call gives what its number says,
      and once a call has not given a row, no iterator is open. */
  method CallTimes<V>(z: Zipper<V>, n: nat) returns (outcomes: seq<Outcome<V>>)
    requires z.Valid() && z.state == 0 && z.rows == 0
    modifies z
    ensures z.Valid() && |outcomes| == n
    ensures forall k: nat :: k < n ==> outcomes[k] == CallOutcome(z.streams, z.pads, z.mode, k)
    ensures (exists k: nat :: k < n && !outcomes[k].Row?) ==> z.state >= 2 && z.NoneOpen()
  {
    hide OutcomeAt, RowStarts, After, Tracks;
    outcomes := [];
    var k := 0;
    while k < n
      invariant k <= n && |outcomes| == k && z.Valid()
      invariant forall j: nat :: j < k ==> outcomes[j] == CallOutcome(z.streams, z.pads, z.mode, j)
      invariant z.state <= 1 ==> z.rows == k && AllRows(z.streams, z.pads, z.mode, k)
      invariant z.state == 3 ==> OverWith(z.streams, z.pads, z.mode, k, true)
      invariant z.state == 2 ==> OverWith(z.streams, z.pads, z.mode, k, false)
      invariant forall j: nat :: j < k && !outcomes[j].Row? ==> z.state >= 2
    {
      var o := z.Next();
      CallIs(z.streams, z.pads, z.mode, k);
      outcomes := outcomes + [o];
      k := k + 1;
    }
  }
}
