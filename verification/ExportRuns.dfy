/** Exactly-once export of one series over any interleaving of writes and drains. */
module ExportRuns {
  import opened Wrappers
  import opened RingModel
  import opened RingOrder
  import opened SteadyRuns
  import opened Incremental
  import opened Exports

  datatype ExportStep = Write(batch: Batch) | Drain

  /** `log` and `marks` are the history: every batch so far, and the log's length at each drain. */
  datatype Exporter = Exporter(ring: Ring, cursor: Option<nat>, out: seq<Point>, log: seq<Batch>, marks: seq<nat>)

  ghost predicate Ready(e: Exporter, c: nat) {
    e.ring.Shaped() && c < |e.ring.vals|
  }

  ghost function Perform(e: Exporter, c: nat, step: ExportStep): (e': Exporter)
    requires Ready(e, c)
    ensures Ready(e', c)
  {
    match step
    case Write(b) => e.(ring := e.ring.Write(b), log := e.log + [b])
    case Drain =>
      var points := DrainPoints(e.ring, c, e.cursor);
      e.(cursor := if points == [] then e.cursor else Some(points[|points| - 1].0),
         out := e.out + points,
         marks := e.marks + [|e.log|])
  }

  ghost function PerformAll(e: Exporter, c: nat, steps: seq<ExportStep>): (e': Exporter)
    requires Ready(e, c)
    ensures Ready(e', c)
  {
    if steps == [] then e
    else Perform(PerformAll(e, c, steps[..|steps| - 1]), c, steps[|steps| - 1])
  }

  // -------------------------------------------------------------- reference

  /** The points of batches `from..to`. */
  function Stretch(log: seq<Batch>, from: nat, to: nat, c: nat): seq<Point> {
    if from <= to <= |log| then AllPoints(log[from..to], c) else []
  }

  /** What the drains at `marks` should return: at each, the points since the previous one that are still held. */
  function ExpectedOut(log: seq<Batch>, marks: seq<nat>, n: nat, c: nat): seq<Point> {
    if marks == [] then []
    else
      var init, to := marks[..|marks| - 1], marks[|marks| - 1];
      ExpectedOut(log, init, n, c) + Stretch(log, Kept(LastCut(init), to, n), to, c)
  }

  /** The points overwritten before the drain that should have returned them. */
  function Overwritten(log: seq<Batch>, marks: seq<nat>, n: nat, c: nat): seq<Point> {
    if marks == [] then []
    else
      var init, to := marks[..|marks| - 1], marks[|marks| - 1];
      Overwritten(log, init, n, c) + Stretch(log, LastCut(init), Kept(LastCut(init), to, n), c)
  }

  // -------------------------------------------------------------- invariant

  /** The cursor is at batch `k - 1`, and what was still held after it at the last drain carries no point. */
  ghost predicate DrainedTo(e: Exporter, c: nat, k: nat) {
    && k <= LastCut(e.marks) <= |e.log|
    && e.cursor == (if k == 0 then None else Some(e.log[k - 1].time))
    && forall i | k <= i < LastCut(e.marks) && LastCut(e.marks) - |e.ring.ts| <= i :: NoPoint(e.log[i], c)
  }

  ghost predicate NoPoint(b: Batch, c: nat) {
    Lookup(b.entries, c).Some? ==> Lookup(b.entries, c).value.NaN?
  }

  ghost predicate Inv(e: Exporter, blank: Ring, c: nat) {
    && Ready(e, c) && Steady(blank, e.log, c) && e.ring == Run(blank, e.log)
    && CutsOf(e.marks, |e.log|) && (exists k :: DrainedTo(e, c, k))
    && e.out == ExpectedOut(e.log, e.marks, |e.ring.ts|, c)
  }

  /** Where the times of a log lie relative to a cursor at batch `k - 1` and to the retained tail. */
  lemma TimesAroundCursor(log: seq<Batch>, interval: nat, n: nat, k: nat, start: nat)
    requires interval > 0 && n > 0 && OnePerBucket(log, interval) && log != [] && k <= |log|
    requires start == if k == 0 then Tail(log, n)[0].time else log[k - 1].time + 1
    ensures forall i | 0 <= i < k :: log[i].time < start
    ensures forall i | k <= i < |log| :: start <= log[i].time || i < |log| - n
    ensures forall i | 0 <= i < |log| :: log[i].time < log[|log| - 1].time + 1
  {
    var first := |log| - |Tail(log, n)|;
    assert Tail(log, n)[0] == log[first];
    forall i | 0 <= i < k ensures log[i].time < start {
      if i < k - 1 { TimesIncrease(log, interval, i, k - 1); }
    }
    forall i | k <= i < |log| && first <= i ensures start <= log[i].time {
      if k > 0 {
        TimesIncrease(log, interval, k - 1, i);
      } else if first < i {
        TimesIncrease(log, interval, first, i);
      }
    }
    forall i | 0 <= i < |log| ensures log[i].time < log[|log| - 1].time + 1 {
      if i < |log| - 1 { TimesIncrease(log, interval, i, |log| - 1); }
    }
  }

  lemma DrainOf(w: Ring, c: nat, cursor: Option<nat>, oldest: nat, newest: nat, start: nat, points: seq<Point>)
    requires w.Shaped() && c < |w.vals| && w.Oldest() == Some(oldest) && w.Newest() == Some(newest)
    requires start == match cursor case Some(t) => t + 1 case None => oldest
    requires w.Read(c, start, newest + 1) == points
    ensures DrainPoints(w, c, cursor) == if start > newest then [] else points
  {
  }

  lemma NoPointIsSilent(b: Batch, c: nat, start: nat, end: nat)
    requires NoPoint(b, c)
    ensures BatchPoint(b, c, start, end) == []
  {
  }

  /** What a drain from `start` on reads, in terms of the log. */
  lemma ReadFromLog(log: seq<Batch>, interval: nat, n: nat, k: nat, j: nat, c: nat, start: nat)
    requires interval > 0 && n > 0 && OnePerBucket(log, interval) && log != [] && k <= j <= |log|
    requires start == if k == 0 then Tail(log, n)[0].time else log[k - 1].time + 1
    requires forall i | k <= i < j && |log| - n <= i :: NoPoint(log[i], c)
    requires start <= log[|log| - 1].time
    ensures Stretch(log, Kept(j, |log|, n), |log|, c) == LogRead(Tail(log, n), c, start, log[|log| - 1].time + 1)
  {
    var end := log[|log| - 1].time + 1;
    TimesAroundCursor(log, interval, n, k, start);
    forall i | k <= i < j && |log| - n <= i ensures BatchPoint(log[i], c, start, end) == [] {
      NoPointIsSilent(log[i], c, start, end);
    }
    RetainedRead(log, n, k, j, c, start, end);
    RetainedStretch(log, j, n, c);
  }

  lemma RetainedStretch(log: seq<Batch>, j: nat, n: nat, c: nat)
    requires j <= |log|
    ensures Stretch(log, Kept(j, |log|, n), |log|, c) == AllPoints(log[Kept(j, |log|, n)..], c)
  {
    assert log[Kept(j, |log|, n)..|log|] == log[Kept(j, |log|, n)..];
  }

  lemma NothingAfterNewest(log: seq<Batch>, interval: nat, n: nat, k: nat, j: nat, c: nat, start: nat)
    requires interval > 0 && n > 0 && OnePerBucket(log, interval) && log != [] && k <= j <= |log|
    requires start == if k == 0 then Tail(log, n)[0].time else log[k - 1].time + 1
    requires start > log[|log| - 1].time
    ensures j == |log| && Stretch(log, Kept(j, |log|, n), |log|, c) == []
  {
    TimesAroundCursor(log, interval, n, k, start);
    assert k > |log| - 1;
    assert log[|log|..|log|] == [];
  }

  lemma DrainIsLogRead(blank: Ring, w: Ring, log: seq<Batch>, c: nat, cursor: Option<nat>, start: nat)
    requires Steady(blank, log, c) && w == Run(blank, log) && log != []
    requires start == match cursor case Some(t) => t + 1 case None => Tail(log, |blank.ts|)[0].time
    ensures DrainPoints(w, c, cursor)
            == if start > log[|log| - 1].time then []
               else LogRead(Tail(log, |blank.ts|), c, start, log[|log| - 1].time + 1)
  {
    var oldest, newest := Tail(log, |blank.ts|)[0].time, log[|log| - 1].time;
    var points := SteadyReadIs(blank, w, log, c, start, newest + 1);
    DrainOf(w, c, cursor, oldest, newest, start, points);
  }

  lemma SteadyReadIs(blank: Ring, w: Ring, log: seq<Batch>, c: nat, start: nat, end: nat) returns (points: seq<Point>)
    requires Steady(blank, log, c) && w == Run(blank, log) && log != []
    ensures w.Shaped() && c < |w.vals| && points == w.Read(c, start, end)
    ensures points == LogRead(Tail(log, |blank.ts|), c, start, end)
    ensures w.Oldest() == Some(Tail(log, |blank.ts|)[0].time) && w.Newest() == Some(log[|log| - 1].time)
  {
    SteadyBounds(blank, log);
    SteadyRead(blank, log, c, start, end);
    points := w.Read(c, start, end);
  }

  /** A drain returns exactly the points written since the last drain that are still held. */
  lemma DrainFromLog(blank: Ring, w: Ring, log: seq<Batch>, k: nat, j: nat, c: nat, cursor: Option<nat>)
    requires Steady(blank, log, c) && w == Run(blank, log) && k <= j <= |log| && log != []
    requires cursor == (if k == 0 then None else Some(log[k - 1].time))
    requires forall i | k <= i < j && |log| - |blank.ts| <= i :: NoPoint(log[i], c)
    ensures DrainPoints(w, c, cursor) == Stretch(log, Kept(j, |log|, |blank.ts|), |log|, c)
  {
    var n := |blank.ts|;
    var start := if k == 0 then Tail(log, n)[0].time else log[k - 1].time + 1;
    DrainIsLogRead(blank, w, log, c, cursor, start);
    if start <= log[|log| - 1].time {
      ReadFromLog(log, blank.interval, n, k, j, c, start);
    } else {
      NothingAfterNewest(log, blank.interval, n, k, j, c, start);
    }
  }

  lemma DrainSeesNewPoints(e: Exporter, blank: Ring, c: nat, k: nat)
    requires Inv(e, blank, c) && DrainedTo(e, c, k)
    ensures DrainPoints(e.ring, c, e.cursor)
            == Stretch(e.log, Kept(LastCut(e.marks), |e.log|, |e.ring.ts|), |e.log|, c)
  {
    if e.log == [] {
      SteadyBounds(blank, e.log);
      assert e.log[0..0] == [];
      return;
    }
    DrainFromLog(blank, e.ring, e.log, k, LastCut(e.marks), c, e.cursor);
  }

  /** After the last point of a log nothing more is shown. */
  lemma {:induction false} LastPoint(log: seq<Batch>, c: nat) returns (k: nat)
    requires AllPoints(log, c) != []
    ensures 0 < k <= |log| && AllPoints(log, c)[|AllPoints(log, c)| - 1].0 == log[k - 1].time
    ensures forall i | k <= i < |log| :: NoPoint(log[i], c)
  {
    var init, b := log[..|log| - 1], log[|log| - 1];
    if NoPoint(b, c) {
      k := LastPoint(init, c);
      forall i | k <= i < |log| ensures NoPoint(log[i], c) {
        if i < |init| { assert init[i] == log[i]; }
      }
    } else {
      k := |log|;
    }
  }

  lemma {:induction false} NoPoints(log: seq<Batch>, c: nat, i: nat)
    requires AllPoints(log, c) == [] && i < |log|
    ensures NoPoint(log[i], c)
  {
    if i < |log| - 1 {
      NoPoints(log[..|log| - 1], c, i);
    }
  }

  /** Where the cursor stands after the points of the log from `from` on were exported. */
  lemma CursorAfterExport(log: seq<Batch>, from: nat, k: nat, n: nat, c: nat) returns (k': nat)
    requires k <= |log| && from <= |log|
    requires forall i | k <= i < from && |log| - n <= i :: NoPoint(log[i], c)
    ensures k' <= |log|
    ensures var points := AllPoints(log[from..], c);
            if points == [] then k' == k else k' > 0 && points[|points| - 1].0 == log[k' - 1].time
    ensures forall i | k' <= i < |log| && |log| - n <= i :: NoPoint(log[i], c)
  {
    var part := log[from..];
    if AllPoints(part, c) == [] {
      k' := k;
      forall i | k <= i < |log| && |log| - n <= i ensures NoPoint(log[i], c) {
        if from <= i { NoPoints(part, c, i - from); }
      }
    } else {
      var p := LastPoint(part, c);
      k' := from + p;
      forall i | k' <= i < |log| ensures NoPoint(log[i], c) {
        assert log[i] == part[i - from];
      }
    }
  }

  lemma DrainMovesCursor(e: Exporter, blank: Ring, c: nat)
    requires Inv(e, blank, c)
    ensures exists k :: DrainedTo(Perform(e, c, Drain), c, k)
  {
    var k :| DrainedTo(e, c, k);
    DrainSeesNewPoints(e, blank, c, k);
    var from := Kept(LastCut(e.marks), |e.log|, |e.ring.ts|);
    assert e.log[from..|e.log|] == e.log[from..];
    var k' := CursorAfterExport(e.log, from, k, |e.ring.ts|, c);
    DrainedToAfter(e, c, k, k', AllPoints(e.log[from..], c));
  }

  lemma DrainedToAfter(e: Exporter, c: nat, k: nat, k': nat, points: seq<Point>)
    requires Ready(e, c) && DrainedTo(e, c, k) && points == DrainPoints(e.ring, c, e.cursor) && k' <= |e.log|
    requires if points == [] then k' == k else k' > 0 && points[|points| - 1].0 == e.log[k' - 1].time
    requires forall i | k' <= i < |e.log| && |e.log| - |e.ring.ts| <= i :: NoPoint(e.log[i], c)
    ensures DrainedTo(Perform(e, c, Drain), c, k')
  {
  }

  lemma {:induction false} ExpectedOutStable(log: seq<Batch>, b: Batch, marks: seq<nat>, n: nat, c: nat)
    requires CutsOf(marks, |log|)
    ensures ExpectedOut(log, marks, n, c) == ExpectedOut(log + [b], marks, n, c)
  {
    if marks != [] {
      var init, to := marks[..|marks| - 1], marks[|marks| - 1];
      ExpectedOutStable(log, b, init, n, c);
      var from := Kept(LastCut(init), to, n);
      assert log[from..to] == (log + [b])[from..to];
    }
  }

  lemma DrainKeepsInv(e: Exporter, blank: Ring, c: nat)
    requires Inv(e, blank, c)
    ensures Inv(Perform(e, c, Drain), blank, c)
  {
    var k :| DrainedTo(e, c, k);
    DrainSeesNewPoints(e, blank, c, k);
    DrainMovesCursor(e, blank, c);
    assert (e.marks + [|e.log|])[..|e.marks|] == e.marks;
  }

  lemma WriteKeepsInv(e: Exporter, blank: Ring, c: nat, b: Batch)
    requires Inv(e, blank, c) && Steady(blank, e.log + [b], c)
    ensures Inv(Perform(e, c, Write(b)), blank, c)
  {
    var e' := Perform(e, c, Write(b));
    assert e'.log[..|e.log|] == e.log;
    var k :| DrainedTo(e, c, k);
    assert DrainedTo(e', c, k);
    ExpectedOutStable(e.log, b, e.marks, |e.ring.ts|, c);
  }

  ghost predicate IsStart(e: Exporter, blank: Ring, c: nat) {
    && Ready(e, c) && IsBlank(blank) && e == Exporter(blank, None, [], [], [])
  }

  lemma SteadyPrefix(blank: Ring, log: seq<Batch>, b: Batch, c: nat)
    requires Steady(blank, log + [b], c)
    ensures Steady(blank, log, c)
  {
    var all := log + [b];
    forall i | 0 <= i < |log| ensures log[i] == all[i] {
    }
    forall i | 0 < i < |log| ensures log[i].time / blank.interval == log[i - 1].time / blank.interval + 1 {
      assert all[i].time / blank.interval == all[i - 1].time / blank.interval + 1;
    }
  }

  lemma {:induction false} RunKeepsInv(start: Exporter, blank: Ring, c: nat, steps: seq<ExportStep>)
    requires IsStart(start, blank, c) && Steady(blank, PerformAll(start, c, steps).log, c)
    ensures Inv(PerformAll(start, c, steps), blank, c)
  {
    if steps == [] {
      assert DrainedTo(start, c, 0);
    } else {
      var init, step := steps[..|steps| - 1], steps[|steps| - 1];
      var e := PerformAll(start, c, init);
      match step {
        case Write(b) =>
          SteadyPrefix(blank, e.log, b, c);
          RunKeepsInv(start, blank, c, init);
          WriteKeepsInv(e, blank, c, b);
        case Drain =>
          RunKeepsInv(start, blank, c, init);
          DrainKeepsInv(e, blank, c);
      }
    }
  }

  // --------------------------------------------------------------- theorems

  lemma StretchSplits(log: seq<Batch>, i: nat, j: nat, k: nat, c: nat)
    requires i <= j <= k <= |log|
    ensures Stretch(log, i, k, c) == Stretch(log, i, j, c) + Stretch(log, j, k, c)
  {
    AllPointsSplit(log[i..j], log[j..k], c);
    assert log[i..k] == log[i..j] + log[j..k];
  }

  /** Nothing gets lost otherwise: exported and overwritten points together are as many as were written. */
  lemma {:induction false} ExportConserves(log: seq<Batch>, marks: seq<nat>, n: nat, c: nat)
    requires CutsOf(marks, |log|)
    ensures |ExpectedOut(log, marks, n, c)| + |Overwritten(log, marks, n, c)| == |Stretch(log, 0, LastCut(marks), c)|
  {
    if marks != [] {
      var init, to := marks[..|marks| - 1], marks[|marks| - 1];
      ExportConserves(log, init, n, c);
      StretchSplits(log, LastCut(init), Kept(LastCut(init), to, n), to, c);
      StretchSplits(log, 0, LastCut(init), to, c);
    }
  }

  function MarkBefore(marks: seq<nat>, i: nat): nat
    requires i <= |marks|
  {
    if i == 0 then 0 else marks[i - 1]
  }

  /** No more than `n` batches between two drains. */
  ghost predicate DrainedInTime(marks: seq<nat>, n: nat) {
    forall i | 0 <= i < |marks| :: marks[i] <= MarkBefore(marks, i) + n
  }

  lemma {:induction false} TimelyOutIsTheLog(log: seq<Batch>, marks: seq<nat>, n: nat, c: nat)
    requires CutsOf(marks, |log|) && DrainedInTime(marks, n)
    ensures ExpectedOut(log, marks, n, c) == Stretch(log, 0, LastCut(marks), c)
  {
    if marks != [] {
      var init, to := marks[..|marks| - 1], marks[|marks| - 1];
      EarlierInTime(marks, n);
      TimelyOutIsTheLog(log, init, n, c);
      StretchSplits(log, 0, LastCut(init), to, c);
    }
  }

  lemma EarlierInTime(marks: seq<nat>, n: nat)
    requires marks != [] && DrainedInTime(marks, n)
    ensures DrainedInTime(marks[..|marks| - 1], n)
    ensures Kept(LastCut(marks[..|marks| - 1]), marks[|marks| - 1], n) == LastCut(marks[..|marks| - 1])
  {
    var init, last := marks[..|marks| - 1], |marks| - 1;
    forall i | 0 <= i < |init| ensures init[i] <= MarkBefore(init, i) + n {
      assert marks[i] <= MarkBefore(marks, i) + n;
    }
    assert marks[last] <= MarkBefore(marks, last) + n;
    assert LastCut(init) == MarkBefore(marks, last);
  }

  /** The points of a stretch of the log come in time order, within its times. */
  lemma StretchIncreases(log: seq<Batch>, from: nat, to: nat, interval: nat, c: nat)
    requires interval > 0 && OnePerBucket(log, interval) && from < to <= |log|
    ensures StrictlyIncreasing(Stretch(log, from, to, c))
    ensures forall p | p in Stretch(log, from, to, c) :: log[from].time <= p.0 <= log[to - 1].time
  {
    var part, end := log[from..to], log[to - 1].time + 1;
    forall i | 0 <= i < |part| ensures part[i].time < end {
      if from + i < to - 1 { TimesIncrease(log, interval, from + i, to - 1); }
    }
    CoveringReadIsAllPoints(part, c, 0, end);
    LogReadIncreases(part, interval, c, 0, end);
  }

  ghost predicate AtMost(points: seq<Point>, bound: nat) {
    forall p | p in points :: p.0 <= bound
  }

  lemma JoinIncreasing(x: seq<Point>, y: seq<Point>, bound: nat)
    requires StrictlyIncreasing(x) && StrictlyIncreasing(y) && AtMost(x, bound)
    requires forall p | p in y :: bound < p.0
    ensures StrictlyIncreasing(x + y)
  {
    forall i, j | 0 <= i < j < |x + y| ensures (x + y)[i].0 < (x + y)[j].0 {
      if i < |x| <= j {
        assert x[i] in x && y[j - |x|] in y;
      }
    }
  }

  /** All points lie at or before batch `to - 1`. */
  ghost predicate EndsBy(points: seq<Point>, log: seq<Batch>, to: nat)
    requires to <= |log|
  {
    if to == 0 then points == [] else AtMost(points, log[to - 1].time)
  }

  lemma StretchFollows(log: seq<Batch>, before: seq<Point>, from: nat, kept: nat, to: nat, interval: nat, c: nat)
    requires interval > 0 && OnePerBucket(log, interval) && from <= kept <= to <= |log|
    requires StrictlyIncreasing(before) && EndsBy(before, log, from)
    ensures StrictlyIncreasing(before + Stretch(log, kept, to, c))
    ensures EndsBy(before + Stretch(log, kept, to, c), log, to)
  {
    var part := Stretch(log, kept, to, c);
    if kept == to {
      NothingFollows(log, before, from, to, interval, c);
    } else {
      StretchIncreases(log, kept, to, interval, c);
      PartFollows(log, before, part, from, kept, to, interval);
    }
  }

  lemma PartFollows(log: seq<Batch>, before: seq<Point>, part: seq<Point>, from: nat, kept: nat, to: nat, interval: nat)
    requires interval > 0 && OnePerBucket(log, interval) && from <= kept < to <= |log|
    requires StrictlyIncreasing(before) && EndsBy(before, log, from)
    requires StrictlyIncreasing(part) && forall p | p in part :: log[kept].time <= p.0 <= log[to - 1].time
    ensures StrictlyIncreasing(before + part) && EndsBy(before + part, log, to)
  {
    if from == 0 {
      assert before + part == part;
    } else {
      TimesIncrease(log, interval, from - 1, kept);
      if kept < to - 1 { TimesIncrease(log, interval, kept, to - 1); }
      JoinFollowing(before, part, log[from - 1].time, log[kept].time, log[to - 1].time);
    }
  }

  lemma NothingFollows(log: seq<Batch>, before: seq<Point>, from: nat, to: nat, interval: nat, c: nat)
    requires interval > 0 && OnePerBucket(log, interval) && from <= to <= |log|
    requires StrictlyIncreasing(before) && EndsBy(before, log, from)
    ensures Stretch(log, to, to, c) == [] && before + Stretch(log, to, to, c) == before
    ensures EndsBy(before, log, to)
  {
    assert log[to..to] == [];
    if 0 < from < to { TimesIncrease(log, interval, from - 1, to - 1); }
  }

  lemma JoinFollowing(x: seq<Point>, y: seq<Point>, bound: nat, from: nat, to: nat)
    requires StrictlyIncreasing(x) && StrictlyIncreasing(y) && AtMost(x, bound) && bound < from && bound <= to
    requires forall p | p in y :: from <= p.0 <= to
    ensures StrictlyIncreasing(x + y) && AtMost(x + y, to)
  {
    JoinIncreasing(x, y, bound);
  }

  lemma {:induction false} ExpectedOutIncreases(log: seq<Batch>, marks: seq<nat>, n: nat, interval: nat, c: nat)
    requires interval > 0 && OnePerBucket(log, interval) && CutsOf(marks, |log|)
    ensures StrictlyIncreasing(ExpectedOut(log, marks, n, c))
    ensures EndsBy(ExpectedOut(log, marks, n, c), log, LastCut(marks))
  {
    if marks != [] {
      var init, to := marks[..|marks| - 1], marks[|marks| - 1];
      ExpectedOutIncreases(log, init, n, interval, c);
      StretchFollows(log, ExpectedOut(log, init, n, c), LastCut(init), Kept(LastCut(init), to, n), to, interval, c);
    }
  }

  /**
   Over any interleaving of writes and drains of a series with one batch per
   bucket: the concatenated output is strictly increasing, so nothing is exported
   twice, and it consists, drain by drain, of exactly the points written since the
   previous drain that had not been overwritten.
   */
  lemma ExportIsExactlyOnce(start: Exporter, blank: Ring, c: nat, steps: seq<ExportStep>)
    requires IsStart(start, blank, c) && Steady(blank, PerformAll(start, c, steps).log, c)
    ensures var e := PerformAll(start, c, steps);
            && e.out == ExpectedOut(e.log, e.marks, |blank.ts|, c)
            && StrictlyIncreasing(e.out)
  {
    var e := PerformAll(start, c, steps);
    RunKeepsInv(start, blank, c, steps);
    ExpectedOutIncreases(e.log, e.marks, |blank.ts|, blank.interval, c);
  }

  /** With a drain at least every `slot_count` batches, the output is the whole log up to the last drain. */
  lemma TimelyExportIsComplete(start: Exporter, blank: Ring, c: nat, steps: seq<ExportStep>)
    requires IsStart(start, blank, c) && Steady(blank, PerformAll(start, c, steps).log, c)
    requires DrainedInTime(PerformAll(start, c, steps).marks, |blank.ts|)
    ensures var e := PerformAll(start, c, steps);
            LastCut(e.marks) <= |e.log| && e.out == AllPoints(e.log[..LastCut(e.marks)], c)
  {
    var e := PerformAll(start, c, steps);
    RunKeepsInv(start, blank, c, steps);
    TimelyOutIsTheLog(e.log, e.marks, |blank.ts|, c);
    assert e.log[0..LastCut(e.marks)] == e.log[..LastCut(e.marks)];
  }
}
