/**
 What one pass writes, when every batch records the same series and the windows
 are visited in ascending order: one summary a window, without gaps.
 */
module PassSummaries {
  import opened Wrappers
  import opened RingModel
  import opened SteadyRuns
  import opened Schemas
  import opened Downsampling
  import opened Passes
  import opened Incremental
  import opened IncrementalRuns
  import opened MergedLogs
  import Cyclic

  // ----------------------------------------------------------------- premises

  /** The batch records exactly the series `cols`, each with a number. */
  ghost predicate RecordsOnly(b: Batch, cols: set<nat>, series: nat) {
    forall c: nat | c < series ::
      var v := Lookup(b.entries, c);
      if c in cols then v.Some? && v.value.Finite? else v.None?
  }

  ghost predicate AllRecordOnly(log: seq<Batch>, cols: set<nat>, series: nat) {
    forall i | 0 <= i < |log| :: RecordsOnly(log[i], cols, series)
  }

  /** The windows of a pass are written from the earliest to the latest. */
  ghost predicate Ascends(order: seq<Target>) {
    forall i, j | 0 <= i < j < |order| :: order[i].0 <= order[j].0
  }

  /** Windows made of whole source buckets. */
  ghost predicate WholeBuckets(interval: nat, width: nat, k: nat) {
    interval > 0 && k > 0 && width == k * interval && width > 0
  }

  function Window(b: Batch, width: nat): nat
    requires width > 0
  {
    b.time / width
  }

  // ------------------------------------------------------------------ windows

  /** Consecutive batches lie in the same window or in consecutive ones. */
  lemma WindowsTouch(log: seq<Batch>, interval: nat, width: nat, k: nat, i: nat)
    requires WholeBuckets(interval, width, k) && OnePerBucket(log, interval) && 0 < i < |log|
    ensures Window(log[i - 1], width) <= Window(log[i], width) <= Window(log[i - 1], width) + 1
  {
    CoarseWindow(log[i - 1].time, interval, k);
    CoarseWindow(log[i].time, interval, k);
    NextQuotient(log[i - 1].time / interval, k);
  }

  /** Some batch lies in window `h`. */
  ghost predicate Occurs(log: seq<Batch>, width: nat, h: nat)
    requires width > 0
  {
    exists i :: 0 <= i < |log| && Window(log[i], width) == h
  }

  lemma NextQuotient(b: nat, k: nat)
    requires k > 0
    ensures b / k <= (b + 1) / k <= b / k + 1
  {
    Cyclic.DivMonotone(b, b + 1, k);
    Cyclic.DivMonotone(b + 1, b + k, k);
    Cyclic.ModAddTurn(b, k);
  }

  /** Every window from the first batch's to the last one's has a batch. */
  lemma {:induction false} WindowHasBatch(log: seq<Batch>, interval: nat, width: nat, k: nat, h: nat) returns (i: nat)
    requires WholeBuckets(interval, width, k) && OnePerBucket(log, interval) && log != []
    requires Window(log[0], width) <= h <= Window(log[|log| - 1], width)
    ensures i < |log| && Window(log[i], width) == h
  {
    var n := |log| - 1;
    if Window(log[n], width) == h {
      i := n;
    } else {
      WindowsTouch(log, interval, width, k, n);
      i := WindowHasBatch(log[..n], interval, width, k, h);
    }
  }

  /** The points of a column that every batch records. */
  lemma {:induction false} RecordedPoints(log: seq<Batch>, cols: set<nat>, series: nat, c: nat)
    requires AllRecordOnly(log, cols, series) && c < series
    ensures c in cols ==> |AllPoints(log, c)| == |log| && forall i | 0 <= i < |log| :: AllPoints(log, c)[i].0 == log[i].time
    ensures c !in cols ==> AllPoints(log, c) == []
  {
    if log != [] {
      var b := log[|log| - 1];
      RecordedPoints(log[..|log| - 1], cols, series, c);
      assert RecordsOnly(b, cols, series);
    }
  }

  lemma {:induction false} WindowIsNotEmpty(points: seq<Point>, width: nat, i: nat)
    requires width > 0 && i < |points|
    ensures WindowValues(points, width, points[i].0 / width) != []
  {
    if i < |points| - 1 {
      WindowIsNotEmpty(points[..|points| - 1], width, i);
    }
  }

  lemma WindowOfStart(h: nat, width: nat)
    requires width > 0
    ensures (h * width) % width == 0 && (h * width) / width == h
  {
    Cyclic.DivModUnique(h * width, h, 0, width);
  }

  /** Which cells a stretch of the log has values for. */
  lemma CellHasValues(log: seq<Batch>, cols: set<nat>, series: nat, width: nat, h: nat, c: nat)
    requires width > 0 && AllRecordOnly(log, cols, series) && c < series
    ensures LogValues(log, width, h * width, c) == WindowValues(AllPoints(log, c), width, h)
    ensures LogValues(log, width, h * width, c) != [] <==>
            c in cols && Occurs(log, width, h)
  {
    var points := AllPoints(log, c);
    WindowOfStart(h, width);
    RecordedPoints(log, cols, series, c);
    if i :| 0 <= i < |log| && Window(log[i], width) == h && c in cols {
      WindowIsNotEmpty(points, width, i);
    } else {
      EmptyWindow(points, width, h);
    }
  }

  // ------------------------------------------------------------------ summary

  /** The batch is the summary of window `h`: the aggregate of each recorded series. */
  ghost predicate SummaryOf(b: Batch, log: seq<Batch>, pair: TierPair, cols: set<nat>, h: nat)
    requires pair.destInterval > 0
  {
    && b.time == h * pair.destInterval
    && forall c: nat | c < pair.maxSeries ::
         Lookup(b.entries, c)
         == if c in cols then Some(Apply(pair.f, LogValues(log, pair.destInterval, h * pair.destInterval, c))) else None
  }

  /** One summary for each window from `h` on. */
  ghost predicate Summarizes(summary: seq<Batch>, log: seq<Batch>, pair: TierPair, cols: set<nat>, h: nat)
    requires pair.destInterval > 0
  {
    forall i: nat | i < |summary| :: SummaryOf(summary[i], log, pair, cols, h + i)
  }

  ghost predicate Recorded(cols: set<nat>, series: nat) {
    exists c: nat :: c in cols && c < series
  }

  /** One summary for each window from the first batch's to the last one's, if anything is recorded at all. */
  ghost predicate Complete(summary: seq<Batch>, log: seq<Batch>, pair: TierPair, cols: set<nat>)
    requires pair.destInterval > 0
  {
    if log == [] || !Recorded(cols, pair.maxSeries) then summary == []
    else
      var first, last := Window(log[0], pair.destInterval), Window(log[|log| - 1], pair.destInterval);
      first <= last && |summary| == last - first + 1 && Summarizes(summary, log, pair, cols, first)
  }

  /** The stretch of the log that a pass sees. */
  ghost function NewBatches(m: Machine): seq<Batch>
    requires LastCut(m.cuts) <= |m.log|
  {
    m.log[LastCut(m.cuts)..]
  }

  ghost function PassSummary(m: Machine, pair: TierPair, order: seq<Target>): seq<Batch>
    requires Fits(m, pair) && Enabled(m, pair, Consolidate(order))
  {
    EnumeratedInColumns(m.src, pair, m.last, order);
    Merged(PassLog(m.src, pair, m.last, order))
  }

  ghost predicate PassReady(m: Machine, pair: TierPair, blank: Ring, lo: nat, order: seq<Target>, cols: set<nat>, k: nat) {
    && Inv(m, pair, blank, lo) && Enabled(m, pair, Consolidate(order)) && Ascends(order)
    && AllRecordOnly(m.log, cols, pair.maxSeries) && WholeBuckets(pair.sourceInterval, pair.destInterval, k)
  }

  lemma NewBatchesAre(m: Machine, pair: TierPair, blank: Ring, lo: nat, order: seq<Target>, cols: set<nat>, k: nat)
    requires PassReady(m, pair, blank, lo, order, cols, k)
    ensures OnePerBucket(NewBatches(m), pair.sourceInterval) && AllRecordOnly(NewBatches(m), cols, pair.maxSeries)
  {
    var part, j := NewBatches(m), LastCut(m.cuts);
    SpacedGapFreeIsOnePerBucket(m.log, pair.sourceInterval);
    forall i | 0 < i < |part| ensures part[i].time / pair.sourceInterval == part[i - 1].time / pair.sourceInterval + 1 {
      assert part[i] == m.log[j + i] && part[i - 1] == m.log[j + i - 1];
    }
    forall i | 0 <= i < |part| ensures RecordsOnly(part[i], cols, pair.maxSeries) {
      assert part[i] == m.log[j + i];
    }
  }

  /** A pass writes a cell for every recorded series in every window that has a new batch. */
  lemma TargetIff(m: Machine, pair: TierPair, blank: Ring, lo: nat, order: seq<Target>, cols: set<nat>, k: nat,
                  h: nat, c: nat)
    requires PassReady(m, pair, blank, lo, order, cols, k)
    ensures (h * pair.destInterval, c) in order <==>
            c < pair.maxSeries && c in cols && Occurs(NewBatches(m), pair.destInterval, h)
    ensures (h * pair.destInterval, c) in order ==>
              TargetValue(m.src, pair, m.last, (h * pair.destInterval, c))
              == Apply(pair.f, LogValues(NewBatches(m), pair.destInterval, h * pair.destInterval, c))
  {
    NewBatchesAre(m, pair, blank, lo, order, cols, k);
    TargetsAreSeen(m, pair, blank, lo, h * pair.destInterval, c);
    if c < pair.maxSeries {
      CellHasValues(NewBatches(m), cols, pair.maxSeries, pair.destInterval, h, c);
    }
  }

  /** Targets are windows. */
  lemma TargetIsWindow(m: Machine, pair: TierPair, blank: Ring, lo: nat, order: seq<Target>, cols: set<nat>, k: nat,
                       i: nat) returns (h: nat)
    requires PassReady(m, pair, blank, lo, order, cols, k) && i < |order|
    ensures order[i].0 == h * pair.destInterval
  {
    assert order[i] in order;
    TargetsAreSeen(m, pair, blank, lo, order[i].0, order[i].1);
    h := order[i].0 / pair.destInterval;
    MultipleOf(order[i].0, pair.destInterval);
  }

  lemma MultipleOf(t: nat, width: nat)
    requires width > 0 && t % width == 0
    ensures t == (t / width) * width
  {
  }

  lemma WrittenTimes(m: Machine, pair: TierPair, blank: Ring, lo: nat, order: seq<Target>, cols: set<nat>, k: nat, h: nat)
    requires PassReady(m, pair, blank, lo, order, cols, k) && Recorded(cols, pair.maxSeries)
    ensures HasTime(PassSummary(m, pair, order), h * pair.destInterval) <==>
            Occurs(NewBatches(m), pair.destInterval, h)
  {
    var log := PassOf(m, pair, order);
    AscendingClimbs(m, pair, order);
    MergedIsMerge(log);
    if HasTime(log, h * pair.destInterval) {
      var i :| 0 <= i < |log| && log[i].time == h * pair.destInterval;
      assert order[i] in order;
      TargetIff(m, pair, blank, lo, order, cols, k, h, order[i].1);
    }
    var c: nat :| c in cols && c < pair.maxSeries;
    TargetIff(m, pair, blank, lo, order, cols, k, h, c);
    if (h * pair.destInterval, c) in order {
      var i :| 0 <= i < |order| && order[i] == (h * pair.destInterval, c);
      assert log[i].time == h * pair.destInterval;
    }
  }

  ghost function PassOf(m: Machine, pair: TierPair, order: seq<Target>): (log: seq<Batch>)
    requires Fits(m, pair) && Enabled(m, pair, Consolidate(order))
    ensures |log| == |order| && PassSummary(m, pair, order) == Merged(log)
    ensures forall i | 0 <= i < |log| :: log[i].time == order[i].0
  {
    EnumeratedInColumns(m.src, pair, m.last, order);
    PassLog(m.src, pair, m.last, order)
  }

  lemma AscendingClimbs(m: Machine, pair: TierPair, order: seq<Target>)
    requires Fits(m, pair) && Enabled(m, pair, Consolidate(order)) && Ascends(order)
    ensures Climbs(PassOf(m, pair, order))
  {
  }

  lemma WrittenValue(m: Machine, pair: TierPair, blank: Ring, lo: nat, order: seq<Target>, cols: set<nat>, k: nat,
                     h: nat, c: nat)
    requires PassReady(m, pair, blank, lo, order, cols, k) && c < pair.maxSeries
    requires Occurs(NewBatches(m), pair.destInterval, h)
    ensures ValueAt(PassOf(m, pair, order), h * pair.destInterval, c)
            == if c in cols then Some(Apply(pair.f, LogValues(NewBatches(m), pair.destInterval, h * pair.destInterval, c)))
               else None
  {
    TargetIff(m, pair, blank, lo, order, cols, k, h, c);
    TargetValueAt(m, pair, order, h * pair.destInterval, c);
  }

  lemma TargetValueAt(m: Machine, pair: TierPair, order: seq<Target>, t: nat, c: nat)
    requires Fits(m, pair) && Enabled(m, pair, Consolidate(order)) && c < pair.maxSeries
    ensures ValueAt(PassOf(m, pair, order), t, c)
            == if (t, c) in order then Some(TargetValue(m.src, pair, m.last, (t, c))) else None
  {
    var log := PassOf(m, pair, order);
    EnumeratedInColumns(m.src, pair, m.last, order);
    forall j | 0 <= j < |log| ensures Lookup(log[j].entries, c) ==
      if order[j].1 == c then Some(TargetValue(m.src, pair, m.last, order[j])) else None
    {
      SingleLookup(order[j].1, TargetValue(m.src, pair, m.last, order[j]), c);
    }
    if (t, c) in order {
      var i :| 0 <= i < |order| && order[i] == (t, c);
      ValueAtLast(log, i, c);
    } else {
      forall j | 0 <= j < |log| && log[j].time == t ensures order[j].1 != c {
        assert order[j] in order;
      }
      ValueAtNone(log, t, c);
    }
  }

  // ---------------------------------------------------------- without gaps

  ghost predicate Increasing(hs: seq<nat>) {
    forall i, j | 0 <= i < j < |hs| :: hs[i] < hs[j]
  }

  lemma {:induction false} AtLeastIndex(hs: seq<nat>, first: nat, i: nat)
    requires Increasing(hs) && i < |hs| && first <= hs[0]
    ensures hs[i] >= first + i
  {
    if i > 0 {
      AtLeastIndex(hs, first, i - 1);
    }
  }

  /** Increasing numbers that are exactly those from `first` to `last` come one after the other. */
  lemma {:induction false} NoGaps(hs: seq<nat>, first: nat, last: nat, i: nat)
    requires Increasing(hs) && first <= last && forall h: nat :: h in hs <==> first <= h <= last
    requires i < |hs|
    ensures hs[i] == first + i
  {
    assert hs[0] in hs && hs[i] in hs;
    AtLeastIndex(hs, first, i);
    assert first + i in hs;
    var j :| 0 <= j < |hs| && hs[j] == first + i;
    AtLeastIndex(hs, first, j);
    if j < i {
      NoGaps(hs, first, last, j);
      assert false;
    }
  }

  lemma CountOfRange(hs: seq<nat>, first: nat, last: nat)
    requires Increasing(hs) && first <= last && forall h: nat :: h in hs <==> first <= h <= last
    ensures |hs| == last - first + 1
  {
    assert last in hs;
    var j :| 0 <= j < |hs| && hs[j] == last;
    NoGaps(hs, first, last, j);
    assert hs[|hs| - 1] in hs;
  }

  /** The windows of the summaries of a pass. */
  lemma SummaryWindows(m: Machine, pair: TierPair, blank: Ring, lo: nat, order: seq<Target>, cols: set<nat>, k: nat)
      returns (hs: seq<nat>)
    requires PassReady(m, pair, blank, lo, order, cols, k) && Recorded(cols, pair.maxSeries)
    ensures |hs| == |PassSummary(m, pair, order)| && Increasing(hs)
    ensures forall i | 0 <= i < |hs| :: PassSummary(m, pair, order)[i].time == hs[i] * pair.destInterval
    ensures forall h: nat :: h in hs <==> Occurs(NewBatches(m), pair.destInterval, h)
  {
    var merged := PassSummary(m, pair, order);
    AscendingClimbs(m, pair, order);
    MergedIsMerge(PassOf(m, pair, order));
    forall i | 0 <= i < |merged| ensures merged[i].time % pair.destInterval == 0 {
      SummaryIsWindow(m, pair, blank, lo, order, cols, k, i);
    }
    hs := WindowsOf(merged, pair.destInterval);
    forall h: nat ensures h in hs <==> Occurs(NewBatches(m), pair.destInterval, h) {
      WrittenTimes(m, pair, blank, lo, order, cols, k, h);
    }
  }

  /** The windows of batches that stand at window starts. */
  lemma WindowsOf(log: seq<Batch>, width: nat) returns (hs: seq<nat>)
    requires width > 0 && ClimbsStrictly(log) && forall i | 0 <= i < |log| :: log[i].time % width == 0
    ensures |hs| == |log| && Increasing(hs) && forall i | 0 <= i < |hs| :: log[i].time == hs[i] * width
    ensures forall h: nat :: h in hs <==> HasTime(log, h * width)
  {
    hs := seq(|log|, i requires 0 <= i < |log| => log[i].time / width);
    forall i | 0 <= i < |hs| ensures log[i].time == hs[i] * width {
      MultipleOf(log[i].time, width);
    }
    WindowsIncrease(log, hs, width);
    forall h: nat ensures h in hs <==> HasTime(log, h * width) {
      TimesOfWindows(log, hs, width, h);
    }
  }

  lemma SummaryIsWindow(m: Machine, pair: TierPair, blank: Ring, lo: nat, order: seq<Target>, cols: set<nat>, k: nat,
                        i: nat)
    requires PassReady(m, pair, blank, lo, order, cols, k) && i < |PassSummary(m, pair, order)|
    ensures PassSummary(m, pair, order)[i].time % pair.destInterval == 0
  {
    var log, merged := PassOf(m, pair, order), PassSummary(m, pair, order);
    AscendingClimbs(m, pair, order);
    MergedIsMerge(log);
    assert HasTime(merged, merged[i].time);
    var j :| 0 <= j < |log| && log[j].time == merged[i].time;
    var h := TargetIsWindow(m, pair, blank, lo, order, cols, k, j);
    WindowOfStart(h, pair.destInterval);
  }

  lemma WindowsIncrease(log: seq<Batch>, hs: seq<nat>, width: nat)
    requires width > 0 && |hs| == |log| && forall i | 0 <= i < |hs| :: log[i].time == hs[i] * width
    requires ClimbsStrictly(log)
    ensures Increasing(hs)
  {
    forall i, j | 0 <= i < j < |hs| ensures hs[i] < hs[j] {
      SmallerFactor(hs[i], hs[j], width);
    }
  }

  lemma SmallerFactor(x: nat, y: nat, n: nat)
    requires x * n < y * n
    ensures x < y
  {
    if x >= y {
      Larger(y, x, n);
    }
  }

  lemma Larger(x: nat, y: nat, n: nat)
    requires x <= y
    ensures x * n <= y * n
  {
    assert y * n - x * n == (y - x) * n;
  }

  lemma TimesOfWindows(log: seq<Batch>, hs: seq<nat>, width: nat, h: nat)
    requires width > 0 && |hs| == |log| && forall i | 0 <= i < |hs| :: log[i].time == hs[i] * width
    ensures h in hs <==> HasTime(log, h * width)
  {
    if h in hs {
      var i :| 0 <= i < |hs| && hs[i] == h;
      assert log[i].time == h * width;
    }
    if HasTime(log, h * width) {
      var i :| 0 <= i < |log| && log[i].time == h * width;
      WindowOfStart(h, width);
      WindowOfStart(hs[i], width);
    }
  }

  /**
   What a pass leaves for the tier above: nothing if it saw no new batch of a
   recorded series, and else one summary for each window from the first new
   batch's to the last one's.
   */
  lemma PassSummarizes(m: Machine, pair: TierPair, blank: Ring, lo: nat, order: seq<Target>, cols: set<nat>, k: nat)
    requires PassReady(m, pair, blank, lo, order, cols, k)
    ensures Complete(PassSummary(m, pair, order), NewBatches(m), pair, cols)
  {
    var part, summary := NewBatches(m), PassSummary(m, pair, order);
    NewBatchesAre(m, pair, blank, lo, order, cols, k);
    if part == [] || !Recorded(cols, pair.maxSeries) {
      NothingToSummarize(m, pair, blank, lo, order, cols, k);
    } else {
      var hs := SummariesAt(m, pair, blank, lo, order, cols, k);
      var first, last := WindowsAreRange(part, pair.sourceInterval, pair.destInterval, k, hs);
      ConsecutiveSummaries(summary, part, pair, cols, hs, first);
    }
  }

  /** The summaries of a pass, by their windows. */
  lemma SummariesAt(m: Machine, pair: TierPair, blank: Ring, lo: nat, order: seq<Target>, cols: set<nat>, k: nat)
      returns (hs: seq<nat>)
    requires PassReady(m, pair, blank, lo, order, cols, k) && Recorded(cols, pair.maxSeries)
    ensures |hs| == |PassSummary(m, pair, order)| && Increasing(hs)
    ensures forall i | 0 <= i < |hs| :: SummaryOf(PassSummary(m, pair, order)[i], NewBatches(m), pair, cols, hs[i])
    ensures forall h: nat :: h in hs <==> Occurs(NewBatches(m), pair.destInterval, h)
  {
    hs := SummaryWindows(m, pair, blank, lo, order, cols, k);
    forall i | 0 <= i < |hs| ensures SummaryOf(PassSummary(m, pair, order)[i], NewBatches(m), pair, cols, hs[i]) {
      assert hs[i] in hs;
      OneSummary(m, pair, blank, lo, order, cols, k, i, hs[i]);
    }
  }

  lemma ConsecutiveSummaries(summary: seq<Batch>, log: seq<Batch>, pair: TierPair, cols: set<nat>, hs: seq<nat>, first: nat)
    requires pair.destInterval > 0 && |hs| == |summary| && forall i | 0 <= i < |hs| :: hs[i] == first + i
    requires forall i | 0 <= i < |hs| :: SummaryOf(summary[i], log, pair, cols, hs[i])
    ensures Summarizes(summary, log, pair, cols, first)
  {
    forall i: nat | i < |summary| ensures SummaryOf(summary[i], log, pair, cols, first + i) {
      assert hs[i] == first + i;
    }
  }

  /** The windows of a stretch, listed in increasing order. */
  lemma WindowsAreRange(log: seq<Batch>, interval: nat, width: nat, k: nat, hs: seq<nat>) returns (first: nat, last: nat)
    requires WholeBuckets(interval, width, k) && OnePerBucket(log, interval) && log != [] && Increasing(hs)
    requires forall h: nat :: h in hs <==> Occurs(log, width, h)
    ensures first == Window(log[0], width) && last == Window(log[|log| - 1], width)
    ensures first <= last && |hs| == last - first + 1
    ensures forall i | 0 <= i < |hs| :: hs[i] == first + i
  {
    first, last := Window(log[0], width), Window(log[|log| - 1], width);
    WindowsGrow(log, interval, width, 0, |log| - 1);
    forall h: nat ensures h in hs <==> first <= h <= last {
      WindowRange(log, interval, width, k, h);
    }
    CountOfRange(hs, first, last);
    forall i: nat | i < |hs| ensures hs[i] == first + i {
      NoGaps(hs, first, last, i);
    }
  }

  lemma NothingToSummarize(m: Machine, pair: TierPair, blank: Ring, lo: nat, order: seq<Target>, cols: set<nat>, k: nat)
    requires PassReady(m, pair, blank, lo, order, cols, k)
    requires NewBatches(m) == [] || !Recorded(cols, pair.maxSeries)
    ensures PassSummary(m, pair, order) == []
  {
    if order != [] {
      var h := TargetIsWindow(m, pair, blank, lo, order, cols, k, 0);
      assert order[0] == (h * pair.destInterval, order[0].1) && order[0] in order;
      TargetIff(m, pair, blank, lo, order, cols, k, h, order[0].1);
    }
  }

  lemma WindowRange(log: seq<Batch>, interval: nat, width: nat, k: nat, h: nat)
    requires WholeBuckets(interval, width, k) && OnePerBucket(log, interval) && log != []
    ensures Occurs(log, width, h) <==>
            Window(log[0], width) <= h <= Window(log[|log| - 1], width)
  {
    if i :| 0 <= i < |log| && Window(log[i], width) == h {
      WindowsGrow(log, interval, width, 0, i);
      WindowsGrow(log, interval, width, i, |log| - 1);
    }
    if Window(log[0], width) <= h <= Window(log[|log| - 1], width) {
      var i := WindowHasBatch(log, interval, width, k, h);
    }
  }

  lemma OneSummary(m: Machine, pair: TierPair, blank: Ring, lo: nat, order: seq<Target>, cols: set<nat>, k: nat,
                   i: nat, h: nat)
    requires PassReady(m, pair, blank, lo, order, cols, k) && i < |PassSummary(m, pair, order)|
    requires PassSummary(m, pair, order)[i].time == h * pair.destInterval
    requires Occurs(NewBatches(m), pair.destInterval, h)
    ensures SummaryOf(PassSummary(m, pair, order)[i], NewBatches(m), pair, cols, h)
  {
    var log, merged := PassOf(m, pair, order), PassSummary(m, pair, order);
    AscendingClimbs(m, pair, order);
    MergedIsMerge(log);
    forall c: nat | c < pair.maxSeries
      ensures Lookup(merged[i].entries, c)
              == if c in cols then Some(Apply(pair.f, LogValues(NewBatches(m), pair.destInterval, h * pair.destInterval, c)))
                 else None
    {
      assert HoldsValue(merged, log, i, c);
      WrittenValue(m, pair, blank, lo, order, cols, k, h, c);
    }
  }
}
