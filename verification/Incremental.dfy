/**
 Incremental consolidation over whole runs: any interleaving of writes to the
 source ring with passes that resume from the cursor. Each destination cell
 ends up with the aggregate of the last pass that saw points for it, and this
 equals downsampling the whole write log exactly under the conditions below.
 */
module Incremental {
  import opened Floats
  import opened RingModel
  import opened RingOrder
  import opened BoundedLog
  import opened SteadyRuns
  import opened Schemas
  import opened Passes
  import Cyclic
  import Sequences

  datatype Step = Record(batch: Batch) | Consolidate(order: seq<Target>)

  /** `log` and `cuts` are the history: every batch so far, and the log's length at each pass. */
  datatype Machine = Machine(src: Ring, dst: Ring, last: nat, log: seq<Batch>, cuts: seq<nat>)

  function LastCut(cuts: seq<nat>): nat {
    if cuts == [] then 0 else cuts[|cuts| - 1]
  }

  ghost predicate Fits(m: Machine, pair: TierPair) {
    && PairFits(m.src, m.dst, pair)
    && m.src.interval == pair.sourceInterval && m.dst.interval == pair.destInterval
  }

  /**
   What a step needs. A write must be well-formed; a pass lists its targets in
   some order, and no source bucket was overwritten since the pass before it.
   */
  ghost predicate Enabled(m: Machine, pair: TierPair, step: Step)
    requires Fits(m, pair)
  {
    match step
    case Record(b) => Writable(b, |m.src.vals|)
    case Consolidate(order) =>
      && Enumerates(m.src, pair, m.last, order)
      && LastCut(m.cuts) <= |m.log| <= LastCut(m.cuts) + |m.src.ts|
  }

  ghost function Do(m: Machine, pair: TierPair, step: Step): (m': Machine)
    requires Fits(m, pair) && Enabled(m, pair, step)
    ensures Fits(m', pair) && |m'.src.ts| == |m.src.ts| && |m'.dst.ts| == |m.dst.ts|
    ensures |m'.src.vals| == |m.src.vals| && |m'.dst.vals| == |m.dst.vals|
  {
    match step
    case Record(b) => m.(src := m.src.Write(b), log := m.log + [b])
    case Consolidate(order) =>
      EnumeratedInColumns(m.src, pair, m.last, order);
      var o := Pass(m.src, m.dst, pair, m.last, order);
      m.(dst := o.dst, last := o.last, cuts := m.cuts + [|m.log|])
  }

  /** `m'` is reached from `m` by these steps. */
  ghost predicate Reaches(m: Machine, pair: TierPair, steps: seq<Step>, m': Machine)
    requires Fits(m, pair)
    decreases |steps|
  {
    if steps == [] then m' == m
    else exists mid :: StepTo(m, pair, steps, mid, m')
  }

  ghost predicate StepTo(m: Machine, pair: TierPair, steps: seq<Step>, mid: Machine, m': Machine)
    requires Fits(m, pair) && steps != []
    decreases |steps|, 0
  {
    && Reaches(m, pair, steps[..|steps| - 1], mid) && Fits(mid, pair)
    && Enabled(mid, pair, steps[|steps| - 1]) && m' == Do(mid, pair, steps[|steps| - 1])
  }

  // ------------------------------------------------------- reference values

  /** All non-NaN points of a column in a log. */
  function AllPoints(log: seq<Batch>, c: nat): seq<Point> {
    if log == [] then []
    else AllPoints(log[..|log| - 1], c)
         + BatchPoint(log[|log| - 1], c, log[|log| - 1].time, log[|log| - 1].time + 1)
  }

  /** The values of column `c` in the window starting at `w`, in time order. */
  function LogValues(log: seq<Batch>, width: nat, w: nat, c: nat): seq<Float>
    requires width > 0
  {
    StartValues(AllPoints(log, c), width, w)
  }

  /** The reference: one downsampling of the whole log. */
  function OneShot(log: seq<Batch>, f: ConsolidationFn, width: nat, w: nat, c: nat): Float
    requires width > 0
  {
    Apply(f, LogValues(log, width, w, c))
  }

  ghost predicate CutsOf(cuts: seq<nat>, n: nat) {
    && (forall i | 0 <= i < |cuts| :: cuts[i] <= n)
    && forall i, j | 0 <= i < j < |cuts| :: cuts[i] <= cuts[j]
  }

  /** The values the pass at cut `i` aggregates for a cell: those written since the pass before it. */
  function SegmentValues(log: seq<Batch>, cuts: seq<nat>, i: nat, width: nat, w: nat, c: nat): seq<Float>
    requires width > 0 && i < |cuts|
  {
    var from := if i == 0 then 0 else cuts[i - 1];
    if from <= cuts[i] <= |log| then LogValues(log[from..cuts[i]], width, w, c) else []
  }

  /** What each pass saw for a cell. */
  function PassParts(log: seq<Batch>, cuts: seq<nat>, width: nat, w: nat, c: nat): seq<seq<Float>>
    requires width > 0
  {
    seq(|cuts|, i requires 0 <= i < |cuts| => SegmentValues(log, cuts, i, width, w, c))
  }

  /** The aggregate of the last part that is not empty; NaN if all are. */
  function Latest(f: ConsolidationFn, parts: seq<seq<Float>>): Float {
    if parts == [] then NaN
    else
      var last := parts[|parts| - 1];
      if last != [] then Apply(f, last) else Latest(f, parts[..|parts| - 1])
  }

  // ----------------------------------------------------- properties of a log

  lemma AllPointsAppend(log: seq<Batch>, b: Batch, c: nat)
    ensures AllPoints(log + [b], c) == AllPoints(log, c) + BatchPoint(b, c, b.time, b.time + 1)
  {
    assert (log + [b])[..|log|] == log;
  }

  lemma {:induction false} AllPointsSplit(x: seq<Batch>, y: seq<Batch>, c: nat)
    ensures AllPoints(x + y, c) == AllPoints(x, c) + AllPoints(y, c)
  {
    if y == [] {
      assert x + y == x;
    } else {
      var init, b := y[..|y| - 1], y[|y| - 1];
      AllPointsSplit(x, init, c);
      AllPointsSplitStep(x, init, b, c);
      Sequences.LastSplit(y);
    }
  }

  lemma AllPointsSplitStep(x: seq<Batch>, y: seq<Batch>, b: Batch, c: nat)
    requires AllPoints(x + y, c) == AllPoints(x, c) + AllPoints(y, c)
    ensures AllPoints(x + (y + [b]), c) == AllPoints(x, c) + AllPoints(y + [b], c)
  {
    AllPointsAppend(x + y, b, c);
    AllPointsAppend(y, b, c);
    Sequences.AppendAssoc(x, y, [b]);
    Sequences.AppendAssoc(AllPoints(x, c), AllPoints(y, c), BatchPoint(b, c, b.time, b.time + 1));
  }

  lemma {:induction false} StartValuesConcat(x: seq<Point>, y: seq<Point>, width: nat, w: nat)
    requires width > 0
    ensures StartValues(x + y, width, w) == StartValues(x, width, w) + StartValues(y, width, w)
  {
    if y == [] {
      assert x + y == x;
    } else {
      var init, p := y[..|y| - 1], y[|y| - 1];
      StartValuesConcat(x, init, width, w);
      assert x + y == (x + init) + [p] && y == init + [p];
      StartValuesAppend(x + init, p, width, w);
      StartValuesAppend(init, p, width, w);
    }
  }

  lemma LogValuesConcat(x: seq<Batch>, y: seq<Batch>, width: nat, w: nat, c: nat)
    requires width > 0
    ensures LogValues(x + y, width, w, c) == LogValues(x, width, w, c) + LogValues(y, width, w, c)
  {
    AllPointsSplit(x, y, c);
    StartValuesConcat(AllPoints(x, c), AllPoints(y, c), width, w);
  }

  /** A range that covers the log reads all its points. */
  lemma {:induction false} CoveringReadIsAllPoints(log: seq<Batch>, c: nat, start: nat, end: nat)
    requires forall i | 0 <= i < |log| :: start <= log[i].time < end
    ensures LogRead(log, c, start, end) == AllPoints(log, c)
  {
    if log != [] {
      var init, b := log[..|log| - 1], log[|log| - 1];
      CoveringReadIsAllPoints(init, c, start, end);
      LogReadSplit(log, |log| - 1, c, start, end);
      assert log[|log| - 1..] == [b];
      assert LogRead([b], c, start, end) == BatchPoint(b, c, start, end) + [];
    }
  }

  ghost predicate Silent(log: seq<Batch>, from: nat, to: nat, c: nat)
    requires from <= to <= |log|
  {
    forall i | from <= i < to ::
      Lookup(log[i].entries, c).Some? ==> Lookup(log[i].entries, c).value.NaN?
  }

  /** Timestamps at least one interval apart. */
  ghost predicate Spaced(log: seq<Batch>, interval: nat) {
    forall i | 0 < i < |log| :: log[i - 1].time + interval <= log[i].time
  }

  lemma SpacedGapFreeIsOnePerBucket(log: seq<Batch>, interval: nat)
    requires interval > 0 && GapFree(log, interval) && Spaced(log, interval)
    ensures OnePerBucket(log, interval)
  {
    forall i | 0 < i < |log| ensures log[i].time / interval == log[i - 1].time / interval + 1 {
      assert FollowsOn(log[i - 1].time, log[i].time, interval);
      Cyclic.ModAddTurn(log[i - 1].time, interval);
      Cyclic.DivMonotone(log[i - 1].time + interval, log[i].time, interval);
    }
  }

  lemma {:induction false} SpacedApart(log: seq<Batch>, interval: nat, i: nat, j: nat)
    requires Spaced(log, interval) && i < j < |log|
    ensures log[i].time + interval <= log[j].time
  {
    if i < j - 1 {
      SpacedApart(log, interval, i, j - 1);
      assert log[j - 1].time + interval <= log[j].time;
    } else {
      assert log[j - 1].time + interval <= log[j].time;
    }
  }

  /** The premises on the source writes. */
  ghost predicate GoodLog(log: seq<Batch>, pair: TierPair) {
    && pair.sourceInterval > 0 && pair.destInterval > 0
    && GapFree(log, pair.sourceInterval) && Spaced(log, pair.sourceInterval)
    && (forall c: nat | c < pair.maxSeries :: Uniform(log, c))
    && (forall i | 0 <= i < |log| :: pair.destInterval <= log[i].time)
  }

  lemma GoodPrefix(log: seq<Batch>, b: Batch, pair: TierPair)
    requires GoodLog(log + [b], pair)
    ensures GoodLog(log, pair)
  {
    var all := log + [b];
    forall i | 0 < i < |log| ensures FollowsOn(log[i - 1].time, log[i].time, pair.sourceInterval) {
      assert FollowsOn(all[i - 1].time, all[i].time, pair.sourceInterval);
    }
    forall i | 0 < i < |log| ensures log[i - 1].time + pair.sourceInterval <= log[i].time {
      assert all[i - 1].time + pair.sourceInterval <= all[i].time;
    }
    forall c: nat | c < pair.maxSeries ensures Uniform(log, c) {
      assert Uniform(all, c);
      forall i | 0 <= i < |log| ensures log[i] == all[i] {
      }
    }
    forall i | 0 <= i < |log| ensures pair.destInterval <= log[i].time {
      assert all[i] == log[i];
    }
  }

  // ------------------------------------------------- what a pass reads

  /** The cursor is the time of batch `k - 1`, and the batches from there to the last pass carry no values. */
  ghost predicate CursorAt(log: seq<Batch>, cuts: seq<nat>, last: nat, pair: TierPair, k: nat) {
    && k <= LastCut(cuts) <= |log|
    && last == (if k == 0 then 0 else log[k - 1].time)
    && forall c: nat | c < pair.maxSeries :: Silent(log, k, LastCut(cuts), c)
  }

  /** First of the batches `from..to` that a ring of `n` slots still holds after batch `to - 1`. */
  function Kept(from: nat, to: nat, n: nat): (k: nat)
    ensures from <= k
    ensures from <= to ==> k <= to
  {
    if to > n + from then to - n else from
  }

  /** The batches after the cursor that are still held, and only those, contribute to a read. */
  lemma RetainedRead(log: seq<Batch>, n: nat, k: nat, j: nat, c: nat, start: nat, end: nat)
    requires k <= j <= |log|
    requires forall i | k <= i < j && |log| - n <= i :: BatchPoint(log[i], c, start, end) == []
    requires forall i | 0 <= i < k :: log[i].time < start
    requires forall i | k <= i < |log| :: start <= log[i].time < end || i < |log| - n
    ensures LogRead(Tail(log, n), c, start, end) == AllPoints(log[Kept(j, |log|, n)..], c)
  {
    var first, from := |log| - |Tail(log, n)|, Kept(j, |log|, n);
    forall i | first <= i < from ensures BatchPoint(log[i], c, start, end) == [] {
    }
    SkipInTail(log, first, from, c, start, end);
    forall i | from <= i < |log| ensures start <= log[i].time < end {
    }
    CoveredTail(log, from, c, start, end);
  }

  lemma CoveredTail(log: seq<Batch>, from: nat, c: nat, start: nat, end: nat)
    requires from <= |log| && forall i | from <= i < |log| :: start <= log[i].time < end
    ensures LogRead(log[from..], c, start, end) == AllPoints(log[from..], c)
  {
    CoveringReadIsAllPoints(log[from..], c, start, end);
  }

  lemma SkipInTail(log: seq<Batch>, first: nat, from: nat, c: nat, start: nat, end: nat)
    requires first <= from <= |log|
    requires forall i | first <= i < from :: BatchPoint(log[i], c, start, end) == []
    ensures LogRead(log[first..], c, start, end) == LogRead(log[from..], c, start, end)
  {
    var tail := log[first..];
    forall i | 0 <= i < from - first ensures BatchPoint(tail[i], c, start, end) == [] {
      assert tail[i] == log[first + i];
    }
    LogReadSkip(tail, from - first, c, start, end);
    Sequences.DropDrop(log, first, from - first);
  }

  ghost predicate SourceOk(m: Machine, pair: TierPair, blank: Ring) {
    && IsBlank(blank) && blank.interval == pair.sourceInterval && pair.maxSeries <= |blank.vals|
    && WritableRun(m.log, |blank.vals|) && m.src == Run(blank, m.log)
    && GoodLog(m.log, pair)
  }

  lemma PassRange(m: Machine, pair: TierPair, blank: Ring, k: nat)
    requires SourceOk(m, pair, blank) && m.log != [] && CursorAt(m.log, m.cuts, m.last, pair, k)
    ensures PassEnd(m.src) == m.log[|m.log| - 1].time + 1
    ensures PassStart(m.src, pair, m.last)
            == if k == 0 then Tail(m.log, |m.src.ts|)[0].time else m.log[k - 1].time + pair.sourceInterval
    ensures forall i | 0 <= i < |m.log| :: m.log[i].time < PassEnd(m.src)
  {
    SpacedGapFreeIsOnePerBucket(m.log, pair.sourceInterval);
    SteadyBounds(blank, m.log);
    forall i | 0 <= i < |m.log| ensures m.log[i].time < PassEnd(m.src) {
      if i < |m.log| - 1 {
        TimesIncrease(m.log, pair.sourceInterval, i, |m.log| - 1);
      }
    }
    if k > 0 {
      assert pair.destInterval <= m.log[k - 1].time;
    }
  }

  lemma PassStartBounds(m: Machine, pair: TierPair, blank: Ring, k: nat)
    requires SourceOk(m, pair, blank) && m.log != [] && CursorAt(m.log, m.cuts, m.last, pair, k)
    ensures forall i | 0 <= i < k :: m.log[i].time < PassStart(m.src, pair, m.last)
    ensures forall i | k <= i < |m.log| ::
              PassStart(m.src, pair, m.last) <= m.log[i].time || i < |m.log| - |m.src.ts|
  {
    PassRange(m, pair, blank, k);
    var start, log := PassStart(m.src, pair, m.last), m.log;
    SpacedGapFreeIsOnePerBucket(log, pair.sourceInterval);
    if k == 0 {
      var first := |log| - |Tail(log, |m.src.ts|)|;
      assert Tail(log, |m.src.ts|)[0] == log[first];
      forall i | first <= i < |log| ensures start <= log[i].time {
        if first < i {
          TimesIncrease(log, pair.sourceInterval, first, i);
        }
      }
    } else {
      forall i | 0 <= i < k ensures log[i].time < start {
        if i < k - 1 {
          TimesIncrease(log, pair.sourceInterval, i, k - 1);
        }
      }
      forall i | k <= i < |log| ensures start <= log[i].time {
        SpacedApart(log, pair.sourceInterval, k - 1, i);
      }
    }
  }

  /** A pass aggregates exactly the points written since the pass before it. */
  lemma PassSeesNewPoints(m: Machine, pair: TierPair, blank: Ring, k: nat, c: nat)
    requires SourceOk(m, pair, blank) && CursorAt(m.log, m.cuts, m.last, pair, k) && c < pair.maxSeries
    requires |m.log| <= LastCut(m.cuts) + |m.src.ts|
    ensures (if HasNews(m.src, pair, m.last) then PassRead(m.src, pair, m.last, c) else [])
            == AllPoints(m.log[LastCut(m.cuts)..], c)
  {
    var log, j := m.log, LastCut(m.cuts);
    if log == [] {
      SteadyBounds(blank, log);
    } else {
      SpacedGapFreeIsOnePerBucket(log, pair.sourceInterval);
      PassRange(m, pair, blank, k);
      PassStartBounds(m, pair, blank, k);
      if HasNews(m.src, pair, m.last) {
        assert Uniform(log, c) && Silent(log, k, j, c);
        SteadyRead(blank, log, c, PassStart(m.src, pair, m.last), PassEnd(m.src));
        RetainedRead(log, |m.src.ts|, k, j, c, PassStart(m.src, pair, m.last), PassEnd(m.src));
      } else {
        NoNewsNoBatches(m, pair, blank, k);
      }
    }
  }

  lemma NoNewsNoBatches(m: Machine, pair: TierPair, blank: Ring, k: nat)
    requires SourceOk(m, pair, blank) && m.log != [] && CursorAt(m.log, m.cuts, m.last, pair, k)
    requires !HasNews(m.src, pair, m.last)
    ensures LastCut(m.cuts) == |m.log|
  {
    PassRange(m, pair, blank, k);
    PassStartBounds(m, pair, blank, k);
    assert k > |m.log| - 1;
  }
}
