/**
 Three tiers of one schema over whole runs: a cascade passes the fine tier into
 the middle one and then the middle tier into the coarse one. Passes of a middle
 tier see summaries, so it matters which of them are complete. These lemmas say
 when the coarse tier is as good as one downsampling of everything recorded, and
 give a run in which it is not.
 */
module ThreeTiers {
  import opened RingModel
  import opened BoundedLog
  import opened SteadyRuns
  import opened Schemas
  import opened Downsampling
  import opened Passes
  import opened Incremental
  import opened IncrementalRuns
  import opened Parts
  import opened MergedLogs
  import opened PassSummaries
  import Cascades
  import Cyclic
  import Sequences

  /** Two tier pairs that share the middle tier: the destination of `fine` is the source of `coarse`. */
  datatype Chain = Chain(fine: Machine, coarse: Machine)

  datatype ChainStep = Write(batch: Batch) | Cascade(first: seq<Target>, second: seq<Target>)

  ghost predicate ChainFits(ch: Chain, p1: TierPair, p2: TierPair) {
    Fits(ch.fine, p1) && Fits(ch.coarse, p2) && ch.coarse.src == ch.fine.dst
  }

  /** The coarse pair's source after these writes. */
  ghost function Feed(m: Machine, log: seq<Batch>): Machine
    requires m.src.Shaped()
  {
    m.(src := Run(m.src, log), log := m.log + log)
  }

  /** A cascade lists the targets of its two passes, those of the first in ascending order. */
  ghost predicate ChainEnabled(ch: Chain, p1: TierPair, p2: TierPair, step: ChainStep)
    requires ChainFits(ch, p1, p2)
  {
    match step
    case Write(b) => Enabled(ch.fine, p1, Record(b))
    case Cascade(first, second) =>
      && Enabled(ch.fine, p1, Consolidate(first)) && Ascends(first)
      && Enabled(Feed(ch.coarse, PassSummary(ch.fine, p1, first)), p2, Consolidate(second))
  }

  lemma FeedIsPass(ch: Chain, p1: TierPair, p2: TierPair, order: seq<Target>)
    requires ChainFits(ch, p1, p2) && Enabled(ch.fine, p1, Consolidate(order))
    ensures Feed(ch.coarse, PassSummary(ch.fine, p1, order)).src == Do(ch.fine, p1, Consolidate(order)).dst
  {
    var log := PassOf(ch.fine, p1, order);
    MergedRun(ch.fine.dst, log);
    if order != [] {
      assert order[0] in order;
    }
  }

  ghost function ChainDo(ch: Chain, p1: TierPair, p2: TierPair, step: ChainStep): (ch': Chain)
    requires ChainFits(ch, p1, p2) && ChainEnabled(ch, p1, p2, step)
    ensures ChainFits(ch', p1, p2)
  {
    match step
    case Write(b) => ch.(fine := Do(ch.fine, p1, Record(b)))
    case Cascade(first, second) =>
      FeedIsPass(ch, p1, p2, first);
      Chain(Do(ch.fine, p1, Consolidate(first)),
            Do(Feed(ch.coarse, PassSummary(ch.fine, p1, first)), p2, Consolidate(second)))
  }

  ghost predicate ChainReaches(ch: Chain, p1: TierPair, p2: TierPair, steps: seq<ChainStep>, ch': Chain)
    requires ChainFits(ch, p1, p2)
    decreases |steps|
  {
    if steps == [] then ch' == ch else exists mid :: ChainVia(ch, p1, p2, steps, mid, ch')
  }

  ghost predicate ChainVia(ch: Chain, p1: TierPair, p2: TierPair, steps: seq<ChainStep>, mid: Chain, ch': Chain)
    requires ChainFits(ch, p1, p2) && steps != []
    decreases |steps|, 0
  {
    var n := |steps| - 1;
    && ChainReaches(ch, p1, p2, steps[..n], mid) && ChainFits(mid, p1, p2)
    && ChainEnabled(mid, p1, p2, steps[n]) && ch' == ChainDo(mid, p1, p2, steps[n])
  }

  ghost predicate ChainStart(ch: Chain, p1: TierPair, p2: TierPair, blank: Ring) {
    ChainFits(ch, p1, p2) && IsStart(ch.fine, p1, blank) && IsStart(ch.coarse, p2, ch.fine.dst)
  }

  /** The chain stands for the first three tiers of schema `i` and their two cursors. */
  ghost predicate Mirrors(ch: Chain, t: Cascades.Tiers, i: nat) {
    && i < |t.rings| && 3 <= |t.rings[i]|
    && ch.fine.src == t.rings[i][0] && ch.fine.dst == t.rings[i][1]
    && ch.coarse.src == t.rings[i][1] && ch.coarse.dst == t.rings[i][2]
    && ch.fine.last == Cascades.LastProcessed(t.cursors, i, 0)
    && ch.coarse.last == Cascades.LastProcessed(t.cursors, i, 1)
  }

  ghost predicate MirrorsHalfway(ch: Chain, t: Cascades.Tiers, i: nat, m: Machine, src: Ring) {
    && i < |t.rings| && 3 <= |t.rings[i]|
    && m.src == t.rings[i][0] && m.dst == t.rings[i][1] && src == t.rings[i][1] && ch.coarse.dst == t.rings[i][2]
    && m.last == Cascades.LastProcessed(t.cursors, i, 0)
    && ch.coarse.last == Cascades.LastProcessed(t.cursors, i, 1)
  }

  /** A cascade of the chain is the two passes that the store's cascade makes for the schema. */
  lemma ChainIsCascade(ch: Chain, schemas: seq<SchemaConfig>, t: Cascades.Tiers, i: nat, first: seq<Target>,
                       second: seq<Target>)
    requires Cascades.CanPass(schemas, t, i, 0, first) && Mirrors(ch, t, i)
    requires Cascades.CanPass(schemas, Cascades.PairPass(schemas, t, i, 0, first), i, 1, second)
    requires var p1, p2 := Cascades.PairOf(schemas[i], 0), Cascades.PairOf(schemas[i], 1);
             ChainFits(ch, p1, p2) && ChainEnabled(ch, p1, p2, Cascade(first, second))
    ensures var p1, p2 := Cascades.PairOf(schemas[i], 0), Cascades.PairOf(schemas[i], 1);
            Mirrors(ChainDo(ch, p1, p2, Cascade(first, second)),
                    Cascades.PairPass(schemas, Cascades.PairPass(schemas, t, i, 0, first), i, 1, second), i)
  {
    var p1, p2 := Cascades.PairOf(schemas[i], 0), Cascades.PairOf(schemas[i], 1);
    var t1 := Cascades.PairPass(schemas, t, i, 0, first);
    FeedIsPass(ch, p1, p2, first);
    var fed := Feed(ch.coarse, PassSummary(ch.fine, p1, first));
    assert MirrorsHalfway(ch, t1, i, Do(ch.fine, p1, Consolidate(first)), fed.src);
  }

  // ----------------------------------------------------- each pair on its own

  /** A machine that some steps lead to. */
  ghost predicate Reached(start: Machine, pair: TierPair, m: Machine)
    requires Fits(start, pair)
  {
    exists steps :: Reaches(start, pair, steps, m)
  }

  lemma ReachedNext(start: Machine, pair: TierPair, m: Machine, step: Step)
    requires Fits(start, pair) && Reached(start, pair, m) && Fits(m, pair) && Enabled(m, pair, step)
    ensures Reached(start, pair, Do(m, pair, step))
  {
    var steps :| Reaches(start, pair, steps, m);
    var more := steps + [step];
    assert more[..|more| - 1] == steps;
    assert StepTo(start, pair, more, m, Do(m, pair, step));
    assert Reaches(start, pair, more, Do(m, pair, step));
  }

  lemma {:induction false} FeedIsReached(start: Machine, pair: TierPair, m: Machine, log: seq<Batch>)
    requires Fits(start, pair) && Reached(start, pair, m) && Fits(m, pair) && WritableRun(log, |m.src.vals|)
    ensures Fits(Feed(m, log), pair) && Reached(start, pair, Feed(m, log))
  {
    if log == [] {
      assert Feed(m, log) == m;
    } else {
      var init, b := log[..|log| - 1], log[|log| - 1];
      FeedIsReached(start, pair, m, init);
      ReachedNext(start, pair, Feed(m, init), Record(b));
      assert m.log + init + [b] == m.log + log;
    }
  }

  ghost predicate BothReached(start: Chain, p1: TierPair, p2: TierPair, ch: Chain)
    requires ChainFits(start, p1, p2)
  {
    ChainFits(ch, p1, p2) && Reached(start.fine, p1, ch.fine) && Reached(start.coarse, p2, ch.coarse)
  }

  lemma CascadeReaches(start: Chain, p1: TierPair, p2: TierPair, ch: Chain, first: seq<Target>, second: seq<Target>)
    requires ChainFits(start, p1, p2) && BothReached(start, p1, p2, ch)
    requires ChainEnabled(ch, p1, p2, Cascade(first, second))
    requires !MeetsWindowZero(ch.fine.src, p1, ch.fine.last)
    ensures BothReached(start, p1, p2, ChainDo(ch, p1, p2, Cascade(first, second)))
  {
    ReachedNext(start.fine, p1, ch.fine, Consolidate(first));
    PassLogIsWritable(ch.fine.src, p1, ch.fine.last, first, |ch.fine.dst.vals|);
    MergedIsWritable(PassOf(ch.fine, p1, first), |ch.fine.dst.vals|);
    var summary := PassSummary(ch.fine, p1, first);
    FeedIsReached(start.coarse, p2, ch.coarse, summary);
    ReachedNext(start.coarse, p2, Feed(ch.coarse, summary), Consolidate(second));
  }

  // ------------------------------------------------------- the middle tier

  /** The windows of the second stretch come after those of the first. */
  ghost predicate Follows(x: seq<Batch>, y: seq<Batch>, width: nat)
    requires width > 0
  {
    forall i, j | 0 <= i < |x| && 0 <= j < |y| :: Window(x[i], width) < Window(y[j], width)
  }

  /** Two stretches of one log, split between two windows. */
  ghost predicate Adjoins(x: seq<Batch>, y: seq<Batch>, pair: TierPair, cols: set<nat>)
    requires pair.destInterval > 0
  {
    && AllRecordOnly(x, cols, pair.maxSeries) && AllRecordOnly(y, cols, pair.maxSeries)
    && Follows(x, y, pair.destInterval)
    && (x != [] && y != [] ==> Window(y[0], pair.destInterval) == Window(x[|x| - 1], pair.destInterval) + 1)
  }

  lemma SummaryStays(x: seq<Batch>, y: seq<Batch>, pair: TierPair, cols: set<nat>, b: Batch, h: nat)
    requires pair.destInterval > 0 && AllRecordOnly(y, cols, pair.maxSeries)
    requires SummaryOf(b, x, pair, cols, h) && !Occurs(y, pair.destInterval, h)
    ensures SummaryOf(b, x + y, pair, cols, h)
  {
    forall c: nat | c < pair.maxSeries
      ensures LogValues(x + y, pair.destInterval, h * pair.destInterval, c)
              == LogValues(x, pair.destInterval, h * pair.destInterval, c)
    {
      CellHasValues(y, cols, pair.maxSeries, pair.destInterval, h, c);
      LogValuesConcat(x, y, pair.destInterval, h * pair.destInterval, c);
    }
  }

  lemma SummaryJoins(x: seq<Batch>, y: seq<Batch>, pair: TierPair, cols: set<nat>, b: Batch, h: nat)
    requires pair.destInterval > 0 && AllRecordOnly(x, cols, pair.maxSeries)
    requires SummaryOf(b, y, pair, cols, h) && !Occurs(x, pair.destInterval, h)
    ensures SummaryOf(b, x + y, pair, cols, h)
  {
    forall c: nat | c < pair.maxSeries
      ensures LogValues(x + y, pair.destInterval, h * pair.destInterval, c)
              == LogValues(y, pair.destInterval, h * pair.destInterval, c)
    {
      CellHasValues(x, cols, pair.maxSeries, pair.destInterval, h, c);
      LogValuesConcat(x, y, pair.destInterval, h * pair.destInterval, c);
    }
  }

  /** Summaries of a stretch and of the next one are summaries of both together. */
  lemma CompleteJoins(x: seq<Batch>, y: seq<Batch>, pair: TierPair, cols: set<nat>, sx: seq<Batch>, sy: seq<Batch>)
    requires pair.destInterval > 0 && Adjoins(x, y, pair, cols)
    requires Complete(sx, x, pair, cols) && Complete(sy, y, pair, cols)
    ensures Complete(sx + sy, x + y, pair, cols)
  {
    if x == [] {
      assert x + y == y && sx + sy == sy;
    } else if y == [] {
      assert x + y == x && sx + sy == sx;
    } else if Recorded(cols, pair.maxSeries) {
      var first := Window(x[0], pair.destInterval);
      assert (x + y)[0] == x[0] && (x + y)[|x + y| - 1] == y[|y| - 1];
      JoinSummaries(x, y, pair, cols, sx, sy, first);
    }
  }

  lemma JoinSummaries(x: seq<Batch>, y: seq<Batch>, pair: TierPair, cols: set<nat>, sx: seq<Batch>, sy: seq<Batch>,
                      first: nat)
    requires pair.destInterval > 0 && Adjoins(x, y, pair, cols) && x != [] && y != []
    requires Summarizes(sx, x, pair, cols, first) && Summarizes(sy, y, pair, cols, first + |sx|)
    requires first + |sx| == Window(y[0], pair.destInterval)
    ensures Summarizes(sx + sy, x + y, pair, cols, first)
  {
    forall i: nat | i < |sx + sy| ensures SummaryOf((sx + sy)[i], x + y, pair, cols, first + i) {
      if i < |sx| {
        assert (sx + sy)[i] == sx[i];
        EarlierSummary(x, y, pair, cols, sx, first, i);
      } else {
        assert (sx + sy)[i] == sy[i - |sx|] && first + i == first + |sx| + (i - |sx|);
        LaterSummary(x, y, pair, cols, sy, first + |sx|, i - |sx|);
      }
    }
  }

  lemma EarlierSummary(x: seq<Batch>, y: seq<Batch>, pair: TierPair, cols: set<nat>, sx: seq<Batch>, first: nat, i: nat)
    requires pair.destInterval > 0 && Adjoins(x, y, pair, cols) && x != [] && y != [] && i < |sx|
    requires Summarizes(sx, x, pair, cols, first) && first + |sx| == Window(y[0], pair.destInterval)
    ensures SummaryOf(sx[i], x + y, pair, cols, first + i)
  {
    NotBeyond(x, y, pair.destInterval, first + i);
    SummaryStays(x, y, pair, cols, sx[i], first + i);
  }

  lemma LaterSummary(x: seq<Batch>, y: seq<Batch>, pair: TierPair, cols: set<nat>, sy: seq<Batch>, first: nat, i: nat)
    requires pair.destInterval > 0 && Adjoins(x, y, pair, cols) && x != [] && y != [] && i < |sy|
    requires Summarizes(sy, y, pair, cols, first) && first == Window(y[0], pair.destInterval)
    ensures SummaryOf(sy[i], x + y, pair, cols, first + i)
  {
    NotBefore(x, y, pair.destInterval, first + i);
    SummaryJoins(x, y, pair, cols, sy[i], first + i);
  }

  lemma NotBeyond(x: seq<Batch>, y: seq<Batch>, width: nat, h: nat)
    requires width > 0 && x != [] && Follows(x, y, width) && h <= Window(x[|x| - 1], width)
    ensures !Occurs(y, width, h)
  {
  }

  lemma NotBefore(x: seq<Batch>, y: seq<Batch>, width: nat, h: nat)
    requires width > 0 && y != [] && Follows(x, y, width) && h >= Window(y[0], width)
    ensures !Occurs(x, width, h)
  {
  }

  // ------------------------------------------------------------- whole runs

  /** Three tiers whose windows nest, with one function. */
  ghost predicate Nested(p1: TierPair, p2: TierPair, k1: nat, k2: nat) {
    && WholeBuckets(p1.sourceInterval, p1.destInterval, k1) && WholeBuckets(p1.destInterval, p2.destInterval, k2)
    && p2.sourceInterval == p1.destInterval && p2.maxSeries == p1.maxSeries && p2.f == p1.f
  }

  /** The recorded batches: spaced, without gaps, after the first coarse window, all with the same series. */
  ghost predicate GoodRun(log: seq<Batch>, p1: TierPair, p2: TierPair, cols: set<nat>) {
    && GoodLog(log, p1) && AllRecordOnly(log, cols, p1.maxSeries)
    && forall i | 0 <= i < |log| :: p2.destInterval <= log[i].time
  }

  /** No cascade ran in the middle of a window of the middle tier. */
  ghost predicate CutsBetween(m: Machine, width: nat)
    requires width > 0
  {
    CutsOf(m.cuts, |m.log|) && CutsBetweenWindows(m.log, m.cuts, width)
  }

  ghost predicate ChainInv(start: Chain, p1: TierPair, p2: TierPair, ch: Chain, cols: set<nat>)
    requires ChainFits(start, p1, p2)
  {
    && BothReached(start, p1, p2, ch) && CutsOf(ch.fine.cuts, |ch.fine.log|)
    && LastCut(ch.coarse.cuts) == |ch.coarse.log|
    && Complete(ch.coarse.log, Upto(ch.fine.log, ch.fine.cuts), p1, cols)
  }

  lemma ReachedInv(start: Machine, pair: TierPair, m: Machine, blank: Ring, lo: nat)
    requires IsStart(start, pair, blank) && Reached(start, pair, m)
    requires GoodLog(m.log, pair) && WindowsFit(m.log, pair, lo, |start.dst.ts|)
    ensures Inv(m, pair, blank, lo) && |m.dst.ts| == |start.dst.ts|
  {
    var steps :| Reaches(start, pair, steps, m);
    ReachableInv(start, pair, steps, m, blank, lo);
  }

  /** What the passes were given so far, and what the next one will be given. */
  lemma NewWindowsFollow(m: Machine, interval: nat, width: nat, k: nat)
    requires WholeBuckets(interval, width, k) && OnePerBucket(m.log, interval) && CutsBetween(m, width)
    ensures var x, y := Upto(m.log, m.cuts), NewBatches(m);
            && x + y == m.log && Follows(x, y, width)
            && (x != [] && y != [] ==> Window(y[0], width) == Window(x[|x| - 1], width) + 1)
  {
    var x, y, j := Upto(m.log, m.cuts), NewBatches(m), LastCut(m.cuts);
    if x != [] && y != [] {
      assert m.cuts[|m.cuts| - 1] == j;
      WindowsTouch(m.log, interval, width, k, j);
      forall a, b | 0 <= a < |x| && 0 <= b < |y| ensures Window(x[a], width) < Window(y[b], width) {
        WindowsGrow(m.log, interval, width, a, j - 1);
        WindowsGrow(m.log, interval, width, j, j + b);
      }
    }
  }

  lemma CascadeKeepsInv(start: Chain, p1: TierPair, p2: TierPair, ch: Chain, cols: set<nat>, blank: Ring, lo: nat,
                        k1: nat, k2: nat, first: seq<Target>, second: seq<Target>)
    requires ChainStart(start, p1, p2, blank) && ChainInv(start, p1, p2, ch, cols) && Nested(p1, p2, k1, k2)
    requires GoodRun(ch.fine.log, p1, p2, cols) && WindowsFit(ch.fine.log, p1, lo, |start.fine.dst.ts|)
    requires CutsBetween(ch.fine, p1.destInterval) && ChainEnabled(ch, p1, p2, Cascade(first, second))
    ensures ChainInv(start, p1, p2, ChainDo(ch, p1, p2, Cascade(first, second)), cols)
  {
    ReachedInv(start.fine, p1, ch.fine, blank, lo);
    OrderInSpan(ch.fine, p1, blank, lo, first);
    CascadeReaches(start, p1, p2, ch, first, second);
    MiddleStaysComplete(ch.fine, p1, blank, lo, first, cols, k1, ch.coarse.log);
    CascadeSeesAll(ch, p1, p2, first, second);
  }

  lemma CascadeSeesAll(ch: Chain, p1: TierPair, p2: TierPair, first: seq<Target>, second: seq<Target>)
    requires ChainFits(ch, p1, p2) && ChainEnabled(ch, p1, p2, Cascade(first, second)) && CutsOf(ch.fine.cuts, |ch.fine.log|)
    ensures var ch' := ChainDo(ch, p1, p2, Cascade(first, second));
            && CutsOf(ch'.fine.cuts, |ch'.fine.log|) && Upto(ch'.fine.log, ch'.fine.cuts) == ch.fine.log
            && ch'.coarse.log == ch.coarse.log + PassSummary(ch.fine, p1, first)
            && LastCut(ch'.coarse.cuts) == |ch'.coarse.log|
  {
  }

  lemma PrefixRecords(log: seq<Batch>, n: nat, cols: set<nat>, series: nat)
    requires n <= |log| && AllRecordOnly(log, cols, series)
    ensures AllRecordOnly(log[..n], cols, series)
  {
  }

  lemma MiddleStaysComplete(m: Machine, pair: TierPair, blank: Ring, lo: nat, order: seq<Target>, cols: set<nat>, k: nat,
                            summary: seq<Batch>)
    requires PassReady(m, pair, blank, lo, order, cols, k) && CutsBetween(m, pair.destInterval)
    requires Complete(summary, Upto(m.log, m.cuts), pair, cols)
    ensures Complete(summary + PassSummary(m, pair, order), m.log, pair, cols)
  {
    NewPartAdjoins(m, pair, blank, lo, order, cols, k);
    PassSummarizes(m, pair, blank, lo, order, cols, k);
    CompleteJoins(Upto(m.log, m.cuts), NewBatches(m), pair, cols, summary, PassSummary(m, pair, order));
  }

  lemma NewPartAdjoins(m: Machine, pair: TierPair, blank: Ring, lo: nat, order: seq<Target>, cols: set<nat>, k: nat)
    requires PassReady(m, pair, blank, lo, order, cols, k) && CutsBetween(m, pair.destInterval)
    ensures Adjoins(Upto(m.log, m.cuts), NewBatches(m), pair, cols) && Upto(m.log, m.cuts) + NewBatches(m) == m.log
  {
    SpacedGapFreeIsOnePerBucket(m.log, pair.sourceInterval);
    NewWindowsFollow(m, pair.sourceInterval, pair.destInterval, k);
    NewBatchesAre(m, pair, blank, lo, order, cols, k);
    PrefixRecords(m.log, LastCut(m.cuts), cols, pair.maxSeries);
  }

  lemma WriteKeepsInv(start: Chain, p1: TierPair, p2: TierPair, ch: Chain, cols: set<nat>, b: Batch)
    requires ChainFits(start, p1, p2) && ChainInv(start, p1, p2, ch, cols) && ChainEnabled(ch, p1, p2, Write(b))
    ensures ChainInv(start, p1, p2, ChainDo(ch, p1, p2, Write(b)), cols)
  {
    ReachedNext(start.fine, p1, ch.fine, Record(b));
    assert Upto(ch.fine.log + [b], ch.fine.cuts) == Upto(ch.fine.log, ch.fine.cuts);
  }

  lemma CutsBefore(m: Machine, m': Machine, width: nat)
    requires width > 0 && CutsBetween(m', width) && CutsOf(m.cuts, |m.log|)
    requires |m.cuts| <= |m'.cuts| && m.cuts == m'.cuts[..|m.cuts|] && |m.log| <= |m'.log| && m.log == m'.log[..|m.log|]
    ensures CutsBetween(m, width)
  {
  }

  lemma GoodBefore(log: seq<Batch>, b: Batch, p1: TierPair, p2: TierPair, cols: set<nat>, lo: nat, slots: nat)
    requires GoodRun(log + [b], p1, p2, cols) && WindowsFit(log + [b], p1, lo, slots)
    ensures GoodRun(log, p1, p2, cols) && WindowsFit(log, p1, lo, slots)
  {
    GoodPrefix(log, b, p1);
    WindowsFitPrefix(log, b, p1, lo, slots);
    forall i | 0 <= i < |log| ensures RecordsOnly(log[i], cols, p1.maxSeries) && p2.destInterval <= log[i].time {
      assert (log + [b])[i] == log[i];
    }
  }

  lemma StartKeepsInv(start: Chain, p1: TierPair, p2: TierPair, cols: set<nat>, blank: Ring)
    requires ChainStart(start, p1, p2, blank)
    ensures ChainInv(start, p1, p2, start, cols)
  {
    assert Reaches(start.fine, p1, [], start.fine) && Reaches(start.coarse, p2, [], start.coarse);
  }

  lemma {:induction false} FineIsReached(start: Chain, p1: TierPair, p2: TierPair, steps: seq<ChainStep>, ch: Chain)
    requires ChainFits(start, p1, p2) && ChainReaches(start, p1, p2, steps, ch)
    ensures ChainFits(ch, p1, p2) && Reached(start.fine, p1, ch.fine)
    decreases |steps|
  {
    if steps == [] {
      assert Reaches(start.fine, p1, [], start.fine);
    } else {
      var n := |steps| - 1;
      var mid :| ChainVia(start, p1, p2, steps, mid, ch);
      FineIsReached(start, p1, p2, steps[..n], mid);
      ReachedNext(start.fine, p1, mid.fine,
                  match steps[n] case Write(b) => Record(b) case Cascade(first, _) => Consolidate(first));
    }
  }

  lemma EarlierCuts(start: Chain, p1: TierPair, p2: TierPair, steps: seq<ChainStep>, mid: Chain, m: Machine,
                    blank: Ring, lo: nat)
    requires ChainStart(start, p1, p2, blank) && ChainReaches(start, p1, p2, steps, mid)
    requires GoodLog(mid.fine.log, p1) && WindowsFit(mid.fine.log, p1, lo, |start.fine.dst.ts|)
    requires CutsBetween(m, p1.destInterval) && |mid.fine.cuts| <= |m.cuts| && mid.fine.cuts == m.cuts[..|mid.fine.cuts|]
    requires |mid.fine.log| <= |m.log| && mid.fine.log == m.log[..|mid.fine.log|]
    ensures CutsBetween(mid.fine, p1.destInterval)
  {
    FineIsReached(start, p1, p2, steps, mid);
    ReachedInv(start.fine, p1, mid.fine, blank, lo);
    CutsBefore(mid.fine, m, p1.destInterval);
  }

  lemma {:induction false} ReachableChainInv(start: Chain, p1: TierPair, p2: TierPair, steps: seq<ChainStep>, ch: Chain,
                                             cols: set<nat>, blank: Ring, lo: nat, k1: nat, k2: nat)
    requires ChainStart(start, p1, p2, blank) && ChainReaches(start, p1, p2, steps, ch) && Nested(p1, p2, k1, k2)
    requires GoodRun(ch.fine.log, p1, p2, cols) && WindowsFit(ch.fine.log, p1, lo, |start.fine.dst.ts|)
    requires CutsBetween(ch.fine, p1.destInterval)
    ensures ChainInv(start, p1, p2, ch, cols)
    decreases |steps|
  {
    if steps == [] {
      StartKeepsInv(start, p1, p2, cols, blank);
    } else {
      var n := |steps| - 1;
      var mid :| ChainVia(start, p1, p2, steps, mid, ch);
      match steps[n] {
        case Write(b) =>
          GoodBefore(mid.fine.log, b, p1, p2, cols, lo, |start.fine.dst.ts|);
          EarlierCuts(start, p1, p2, steps[..n], mid, ch.fine, blank, lo);
          ReachableChainInv(start, p1, p2, steps[..n], mid, cols, blank, lo, k1, k2);
          WriteKeepsInv(start, p1, p2, mid, cols, b);
        case Cascade(first, second) =>
          EarlierCuts(start, p1, p2, steps[..n], mid, ch.fine, blank, lo);
          ReachableChainInv(start, p1, p2, steps[..n], mid, cols, blank, lo, k1, k2);
          CascadeKeepsInv(start, p1, p2, mid, cols, blank, lo, k1, k2, first, second);
      }
    }
  }

  // ------------------------------------------- the middle tier's log as points

  lemma {:induction false} NothingBelow(points: seq<Point>, width: nat, f: ConsolidationFn, top: nat)
    requires width > 0 && forall i | 0 <= i < |points| :: points[i].0 / width >= top
    ensures Downsample(points, width, f, top) == []
  {
    if top > 0 {
      NothingBelow(points, width, f, top - 1);
      EmptyWindow(points, width, top - 1);
    }
  }

  /** The log that a run of complete summaries is made from. */
  ghost predicate SummaryRun(summary: seq<Batch>, log: seq<Batch>, pair: TierPair, cols: set<nat>, columns: nat,
                             interval: nat, k: nat) {
    && WholeBuckets(interval, pair.destInterval, k) && OnePerBucket(log, interval)
    && WritableRun(log, columns) && AllRecordOnly(log, cols, pair.maxSeries)
    && log != [] && Recorded(cols, pair.maxSeries) && Complete(summary, log, pair, cols)
  }

  /** The point that downsampling has for window `h`, if any. */
  function WindowPoint(points: seq<Point>, width: nat, f: ConsolidationFn, h: nat): seq<Point>
    requires width > 0
  {
    var values := WindowValues(points, width, h);
    if values == [] then [] else [(h * width, Apply(f, values))]
  }

  lemma DownsampleStep(points: seq<Point>, width: nat, f: ConsolidationFn, h: nat)
    requires width > 0
    ensures Downsample(points, width, f, h + 1) == Downsample(points, width, f, h) + WindowPoint(points, width, f, h)
  {
  }

  lemma SummaryPoint(b: Batch, log: seq<Batch>, pair: TierPair, cols: set<nat>, columns: nat, c: nat, h: nat)
    requires pair.destInterval > 0 && WritableRun(log, columns) && AllRecordOnly(log, cols, pair.maxSeries)
    requires c < pair.maxSeries && SummaryOf(b, log, pair, cols, h) && Occurs(log, pair.destInterval, h)
    ensures BatchPoint(b, c, b.time, b.time + 1) == WindowPoint(AllPoints(log, c), pair.destInterval, pair.f, h)
  {
    CellHasValues(log, cols, pair.maxSeries, pair.destInterval, h, c);
    if c in cols {
      ValuesHaveBatch(log, columns, pair.destInterval, h * pair.destInterval, c);
    }
  }

  lemma SummaryAt(summary: seq<Batch>, log: seq<Batch>, pair: TierPair, cols: set<nat>, columns: nat, interval: nat,
                  k: nat, i: nat)
    requires SummaryRun(summary, log, pair, cols, columns, interval, k) && i < |summary|
    ensures SummaryOf(summary[i], log, pair, cols, Window(log[0], pair.destInterval) + i)
    ensures Occurs(log, pair.destInterval, Window(log[0], pair.destInterval) + i)
  {
    WindowRange(log, interval, pair.destInterval, k, Window(log[0], pair.destInterval) + i);
  }

  /** Summaries from window `first` on, and the points of the log they are made from. */
  ghost predicate PointsUpto(summary: seq<Batch>, points: seq<Point>, pair: TierPair, first: nat, c: nat, n: nat)
    requires pair.destInterval > 0 && n <= |summary|
  {
    AllPoints(summary[..n], c) == Downsample(points, pair.destInterval, pair.f, first + n)
  }

  /** The batch shows the point that downsampling has for its window. */
  ghost predicate PointMatches(summary: seq<Batch>, points: seq<Point>, pair: TierPair, first: nat, c: nat, n: nat)
    requires pair.destInterval > 0 && n < |summary|
  {
    BatchPoint(summary[n], c, summary[n].time, summary[n].time + 1)
    == WindowPoint(points, pair.destInterval, pair.f, first + n)
  }

  lemma {:induction false} PointsMatch(summary: seq<Batch>, points: seq<Point>, pair: TierPair, first: nat, c: nat, n: nat)
    requires pair.destInterval > 0 && n <= |summary| && PointsUpto(summary, points, pair, first, c, 0)
    requires forall i: nat | i < |summary| :: PointMatches(summary, points, pair, first, c, i)
    ensures PointsUpto(summary, points, pair, first, c, n)
  {
    if n > 0 {
      PointsMatch(summary, points, pair, first, c, n - 1);
      PointsStep(summary, points, pair, first, c, n - 1);
    }
  }

  lemma PointsStep(summary: seq<Batch>, points: seq<Point>, pair: TierPair, first: nat, c: nat, n: nat)
    requires pair.destInterval > 0 && n < |summary|
    requires PointsUpto(summary, points, pair, first, c, n) && PointMatches(summary, points, pair, first, c, n)
    ensures PointsUpto(summary, points, pair, first, c, n + 1)
  {
    Sequences.TakeNext(summary, n);
    AllPointsAppend(summary[..n], summary[n], c);
    DownsampleStep(points, pair.destInterval, pair.f, first + n);
  }

  lemma PointsAtStart(summary: seq<Batch>, log: seq<Batch>, pair: TierPair, cols: set<nat>, interval: nat, c: nat)
    requires interval > 0 && pair.destInterval > 0 && OnePerBucket(log, interval) && log != []
    requires AllRecordOnly(log, cols, pair.maxSeries) && c < pair.maxSeries
    ensures PointsUpto(summary, AllPoints(log, c), pair, Window(log[0], pair.destInterval), c, 0)
  {
    PointsFrom(log, interval, pair.destInterval, cols, pair.maxSeries, c);
    NothingBelow(AllPoints(log, c), pair.destInterval, pair.f, Window(log[0], pair.destInterval));
  }

  /** The points of the summaries are the downsampling of the log. */
  lemma SummaryPoints(summary: seq<Batch>, log: seq<Batch>, pair: TierPair, cols: set<nat>, columns: nat, interval: nat,
                      k: nat, c: nat)
    requires SummaryRun(summary, log, pair, cols, columns, interval, k) && c < pair.maxSeries
    ensures AllPoints(summary, c)
            == Downsample(AllPoints(log, c), pair.destInterval, pair.f, Window(log[0], pair.destInterval) + |summary|)
  {
    var points, first := AllPoints(log, c), Window(log[0], pair.destInterval);
    PointsAtStart(summary, log, pair, cols, interval, c);
    forall i: nat | i < |summary| ensures PointMatches(summary, points, pair, first, c, i) {
      SummaryMatches(summary, log, pair, cols, columns, interval, k, c, i);
    }
    PointsMatch(summary, points, pair, first, c, |summary|);
    Sequences.TakeAll(summary);
  }

  lemma SummaryMatches(summary: seq<Batch>, log: seq<Batch>, pair: TierPair, cols: set<nat>, columns: nat, interval: nat,
                       k: nat, c: nat, i: nat)
    requires SummaryRun(summary, log, pair, cols, columns, interval, k) && c < pair.maxSeries && i < |summary|
    ensures PointMatches(summary, AllPoints(log, c), pair, Window(log[0], pair.destInterval), c, i)
  {
    var h := Window(log[0], pair.destInterval) + i;
    SummaryAt(summary, log, pair, cols, columns, interval, k, i);
    assert SummaryOf(summary[i], log, pair, cols, h) && Occurs(log, pair.destInterval, h);
    SummaryPoint(summary[i], log, pair, cols, columns, c, h);
  }

  lemma PointsFrom(log: seq<Batch>, interval: nat, width: nat, cols: set<nat>, series: nat, c: nat)
    requires interval > 0 && width > 0 && OnePerBucket(log, interval) && log != [] && AllRecordOnly(log, cols, series)
    requires c < series
    ensures forall i | 0 <= i < |AllPoints(log, c)| ::
              Window(log[0], width) <= AllPoints(log, c)[i].0 / width <= Window(log[|log| - 1], width)
    ensures Sorted(AllPoints(log, c))
  {
    var points := AllPoints(log, c);
    RecordedPoints(log, cols, series, c);
    forall i | 0 <= i < |points|
      ensures Window(log[0], width) <= points[i].0 / width <= Window(log[|log| - 1], width)
    {
      WindowsGrow(log, interval, width, 0, i);
      WindowsGrow(log, interval, width, i, |log| - 1);
    }
    forall i, j | 0 <= i < j < |points| ensures points[i].0 <= points[j].0 {
      TimesIncrease(log, interval, i, j);
    }
  }

  // --------------------------------------------- the coarse pair's premises

  lemma SummaryTimes(summary: seq<Batch>, log: seq<Batch>, p1: TierPair, p2: TierPair, cols: set<nat>, columns: nat,
                     k1: nat, k2: nat, i: nat) returns (j: nat)
    requires Nested(p1, p2, k1, k2) && i < |summary|
    requires SummaryRun(summary, log, p1, cols, columns, p1.sourceInterval, k1)
    ensures summary[i].time == (Window(log[0], p1.destInterval) + i) * p1.destInterval
    ensures j < |log| && summary[i].time / p2.destInterval == log[j].time / p2.destInterval
    ensures summary[i].time / p1.destInterval == Window(log[0], p1.destInterval) + i
  {
    var h := Window(log[0], p1.destInterval) + i;
    SummaryAt(summary, log, p1, cols, columns, p1.sourceInterval, k1, i);
    j :| 0 <= j < |log| && Window(log[j], p1.destInterval) == h;
    WindowStart(h, p1.destInterval, k2);
    CoarseWindow(log[j].time, p1.destInterval, k2);
    WindowOfStart(h, p1.destInterval);
  }

  lemma SummarySteps(h: nat, width: nat)
    requires width > 0
    ensures h * width + width == (h + 1) * width && FollowsOn(h * width, (h + 1) * width, width)
  {
    WindowOfStart(h, width);
    WindowOfStart(h + 1, width);
  }

  lemma SummariesUniform(summary: seq<Batch>, log: seq<Batch>, pair: TierPair, cols: set<nat>, first: nat, c: nat)
    requires pair.destInterval > 0 && Summarizes(summary, log, pair, cols, first) && c < pair.maxSeries
    ensures Uniform(summary, c)
  {
    forall i | 0 <= i < |summary| ensures Lookup(summary[i].entries, c).Some? <==> c in cols {
      assert SummaryOf(summary[i], log, pair, cols, first + i);
    }
  }

  lemma SummariesSpaced(summary: seq<Batch>, log: seq<Batch>, pair: TierPair, cols: set<nat>, first: nat)
    requires pair.destInterval > 0 && Summarizes(summary, log, pair, cols, first)
    ensures GapFree(summary, pair.destInterval) && Spaced(summary, pair.destInterval)
  {
    forall i | 0 < i < |summary|
      ensures FollowsOn(summary[i - 1].time, summary[i].time, pair.destInterval)
      ensures summary[i - 1].time + pair.destInterval <= summary[i].time
    {
      assert SummaryOf(summary[i - 1], log, pair, cols, first + (i - 1));
      assert SummaryOf(summary[i], log, pair, cols, first + i);
      SummarySteps(first + (i - 1), pair.destInterval);
    }
  }

  /** The middle tier's summaries are a source log that the theorems about one pair accept. */
  lemma SummariesAreGood(summary: seq<Batch>, log: seq<Batch>, p1: TierPair, p2: TierPair, cols: set<nat>,
                         columns: nat, k1: nat, k2: nat, lo: nat, slots: nat)
    requires Nested(p1, p2, k1, k2) && WindowsFit(log, p2, lo, slots)
    requires SummaryRun(summary, log, p1, cols, columns, p1.sourceInterval, k1)
    requires forall i | 0 <= i < |log| :: p2.destInterval <= log[i].time
    ensures GoodLog(summary, p2) && WindowsFit(summary, p2, lo, slots)
  {
    var first := Window(log[0], p1.destInterval);
    SummariesSpaced(summary, log, p1, cols, first);
    forall c: nat | c < p2.maxSeries ensures Uniform(summary, c) {
      SummariesUniform(summary, log, p1, cols, first, c);
    }
    forall i | 0 <= i < |summary|
      ensures lo <= summary[i].time / p2.destInterval < lo + slots && p2.destInterval <= summary[i].time
    {
      var j := SummaryTimes(summary, log, p1, p2, cols, columns, k1, k2, i);
      SameCoarseWindow(summary[i].time, log[j].time, p2.destInterval);
    }
  }

  lemma SameCoarseWindow(t: nat, t': nat, width: nat)
    requires width > 0 && t / width == t' / width && width <= t'
    ensures width <= t
  {
    Cyclic.DivMonotone(width, t', width);
  }

  /** Two stages give what one gives: the coarse aggregate of the summaries is that of the log. */
  lemma SameOneShot(summary: seq<Batch>, log: seq<Batch>, p1: TierPair, p2: TierPair, cols: set<nat>, columns: nat,
                    k1: nat, k2: nat, w: nat, c: nat)
    requires Nested(p1, p2, k1, k2) && Mergeable(p1.f) && c < p1.maxSeries
    requires SummaryRun(summary, log, p1, cols, columns, p1.sourceInterval, k1)
    ensures OneShot(summary, p2.f, p2.destInterval, w, c) == OneShot(log, p2.f, p2.destInterval, w, c)
  {
    var top := Window(log[0], p1.destInterval) + |summary|;
    SummaryPoints(summary, log, p1, cols, columns, p1.sourceInterval, k1, c);
    PointsBelow(summary, log, p1, cols, columns, k1, c);
    SameStages(AllPoints(summary, c), AllPoints(log, c), p1.destInterval, p2.destInterval, k2, p1.f, top, w);
  }

  lemma PointsBelow(summary: seq<Batch>, log: seq<Batch>, pair: TierPair, cols: set<nat>, columns: nat, k: nat, c: nat)
    requires SummaryRun(summary, log, pair, cols, columns, pair.sourceInterval, k) && c < pair.maxSeries
    ensures forall i | 0 <= i < |AllPoints(log, c)| ::
              AllPoints(log, c)[i].0 / pair.destInterval < Window(log[0], pair.destInterval) + |summary|
    ensures Sorted(AllPoints(log, c)) && AllFinite(AllPoints(log, c))
  {
    PointsFrom(log, pair.sourceInterval, pair.destInterval, cols, pair.maxSeries, c);
    PointsAreFinite(log, c, columns);
  }

  lemma SameStages(stage: seq<Point>, points: seq<Point>, a: nat, width: nat, k: nat, f: ConsolidationFn, top: nat, w: nat)
    requires WholeBuckets(a, width, k) && Sorted(points) && AllFinite(points) && Mergeable(f)
    requires forall i | 0 <= i < |points| :: points[i].0 / a < top
    requires stage == Downsample(points, a, f, top)
    ensures Apply(f, StartValues(stage, width, w)) == Apply(f, StartValues(points, width, w))
  {
    if w % width == 0 {
      TwoStagesEqualOne(points, a, k, f, w / width, top);
    }
  }

  // ------------------------------------------------------------- the theorem

  lemma NothingSummarized(log: seq<Batch>, p1: TierPair, p2: TierPair, cols: set<nat>, w: nat, c: nat)
    requires p2.destInterval > 0 && AllRecordOnly(log, cols, p1.maxSeries) && c < p1.maxSeries
    requires log == [] || !Recorded(cols, p1.maxSeries)
    ensures OneShot([], p2.f, p2.destInterval, w, c) == OneShot(log, p2.f, p2.destInterval, w, c)
  {
    RecordedPoints(log, cols, p1.maxSeries, c);
  }

  /** Everything the cascades were given, and the middle tier's summaries of it. */
  lemma CompleteIsEnough(summary: seq<Batch>, log: seq<Batch>, p1: TierPair, p2: TierPair, cols: set<nat>, columns: nat,
                         k1: nat, k2: nat, lo: nat, slots: nat)
    requires Nested(p1, p2, k1, k2) && Mergeable(p1.f) && WindowsFit(log, p2, lo, slots)
    requires GoodRun(log, p1, p2, cols) && WritableRun(log, columns) && Complete(summary, log, p1, cols)
    ensures GoodLog(summary, p2) && WindowsFit(summary, p2, lo, slots)
    ensures forall w: nat, c: nat | c < p1.maxSeries ::
              OneShot(summary, p2.f, p2.destInterval, w, c) == OneShot(log, p2.f, p2.destInterval, w, c)
  {
    SpacedGapFreeIsOnePerBucket(log, p1.sourceInterval);
    if log == [] || !Recorded(cols, p1.maxSeries) {
      assert forall c: nat :: NoneWrites(summary, c);
      forall w: nat, c: nat | c < p1.maxSeries
        ensures OneShot(summary, p2.f, p2.destInterval, w, c) == OneShot(log, p2.f, p2.destInterval, w, c)
      {
        NothingSummarized(log, p1, p2, cols, w, c);
      }
    } else {
      SummariesAreGood(summary, log, p1, p2, cols, columns, k1, k2, lo, slots);
      forall w: nat, c: nat | c < p1.maxSeries
        ensures OneShot(summary, p2.f, p2.destInterval, w, c) == OneShot(log, p2.f, p2.destInterval, w, c)
      {
        SameOneShot(summary, log, p1, p2, cols, columns, k1, k2, w, c);
      }
    }
  }

  /** The coarse ring holds the downsampling of everything the cascades were given, straight from the batches. */
  ghost predicate HoldsAll(ch: Chain, p2: TierPair, lo: nat)
    requires Fits(ch.coarse, p2) && CutsOf(ch.fine.cuts, |ch.fine.log|)
  {
    forall w: nat | InSpan(w, p2.destInterval, lo, |ch.coarse.dst.ts|) ::
      CellsAre(ch.coarse.dst, p2, w, Upto(ch.fine.log, ch.fine.cuts))
  }

  ghost predicate CoarseUnsplit(m: Machine, pair: TierPair)
    requires pair.destInterval > 0
  {
    forall w: nat, c: nat | c < pair.maxSeries :: Unsplit(CellParts(m, pair, w, c))
  }

  lemma CoarseHolds(start: Machine, pair: TierPair, m: Machine, blank: Ring, lo: nat)
    requires IsStart(start, pair, blank) && Reached(start, pair, m) && LastCut(m.cuts) == |m.log|
    requires GoodLog(m.log, pair) && WindowsFit(m.log, pair, lo, |start.dst.ts|)
    requires pair.f == Last || CoarseUnsplit(m, pair)
    ensures Fits(m, pair)
    ensures forall w: nat | InSpan(w, pair.destInterval, lo, |m.dst.ts|) :: CellsAre(m.dst, pair, w, m.log)
  {
    var steps :| Reaches(start, pair, steps, m);
    if pair.f == Last {
      LastIsScheduleIndependent(start, pair, steps, m, blank, lo);
    } else {
      IncrementalEqualsOneShot(start, pair, steps, m, blank, lo);
    }
    assert Upto(m.log, m.cuts) == m.log by {
      Sequences.TakeAll(m.log);
    }
  }

  lemma SameCells(dst: Ring, pair: TierPair, w: nat, x: seq<Batch>, y: seq<Batch>)
    requires dst.Shaped() && pair.destInterval > 0 && CellsAre(dst, pair, w, x)
    requires forall c: nat | c < pair.maxSeries ::
               OneShot(x, pair.f, pair.destInterval, w, c) == OneShot(y, pair.f, pair.destInterval, w, c)
    ensures CellsAre(dst, pair, w, y)
  {
  }

  lemma RunPrefixIsGood(log: seq<Batch>, n: nat, p1: TierPair, p2: TierPair, cols: set<nat>, columns: nat, lo: nat, slots: nat)
    requires p2.destInterval > 0 && GoodRun(log, p1, p2, cols) && WindowsFit(log, p2, lo, slots)
    requires WritableRun(log, columns) && n <= |log|
    ensures GoodRun(log[..n], p1, p2, cols) && WindowsFit(log[..n], p2, lo, slots) && WritableRun(log[..n], columns)
  {
    var part := log[..n];
    forall i | 0 < i < n
      ensures FollowsOn(part[i - 1].time, part[i].time, p1.sourceInterval)
      ensures part[i - 1].time + p1.sourceInterval <= part[i].time
    {
      assert FollowsOn(log[i - 1].time, log[i].time, p1.sourceInterval);
      assert log[i - 1].time + p1.sourceInterval <= log[i].time;
    }
    forall c: nat | c < p1.maxSeries ensures Uniform(part, c) {
      assert Uniform(log, c);
    }
  }

  /**
   Three tiers are as good as one downsampling of everything recorded: for Min,
   Max, Sum and Last, when the batches come without gaps, the windows nest, no
   cascade runs in the middle of a middle window, each first pass visits its
   windows in ascending order, and nothing is lost between passes. For Last the
   coarse windows may be split at will; for the others they may not.
   */
  lemma ThreeTiersEqualOne(start: Chain, p1: TierPair, p2: TierPair, steps: seq<ChainStep>, ch: Chain,
                           cols: set<nat>, blank: Ring, lo1: nat, lo2: nat, k1: nat, k2: nat)
    requires ChainStart(start, p1, p2, blank) && ChainReaches(start, p1, p2, steps, ch)
    requires Nested(p1, p2, k1, k2) && Mergeable(p1.f) && GoodRun(ch.fine.log, p1, p2, cols)
    requires WindowsFit(ch.fine.log, p1, lo1, |start.fine.dst.ts|)
    requires WindowsFit(ch.fine.log, p2, lo2, |start.coarse.dst.ts|)
    requires CutsBetween(ch.fine, p1.destInterval) && (p2.f == Last || CoarseUnsplit(ch.coarse, p2))
    ensures Fits(ch.coarse, p2) && CutsOf(ch.fine.cuts, |ch.fine.log|) && HoldsAll(ch, p2, lo2)
  {
    ReachableChainInv(start, p1, p2, steps, ch, cols, blank, lo1, k1, k2);
    ReachedInv(start.fine, p1, ch.fine, blank, lo1);
    var given := Upto(ch.fine.log, ch.fine.cuts);
    RunPrefixIsGood(ch.fine.log, LastCut(ch.fine.cuts), p1, p2, cols, |blank.vals|, lo2, |start.coarse.dst.ts|);
    CompleteIsEnough(ch.coarse.log, given, p1, p2, cols, |blank.vals|, k1, k2, lo2, |start.coarse.dst.ts|);
    CoarseHolds(start.coarse, p2, ch.coarse, start.fine.dst, lo2);
    forall w: nat | InSpan(w, p2.destInterval, lo2, |ch.coarse.dst.ts|) ensures CellsAre(ch.coarse.dst, p2, w, given) {
      SameCells(ch.coarse.dst, p2, w, ch.coarse.log, given);
    }
  }
}
