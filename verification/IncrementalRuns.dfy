/** The whole-run theorems of incremental consolidation. */
module IncrementalRuns {
  import opened Floats
  import opened RingModel
  import opened RingRuns
  import opened RingOrder
  import opened SteadyRuns
  import opened Schemas
  import opened Downsampling
  import opened Passes
  import opened Incremental
  import opened Parts
  import Cyclic

  // ------------------------------------------------------ window arithmetic

  /** All windows of the log fit into the destination without lapping it. */
  ghost predicate WindowsFit(log: seq<Batch>, pair: TierPair, lo: nat, slots: nat)
    requires pair.destInterval > 0
  {
    forall i | 0 <= i < |log| :: lo <= log[i].time / pair.destInterval < lo + slots
  }

  ghost predicate InSpan(w: nat, width: nat, lo: nat, slots: nat)
    requires width > 0
  {
    w % width == 0 && lo <= w / width < lo + slots
  }

  lemma SpanSlots(dst: Ring, lo: nat, w: nat, w': nat)
    requires dst.Shaped() && InSpan(w, dst.interval, lo, |dst.ts|) && InSpan(w', dst.interval, lo, |dst.ts|)
    requires dst.SlotOf(w) == dst.SlotOf(w')
    ensures w == w'
  {
    var u, u' := w / dst.interval, w' / dst.interval;
    if u <= u' {
      Cyclic.ModInjective(u, u', |dst.ts|);
    } else {
      Cyclic.ModInjective(u', u, |dst.ts|);
    }
    assert w == u * dst.interval && w' == u' * dst.interval;
  }

  // ------------------------------------------------------- points and values

  lemma {:induction false} PointsAreFinite(log: seq<Batch>, c: nat, columns: nat)
    requires WritableRun(log, columns)
    ensures AllFinite(AllPoints(log, c))
    ensures forall p | p in AllPoints(log, c) :: exists i :: 0 <= i < |log| && log[i].time == p.0
  {
    if log != [] {
      var init, b := log[..|log| - 1], log[|log| - 1];
      PointsAreFinite(init, c, columns);
      LookupIsAnEntry(b.entries, c);
      forall p | p in AllPoints(log, c) ensures exists i :: 0 <= i < |log| && log[i].time == p.0 {
        if p in AllPoints(init, c) {
          var i :| 0 <= i < |init| && init[i].time == p.0;
          assert log[i].time == p.0;
        } else {
          assert log[|log| - 1].time == p.0;
        }
      }
      assert Writable(b, columns);
    }
  }

  /** A window with values is the window of some batch. */
  lemma ValuesHaveBatch(log: seq<Batch>, columns: nat, width: nat, w: nat, c: nat)
    requires width > 0 && WritableRun(log, columns) && LogValues(log, width, w, c) != []
    ensures w % width == 0
    ensures exists i :: 0 <= i < |log| && log[i].time / width == w / width
    ensures !Apply(Last, LogValues(log, width, w, c)).NaN?
    ensures forall f :: !Apply(f, LogValues(log, width, w, c)).NaN?
  {
    var points := AllPoints(log, c);
    PointsAreFinite(log, c, columns);
    if i :| 0 <= i < |points| && points[i].0 / width == w / width {
      assert points[i] in points;
    } else {
      EmptyWindow(points, width, w / width);
    }
    WindowValuesFinite(points, width, w / width);
    var values := LogValues(log, width, w, c);
    assert Finite(values[0].value) in values;
    forall f ensures !Apply(f, values).NaN? {
      ApplyIsFinite(f, values);
    }
  }

  lemma NoValuesIsSilent(log: seq<Batch>, width: nat, c: nat)
    requires width > 0 && forall w :: LogValues(log, width, w, c) == []
    ensures AllPoints(log, c) == [] && Silent(log, 0, |log|, c)
  {
    var points := AllPoints(log, c);
    if points != [] {
      var init, p := points[..|points| - 1], points[|points| - 1];
      assert points == init + [p];
      assert LogValues(log, width, p.0 / width * width, c) == [];
      StartValuesAppend(init, p, width, p.0 / width * width);
    }
    NoPointsIsSilent(log, c);
  }

  lemma {:induction false} NoPointsIsSilent(log: seq<Batch>, c: nat)
    requires AllPoints(log, c) == []
    ensures Silent(log, 0, |log|, c)
  {
    if log != [] {
      NoPointsIsSilent(log[..|log| - 1], c);
      forall i | 0 <= i < |log| ensures Lookup(log[i].entries, c).Some? ==> Lookup(log[i].entries, c).value.NaN? {
        if i < |log| - 1 {
          assert log[..|log| - 1][i] == log[i];
        }
      }
    }
  }

  lemma SegmentStable(log: seq<Batch>, log': seq<Batch>, cuts: seq<nat>, cuts': seq<nat>, i: nat,
                      width: nat, w: nat, c: nat)
    requires width > 0 && i < |cuts| && i < |cuts'|
    requires cuts[i] == cuts'[i] && (i > 0 ==> cuts[i - 1] == cuts'[i - 1])
    requires |log| <= |log'| && log == log'[..|log|] && cuts[i] <= |log|
    ensures SegmentValues(log, cuts, i, width, w, c) == SegmentValues(log', cuts', i, width, w, c)
  {
    var from := if i == 0 then 0 else cuts[i - 1];
    if from <= cuts[i] {
      assert log[from..cuts[i]] == log'[from..cuts[i]];
    }
  }

  lemma PartsStable(log: seq<Batch>, b: Batch, cuts: seq<nat>, width: nat, w: nat, c: nat)
    requires width > 0 && CutsOf(cuts, |log|)
    ensures PassParts(log + [b], cuts, width, w, c) == PassParts(log, cuts, width, w, c)
  {
    assert (log + [b])[..|log|] == log;
    forall i | 0 <= i < |cuts|
      ensures SegmentValues(log, cuts, i, width, w, c) == SegmentValues(log + [b], cuts, i, width, w, c)
    {
      SegmentStable(log, log + [b], cuts, cuts, i, width, w, c);
    }
  }

  lemma PartsGrow(log: seq<Batch>, cuts: seq<nat>, width: nat, w: nat, c: nat)
    requires width > 0 && CutsOf(cuts, |log|)
    ensures PassParts(log, cuts + [|log|], width, w, c)
            == PassParts(log, cuts, width, w, c) + [LogValues(log[LastCut(cuts)..], width, w, c)]
  {
    var cuts' := cuts + [|log|];
    forall i | 0 <= i < |cuts|
      ensures SegmentValues(log, cuts, i, width, w, c) == SegmentValues(log, cuts', i, width, w, c)
    {
      SegmentStable(log, log, cuts, cuts', i, width, w, c);
    }
    assert log[LastCut(cuts)..|log|] == log[LastCut(cuts)..];
  }

  // ------------------------------------------------------------- invariant

  ghost function CellParts(m: Machine, pair: TierPair, w: nat, c: nat): seq<seq<Float>>
    requires pair.destInterval > 0
  {
    PassParts(m.log, m.cuts, pair.destInterval, w, c)
  }

  ghost function Expected(m: Machine, pair: TierPair, w: nat, c: nat): Float
    requires pair.destInterval > 0
  {
    if c < pair.maxSeries then Latest(pair.f, CellParts(m, pair, w, c)) else NaN
  }

  ghost predicate HasValue(m: Machine, pair: TierPair, w: nat)
    requires pair.destInterval > 0
  {
    exists c :: 0 <= c < pair.maxSeries && !Expected(m, pair, w, c).NaN?
  }

  ghost predicate WindowOk(m: Machine, pair: TierPair, w: nat)
    requires Fits(m, pair)
  {
    var s := m.dst.SlotOf(w);
    && m.dst.ts[s] == (if HasValue(m, pair, w) then w else 0)
    && forall c | 0 <= c < |m.dst.vals| :: m.dst.vals[c][s] == Expected(m, pair, w, c)
  }

  ghost predicate DestOk(m: Machine, pair: TierPair, lo: nat)
    requires Fits(m, pair)
  {
    forall w: nat | InSpan(w, pair.destInterval, lo, |m.dst.ts|) :: WindowOk(m, pair, w)
  }

  ghost predicate Inv(m: Machine, pair: TierPair, blank: Ring, lo: nat) {
    && Fits(m, pair) && SourceOk(m, pair, blank)
    && CutsOf(m.cuts, |m.log|) && (exists k :: CursorAt(m.log, m.cuts, m.last, pair, k))
    && Consistent(m.dst) && DestOk(m, pair, lo)
  }

  lemma CursorAfterRecord(log: seq<Batch>, b: Batch, cuts: seq<nat>, last: nat, pair: TierPair, k: nat)
    requires CursorAt(log, cuts, last, pair, k)
    ensures CursorAt(log + [b], cuts, last, pair, k)
  {
    forall c: nat | c < pair.maxSeries ensures Silent(log + [b], k, LastCut(cuts), c) {
      assert Silent(log, k, LastCut(cuts), c);
    }
  }

  lemma RecordKeepsInv(m: Machine, pair: TierPair, blank: Ring, lo: nat, b: Batch)
    requires Inv(m, pair, blank, lo) && Writable(b, |m.src.vals|) && GoodLog(m.log + [b], pair)
    ensures Inv(Do(m, pair, Record(b)), pair, blank, lo)
  {
    var m' := Do(m, pair, Record(b));
    assert m'.log[..|m.log|] == m.log;
    var k :| CursorAt(m.log, m.cuts, m.last, pair, k);
    CursorAfterRecord(m.log, b, m.cuts, m.last, pair, k);
    forall w: nat | InSpan(w, pair.destInterval, lo, |m.dst.ts|) ensures WindowOk(m', pair, w) {
      assert WindowOk(m, pair, w);
      forall c: nat ensures Expected(m', pair, w, c) == Expected(m, pair, w, c) {
        PartsStable(m.log, b, m.cuts, pair.destInterval, w, c);
      }
    }
  }

  // -------------------------------------------------------------- one pass

  /** The values the pass sees for a cell. */
  ghost function Seen(m: Machine, pair: TierPair, w: nat, c: nat): seq<Float>
    requires pair.destInterval > 0 && LastCut(m.cuts) <= |m.log|
  {
    LogValues(m.log[LastCut(m.cuts)..], pair.destInterval, w, c)
  }

  lemma TargetsAreSeen(m: Machine, pair: TierPair, blank: Ring, lo: nat, w: nat, c: nat)
    requires Inv(m, pair, blank, lo) && |m.log| <= LastCut(m.cuts) + |m.src.ts|
    ensures IsTarget(m.src, pair, m.last, (w, c)) <==> c < pair.maxSeries && Seen(m, pair, w, c) != []
    ensures IsTarget(m.src, pair, m.last, (w, c)) ==>
              TargetValue(m.src, pair, m.last, (w, c)) == Apply(pair.f, Seen(m, pair, w, c))
  {
    if c < pair.maxSeries {
      var k :| CursorAt(m.log, m.cuts, m.last, pair, k);
      PassSeesNewPoints(m, pair, blank, k, c);
    }
  }

  lemma SeenInSpan(m: Machine, pair: TierPair, blank: Ring, lo: nat, w: nat, c: nat)
    requires Inv(m, pair, blank, lo) && WindowsFit(m.log, pair, lo, |m.dst.ts|) && Seen(m, pair, w, c) != []
    ensures InSpan(w, pair.destInterval, lo, |m.dst.ts|) && w != 0
    ensures !Apply(pair.f, Seen(m, pair, w, c)).NaN?
  {
    var part := m.log[LastCut(m.cuts)..];
    ValuesHaveBatch(part, |blank.vals|, pair.destInterval, w, c);
    var i :| 0 <= i < |part| && part[i].time / pair.destInterval == w / pair.destInterval;
    assert part[i] == m.log[LastCut(m.cuts) + i];
    Cyclic.DivMonotone(pair.destInterval, part[i].time, pair.destInterval);
  }

  lemma OrderInSpan(m: Machine, pair: TierPair, blank: Ring, lo: nat, order: seq<Target>)
    requires Inv(m, pair, blank, lo) && WindowsFit(m.log, pair, lo, |m.dst.ts|)
    requires Enabled(m, pair, Consolidate(order))
    ensures forall i | 0 <= i < |order| :: InSpan(order[i].0, pair.destInterval, lo, |m.dst.ts|)
    ensures SlotsApart(m.dst, order)
    ensures !MeetsWindowZero(m.src, pair, m.last)
  {
    forall i | 0 <= i < |order| ensures InSpan(order[i].0, pair.destInterval, lo, |m.dst.ts|) {
      assert order[i] in order;
      TargetsAreSeen(m, pair, blank, lo, order[i].0, order[i].1);
      SeenInSpan(m, pair, blank, lo, order[i].0, order[i].1);
    }
    forall i, j | 0 <= i < |order| && 0 <= j < |order| && m.dst.SlotOf(order[i].0) == m.dst.SlotOf(order[j].0)
      ensures order[i].0 == order[j].0
    {
      SpanSlots(m.dst, lo, order[i].0, order[j].0);
    }
    if c :| 0 <= c < pair.maxSeries && IsTarget(m.src, pair, m.last, (0, c)) {
      TargetsAreSeen(m, pair, blank, lo, 0, c);
      SeenInSpan(m, pair, blank, lo, 0, c);
    }
  }

  /** The reference value of a cell after one more pass. */
  lemma ExpectedAfterPass(m: Machine, m': Machine, pair: TierPair, w: nat, c: nat)
    requires pair.destInterval > 0 && CutsOf(m.cuts, |m.log|)
    requires m'.log == m.log && m'.cuts == m.cuts + [|m.log|]
    ensures Expected(m', pair, w, c)
            == if c < pair.maxSeries && Seen(m, pair, w, c) != [] then Apply(pair.f, Seen(m, pair, w, c))
               else Expected(m, pair, w, c)
  {
    PartsGrow(m.log, m.cuts, pair.destInterval, w, c);
    var parts := CellParts(m, pair, w, c);
    assert (parts + [Seen(m, pair, w, c)])[..|parts|] == parts;
  }

  lemma PassSetsValues(m: Machine, pair: TierPair, blank: Ring, lo: nat, order: seq<Target>, w: nat, c: nat)
    requires Inv(m, pair, blank, lo) && WindowsFit(m.log, pair, lo, |m.dst.ts|)
    requires Enabled(m, pair, Consolidate(order))
    requires InSpan(w, pair.destInterval, lo, |m.dst.ts|) && c < |m.dst.vals|
    ensures var m' := Do(m, pair, Consolidate(order));
            m'.dst.vals[c][m.dst.SlotOf(w)] == Expected(m', pair, w, c)
  {
    var m', s := Do(m, pair, Consolidate(order)), m.dst.SlotOf(w);
    OrderInSpan(m, pair, blank, lo, order);
    EnumeratedInColumns(m.src, pair, m.last, order);
    PassValues(m.src, m.dst, pair, m.last, order, s, c);
    TargetsAreSeen(m, pair, blank, lo, w, c);
    ExpectedAfterPass(m, m', pair, w, c);
    assert WindowOk(m, pair, w);
    if (w, c) in order {
      var i :| 0 <= i < |order| && order[i] == (w, c);
    } else {
      NoOtherHits(m.dst, order, lo, w, c);
    }
    if !HasNews(m.src, pair, m.last) {
      assert !IsTarget(m.src, pair, m.last, (w, c));
    }
  }

  /** Within the span, only window `w` itself writes to its slot. */
  lemma NoOtherHits(dst: Ring, order: seq<Target>, lo: nat, w: nat, c: nat)
    requires dst.Shaped() && InSpan(w, dst.interval, lo, |dst.ts|) && (w, c) !in order
    requires forall i | 0 <= i < |order| :: InSpan(order[i].0, dst.interval, lo, |dst.ts|)
    ensures forall i | 0 <= i < |order| :: dst.SlotOf(order[i].0) != dst.SlotOf(w) || order[i].1 != c
  {
    forall i | 0 <= i < |order| ensures dst.SlotOf(order[i].0) != dst.SlotOf(w) || order[i].1 != c {
      if dst.SlotOf(order[i].0) == dst.SlotOf(w) {
        SpanSlots(dst, lo, order[i].0, w);
        assert order[i] in order;
      }
    }
  }

  lemma PassSetsTime(m: Machine, pair: TierPair, blank: Ring, lo: nat, order: seq<Target>, w: nat)
    requires Inv(m, pair, blank, lo) && WindowsFit(m.log, pair, lo, |m.dst.ts|)
    requires Enabled(m, pair, Consolidate(order)) && InSpan(w, pair.destInterval, lo, |m.dst.ts|)
    ensures var m' := Do(m, pair, Consolidate(order));
            m'.dst.ts[m.dst.SlotOf(w)] == if HasValue(m', pair, w) then w else 0
  {
    var m', s := Do(m, pair, Consolidate(order)), m.dst.SlotOf(w);
    OrderInSpan(m, pair, blank, lo, order);
    EnumeratedInColumns(m.src, pair, m.last, order);
    PassTimes(m.src, m.dst, pair, m.last, order, s);
    assert WindowOk(m, pair, w);
    if i :| 0 <= i < |order| && m.dst.SlotOf(order[i].0) == s {
      SpanSlots(m.dst, lo, order[i].0, w);
      assert order[i] in order;
      var c := order[i].1;
      TargetsAreSeen(m, pair, blank, lo, w, c);
      SeenInSpan(m, pair, blank, lo, w, c);
      ExpectedAfterPass(m, m', pair, w, c);
      assert !Expected(m', pair, w, c).NaN?;
      assert HasNews(m.src, pair, m.last);
    } else {
      forall c | 0 <= c < pair.maxSeries ensures Expected(m', pair, w, c) == Expected(m, pair, w, c) {
        TargetsAreSeen(m, pair, blank, lo, w, c);
        ExpectedAfterPass(m, m', pair, w, c);
        assert (w, c) !in order;
      }
    }
  }

  lemma SilentExtends(log: seq<Batch>, k: nat, j: nat, width: nat, c: nat)
    requires k <= j <= |log| && width > 0 && Silent(log, k, j, c)
    requires forall w :: LogValues(log[j..], width, w, c) == []
    ensures Silent(log, k, |log|, c)
  {
    NoValuesIsSilent(log[j..], width, c);
    forall i | j <= i < |log| ensures Lookup(log[i].entries, c).Some? ==> Lookup(log[i].entries, c).value.NaN? {
      assert log[j..][i - j] == log[i];
    }
  }

  lemma WritingPassMovesCursor(m: Machine, pair: TierPair, blank: Ring, lo: nat, order: seq<Target>)
    requires Inv(m, pair, blank, lo) && Enabled(m, pair, Consolidate(order)) && order != []
    ensures var m' := Do(m, pair, Consolidate(order));
            CursorAt(m'.log, m'.cuts, m'.last, pair, |m.log|)
  {
    var k :| CursorAt(m.log, m.cuts, m.last, pair, k);
    assert order[0] in order;
    if m.log == [] {
      SteadyBounds(blank, m.log);
    }
    PassRange(m, pair, blank, k);
  }

  lemma EmptyPassKeepsCursor(m: Machine, pair: TierPair, blank: Ring, lo: nat, k: nat)
    requires Inv(m, pair, blank, lo) && Enabled(m, pair, Consolidate([]))
    requires CursorAt(m.log, m.cuts, m.last, pair, k)
    ensures var m' := Do(m, pair, Consolidate([]));
            CursorAt(m'.log, m'.cuts, m'.last, pair, k)
  {
    forall c: nat | c < pair.maxSeries ensures Silent(m.log, k, |m.log|, c) {
      assert Silent(m.log, k, LastCut(m.cuts), c);
      forall w ensures LogValues(m.log[LastCut(m.cuts)..], pair.destInterval, w, c) == [] {
        TargetsAreSeen(m, pair, blank, lo, w, c);
        assert (w, c) !in [];
      }
      SilentExtends(m.log, k, LastCut(m.cuts), pair.destInterval, c);
    }
  }

  lemma PassMovesCursor(m: Machine, pair: TierPair, blank: Ring, lo: nat, order: seq<Target>)
    requires Inv(m, pair, blank, lo) && Enabled(m, pair, Consolidate(order))
    ensures var m' := Do(m, pair, Consolidate(order));
            exists k :: CursorAt(m'.log, m'.cuts, m'.last, pair, k)
  {
    if order != [] {
      WritingPassMovesCursor(m, pair, blank, lo, order);
    } else {
      var k :| CursorAt(m.log, m.cuts, m.last, pair, k);
      EmptyPassKeepsCursor(m, pair, blank, lo, k);
    }
  }

  lemma PassKeepsInv(m: Machine, pair: TierPair, blank: Ring, lo: nat, order: seq<Target>)
    requires Inv(m, pair, blank, lo) && WindowsFit(m.log, pair, lo, |m.dst.ts|)
    requires Enabled(m, pair, Consolidate(order))
    ensures Inv(Do(m, pair, Consolidate(order)), pair, blank, lo)
  {
    var m' := Do(m, pair, Consolidate(order));
    PassMovesCursor(m, pair, blank, lo, order);
    OrderInSpan(m, pair, blank, lo, order);
    PassLogIsWritable(m.src, pair, m.last, order, |m.dst.vals|);
    RunKeepsConsistent(m.dst, PassLog(m.src, pair, m.last, order));
    forall w: nat | InSpan(w, pair.destInterval, lo, |m'.dst.ts|) ensures WindowOk(m', pair, w) {
      PassSetsWindow(m, pair, blank, lo, order, w);
    }
  }

  lemma PassSetsWindow(m: Machine, pair: TierPair, blank: Ring, lo: nat, order: seq<Target>, w: nat)
    requires Inv(m, pair, blank, lo) && WindowsFit(m.log, pair, lo, |m.dst.ts|)
    requires Enabled(m, pair, Consolidate(order)) && InSpan(w, pair.destInterval, lo, |m.dst.ts|)
    ensures WindowOk(Do(m, pair, Consolidate(order)), pair, w)
  {
    var m' := Do(m, pair, Consolidate(order));
    PassSetsTime(m, pair, blank, lo, order, w);
    forall c | 0 <= c < |m'.dst.vals| ensures m'.dst.vals[c][m'.dst.SlotOf(w)] == Expected(m', pair, w, c) {
      PassSetsValues(m, pair, blank, lo, order, w, c);
    }
  }

  // ------------------------------------------------------------ whole runs

  /** Both rings blank, no cursor, nothing written yet. */
  ghost predicate IsStart(m: Machine, pair: TierPair, blank: Ring) {
    && Fits(m, pair) && m.src == blank && IsBlank(blank) && IsBlank(m.dst)
    && m.last == 0 && m.log == [] && m.cuts == []
  }

  lemma StartInv(m: Machine, pair: TierPair, blank: Ring, lo: nat)
    requires IsStart(m, pair, blank)
    ensures Inv(m, pair, blank, lo)
  {
    BlankIsConsistent(m.dst.interval, |m.dst.ts|, |m.dst.vals|);
    forall c: nat | c < pair.maxSeries ensures Uniform(m.log, c) {
      assert NoneWrites(m.log, c);
    }
    assert CursorAt(m.log, m.cuts, m.last, pair, 0);
  }

  lemma WindowsFitPrefix(log: seq<Batch>, b: Batch, pair: TierPair, lo: nat, slots: nat)
    requires pair.destInterval > 0 && WindowsFit(log + [b], pair, lo, slots)
    ensures WindowsFit(log, pair, lo, slots)
  {
    forall i | 0 <= i < |log| ensures lo <= log[i].time / pair.destInterval < lo + slots {
      assert (log + [b])[i] == log[i];
    }
  }

  /** Every reachable state keeps the invariant, for any interleaving of writes and passes. */
  lemma {:induction false} ReachableInv(start: Machine, pair: TierPair, steps: seq<Step>, m: Machine, blank: Ring, lo: nat)
    requires IsStart(start, pair, blank) && Reaches(start, pair, steps, m)
    requires GoodLog(m.log, pair) && WindowsFit(m.log, pair, lo, |start.dst.ts|)
    ensures Inv(m, pair, blank, lo) && |m.dst.ts| == |start.dst.ts|
    decreases |steps|
  {
    if steps == [] {
      StartInv(m, pair, blank, lo);
    } else {
      var mid :| StepTo(start, pair, steps, mid, m);
      var init, step := steps[..|steps| - 1], steps[|steps| - 1];
      match step {
        case Record(b) =>
          GoodPrefix(mid.log, b, pair);
          WindowsFitPrefix(mid.log, b, pair, lo, |start.dst.ts|);
          ReachableInv(start, pair, init, mid, blank, lo);
          RecordKeepsInv(mid, pair, blank, lo, b);
        case Consolidate(order) =>
          ReachableInv(start, pair, init, mid, blank, lo);
          PassKeepsInv(mid, pair, blank, lo, order);
      }
    }
  }

  // --------------------------------------------- incremental and one-shot

  ghost function Upto(log: seq<Batch>, cuts: seq<nat>): seq<Batch>
    requires CutsOf(cuts, |log|)
  {
    log[..LastCut(cuts)]
  }

  lemma PartsSnoc(log: seq<Batch>, cuts: seq<nat>, width: nat, w: nat, c: nat)
    requires cuts != [] && CutsOf(cuts, |log|) && width > 0
    ensures var n := |cuts| - 1;
            PassParts(log, cuts, width, w, c)
            == PassParts(log, cuts[..n], width, w, c) + [SegmentValues(log, cuts, n, width, w, c)]
  {
    var n := |cuts| - 1;
    forall i | 0 <= i < n
      ensures SegmentValues(log, cuts[..n], i, width, w, c) == SegmentValues(log, cuts, i, width, w, c)
    {
      SegmentStable(log, log, cuts[..n], cuts, i, width, w, c);
    }
  }

  lemma UptoStep(log: seq<Batch>, cuts: seq<nat>, width: nat, w: nat, c: nat)
    requires cuts != [] && CutsOf(cuts, |log|) && width > 0
    ensures var n := |cuts| - 1;
            LogValues(Upto(log, cuts), width, w, c)
            == LogValues(Upto(log, cuts[..n]), width, w, c) + SegmentValues(log, cuts, n, width, w, c)
  {
    var before := LastCut(cuts[..|cuts| - 1]);
    assert log[..LastCut(cuts)] == log[..before] + log[before..LastCut(cuts)];
    LogValuesConcat(log[..before], log[before..LastCut(cuts)], width, w, c);
  }

  lemma {:induction false} PartsAreTheLog(log: seq<Batch>, cuts: seq<nat>, width: nat, w: nat, c: nat)
    requires CutsOf(cuts, |log|) && width > 0
    ensures Flat(PassParts(log, cuts, width, w, c)) == LogValues(Upto(log, cuts), width, w, c)
  {
    if cuts != [] {
      var n := |cuts| - 1;
      PartsAreTheLog(log, cuts[..n], width, w, c);
      UptoStep(log, cuts, width, w, c);
      PartsSnoc(log, cuts, width, w, c);
      var parts := PassParts(log, cuts[..n], width, w, c);
      assert (parts + [SegmentValues(log, cuts, n, width, w, c)])[..n] == parts;
    }
  }

  lemma PartsAreFinite(log: seq<Batch>, cuts: seq<nat>, columns: nat, width: nat, w: nat, c: nat)
    requires WritableRun(log, columns) && width > 0
    ensures FiniteParts(PassParts(log, cuts, width, w, c))
  {
    forall i | 0 <= i < |cuts| ensures FiniteList(SegmentValues(log, cuts, i, width, w, c)) {
      var from := if i == 0 then 0 else cuts[i - 1];
      if from <= cuts[i] <= |log| {
        ValuesAreFinite(log[from..cuts[i]], columns, width, w, c);
      }
    }
  }

  lemma ValuesAreFinite(log: seq<Batch>, columns: nat, width: nat, w: nat, c: nat)
    requires WritableRun(log, columns) && width > 0
    ensures FiniteList(LogValues(log, width, w, c))
  {
    PointsAreFinite(log, c, columns);
    WindowValuesFinite(AllPoints(log, c), width, w / width);
  }

  // --------------------------------------------------------------- theorems

  /** The destination holds the downsampling of everything the passes were given, and nothing else. */
  ghost predicate HoldsDownsample(m: Machine, pair: TierPair, lo: nat)
    requires Fits(m, pair) && CutsOf(m.cuts, |m.log|)
  {
    var given := Upto(m.log, m.cuts);
    forall w: nat | InSpan(w, pair.destInterval, lo, |m.dst.ts|) ::
      CellsAre(m.dst, pair, w, given)
  }

  ghost predicate CellsAre(dst: Ring, pair: TierPair, w: nat, log: seq<Batch>)
    requires dst.Shaped() && pair.destInterval > 0
  {
    var s := dst.SlotOf(w);
    && (forall c | 0 <= c < |dst.vals| ::
          dst.vals[c][s] == if c < pair.maxSeries then OneShot(log, pair.f, pair.destInterval, w, c) else NaN)
    && dst.ts[s] == if exists c :: 0 <= c < pair.maxSeries && !OneShot(log, pair.f, pair.destInterval, w, c).NaN?
                    then w else 0
  }

  lemma OneShotCells(m: Machine, pair: TierPair, blank: Ring, lo: nat)
    requires Inv(m, pair, blank, lo)
    requires forall w: nat, c: nat | InSpan(w, pair.destInterval, lo, |m.dst.ts|) && c < pair.maxSeries ::
               Expected(m, pair, w, c) == OneShot(Upto(m.log, m.cuts), pair.f, pair.destInterval, w, c)
    ensures HoldsDownsample(m, pair, lo)
  {
    forall w: nat | InSpan(w, pair.destInterval, lo, |m.dst.ts|)
      ensures CellsAre(m.dst, pair, w, Upto(m.log, m.cuts))
    {
      assert WindowOk(m, pair, w);
    }
  }

  /**
   Incremental consolidation equals one downsampling of the whole log: for every
   gap-free, spaced source run and every schedule of passes in which no source
   bucket is lost before its pass, no window gets points in two passes and the
   destination is not lapped.
   */
  lemma IncrementalEqualsOneShot(start: Machine, pair: TierPair, steps: seq<Step>, m: Machine, blank: Ring, lo: nat)
    requires IsStart(start, pair, blank) && Reaches(start, pair, steps, m)
    requires GoodLog(m.log, pair) && WindowsFit(m.log, pair, lo, |start.dst.ts|)
    requires forall w: nat, c: nat | c < pair.maxSeries :: Unsplit(CellParts(m, pair, w, c))
    ensures Fits(m, pair) && CutsOf(m.cuts, |m.log|) && HoldsDownsample(m, pair, lo)
  {
    ReachableInv(start, pair, steps, m, blank, lo);
    forall w: nat, c: nat | InSpan(w, pair.destInterval, lo, |m.dst.ts|) && c < pair.maxSeries
      ensures Expected(m, pair, w, c) == OneShot(Upto(m.log, m.cuts), pair.f, pair.destInterval, w, c)
    {
      UnsplitKeepsAll(pair.f, CellParts(m, pair, w, c));
      PartsAreTheLog(m.log, m.cuts, pair.destInterval, w, c);
    }
    OneShotCells(m, pair, blank, lo);
  }

  /** For Last, any schedule will do, also one that splits windows across passes. */
  lemma LastIsScheduleIndependent(start: Machine, pair: TierPair, steps: seq<Step>, m: Machine, blank: Ring, lo: nat)
    requires IsStart(start, pair, blank) && Reaches(start, pair, steps, m) && pair.f == Last
    requires GoodLog(m.log, pair) && WindowsFit(m.log, pair, lo, |start.dst.ts|)
    ensures Fits(m, pair) && CutsOf(m.cuts, |m.log|) && HoldsDownsample(m, pair, lo)
  {
    ReachableInv(start, pair, steps, m, blank, lo);
    forall w: nat, c: nat | InSpan(w, pair.destInterval, lo, |m.dst.ts|) && c < pair.maxSeries
      ensures Expected(m, pair, w, c) == OneShot(Upto(m.log, m.cuts), pair.f, pair.destInterval, w, c)
    {
      PartsAreFinite(m.log, m.cuts, |blank.vals|, pair.destInterval, w, c);
      LatestIsRightIff(Last, CellParts(m, pair, w, c));
      PartsAreTheLog(m.log, m.cuts, pair.destInterval, w, c);
    }
    OneShotCells(m, pair, blank, lo);
  }

  /** The cell of window `w` and column `c` holds the downsampling of everything the passes were given. */
  ghost predicate CellIsExact(m: Machine, pair: TierPair, w: nat, c: nat)
    requires Fits(m, pair) && CutsOf(m.cuts, |m.log|) && c < |m.dst.vals|
  {
    m.dst.vals[c][m.dst.SlotOf(w)] == OneShot(Upto(m.log, m.cuts), pair.f, pair.destInterval, w, c)
  }

  /**
   What splitting windows costs, for every consolidation function: in every
   reachable state a destination cell is right exactly when the values of all
   passes but the last to see the window are dispensable.
   */
  lemma CellIsExactIff(start: Machine, pair: TierPair, steps: seq<Step>, m: Machine, blank: Ring, lo: nat,
                       w: nat, c: nat)
    requires IsStart(start, pair, blank) && Reaches(start, pair, steps, m)
    requires GoodLog(m.log, pair) && WindowsFit(m.log, pair, lo, |start.dst.ts|)
    requires InSpan(w, pair.destInterval, lo, |start.dst.ts|) && c < pair.maxSeries
    ensures Fits(m, pair) && CutsOf(m.cuts, |m.log|)
    ensures var parts := CellParts(m, pair, w, c);
            CellIsExact(m, pair, w, c) <==> Dispensable(pair.f, Discarded(parts), LastPart(parts))
  {
    ReachableInv(start, pair, steps, m, blank, lo);
    assert WindowOk(m, pair, w);
    PartsAreFinite(m.log, m.cuts, |blank.vals|, pair.destInterval, w, c);
    LatestIsRightIff(pair.f, CellParts(m, pair, w, c));
    PartsAreTheLog(m.log, m.cuts, pair.destInterval, w, c);
  }

  /** For Count, that is exactly when the window's points came in one pass. */
  lemma CountIsExactIffUnsplit(start: Machine, pair: TierPair, steps: seq<Step>, m: Machine, blank: Ring, lo: nat,
                               w: nat, c: nat)
    requires IsStart(start, pair, blank) && Reaches(start, pair, steps, m) && pair.f == Count
    requires GoodLog(m.log, pair) && WindowsFit(m.log, pair, lo, |start.dst.ts|)
    requires InSpan(w, pair.destInterval, lo, |start.dst.ts|) && c < pair.maxSeries
    ensures Fits(m, pair) && CutsOf(m.cuts, |m.log|)
    ensures CellIsExact(m, pair, w, c) <==> Unsplit(CellParts(m, pair, w, c))
  {
    ReachableInv(start, pair, steps, m, blank, lo);
    CellIsExactIff(start, pair, steps, m, blank, lo, w, c);
    PartsAreFinite(m.log, m.cuts, |blank.vals|, pair.destInterval, w, c);
    DiscardedIsCounted(CellParts(m, pair, w, c));
  }

  /** For sums of positive values, likewise. */
  lemma PositiveSumIsExactIffUnsplit(start: Machine, pair: TierPair, steps: seq<Step>, m: Machine, blank: Ring,
                                     lo: nat, w: nat, c: nat)
    requires IsStart(start, pair, blank) && Reaches(start, pair, steps, m) && pair.f == Sum
    requires GoodLog(m.log, pair) && WindowsFit(m.log, pair, lo, |start.dst.ts|)
    requires InSpan(w, pair.destInterval, lo, |start.dst.ts|) && c < pair.maxSeries
    requires CutsOf(m.cuts, |m.log|) && Positive(LogValues(Upto(m.log, m.cuts), pair.destInterval, w, c))
    ensures Fits(m, pair)
    ensures CellIsExact(m, pair, w, c) <==> Unsplit(CellParts(m, pair, w, c))
  {
    ReachableInv(start, pair, steps, m, blank, lo);
    CellIsExactIff(start, pair, steps, m, blank, lo, w, c);
    PartsAreFinite(m.log, m.cuts, |blank.vals|, pair.destInterval, w, c);
    PartsAreTheLog(m.log, m.cuts, pair.destInterval, w, c);
    LatestIsRightIff(Sum, CellParts(m, pair, w, c));
    PositiveSumKeepsAllIffUnsplit(CellParts(m, pair, w, c));
  }

  /** Passes that run only between windows never split one: a check on the two batches around each pass. */
  ghost predicate CutsBetweenWindows(log: seq<Batch>, cuts: seq<nat>, width: nat)
    requires width > 0 && CutsOf(cuts, |log|)
  {
    forall i | 0 <= i < |cuts| && 0 < cuts[i] < |log| ::
      log[cuts[i] - 1].time / width != log[cuts[i]].time / width
  }

  lemma SegmentHasBatch(log: seq<Batch>, cuts: seq<nat>, i: nat, columns: nat, width: nat, w: nat, c: nat) returns (k: nat)
    requires WritableRun(log, columns) && CutsOf(cuts, |log|) && i < |cuts| && width > 0
    requires SegmentValues(log, cuts, i, width, w, c) != []
    ensures (if i == 0 then 0 else cuts[i - 1]) <= k < cuts[i] && log[k].time / width == w / width
  {
    var from := if i == 0 then 0 else cuts[i - 1];
    var part := log[from..cuts[i]];
    ValuesHaveBatch(part, columns, width, w, c);
    var j :| 0 <= j < |part| && part[j].time / width == w / width;
    k := from + j;
  }

  lemma CutsBetweenWindowsNeverSplit(
      log: seq<Batch>, cuts: seq<nat>, columns: nat, interval: nat, width: nat, w: nat, c: nat)
    requires interval > 0 && OnePerBucket(log, interval) && WritableRun(log, columns)
    requires width > 0 && CutsOf(cuts, |log|) && CutsBetweenWindows(log, cuts, width)
    ensures Unsplit(PassParts(log, cuts, width, w, c))
  {
    var parts := PassParts(log, cuts, width, w, c);
    forall i, j | 0 <= i < j < |parts| ensures parts[i] == [] || parts[j] == [] {
      OneSegmentOnly(log, cuts, columns, interval, width, w, c, i, j);
    }
  }

  lemma OneSegmentOnly(log: seq<Batch>, cuts: seq<nat>, columns: nat, interval: nat, width: nat, w: nat, c: nat,
                       i: nat, j: nat)
    requires interval > 0 && OnePerBucket(log, interval) && WritableRun(log, columns)
    requires width > 0 && CutsOf(cuts, |log|) && CutsBetweenWindows(log, cuts, width) && i < j < |cuts|
    ensures SegmentValues(log, cuts, i, width, w, c) == [] || SegmentValues(log, cuts, j, width, w, c) == []
  {
    var x, y := SegmentValues(log, cuts, i, width, w, c), SegmentValues(log, cuts, j, width, w, c);
    if x != [] && y != [] {
      var p := SegmentHasBatch(log, cuts, i, columns, width, w, c);
      var q := SegmentHasBatch(log, cuts, j, columns, width, w, c);
      WindowsCannotMeet(log, cuts, interval, width, p, i, j, q);
      assert false;
    }
  }

  lemma WindowsCannotMeet(log: seq<Batch>, cuts: seq<nat>, interval: nat, width: nat, p: nat, i: nat, j: nat, q: nat)
    requires interval > 0 && OnePerBucket(log, interval) && width > 0 && i < j < |cuts|
    requires CutsOf(cuts, |log|) && CutsBetweenWindows(log, cuts, width)
    requires p < cuts[i] && cuts[j - 1] <= q < |log|
    ensures log[p].time / width != log[q].time / width
  {
    var cut := cuts[i];
    WindowsGrow(log, interval, width, p, cut - 1);
    WindowsGrow(log, interval, width, cut - 1, cut);
    WindowsGrow(log, interval, width, cut, q);
  }

  lemma WindowsGrow(log: seq<Batch>, interval: nat, width: nat, i: nat, j: nat)
    requires interval > 0 && OnePerBucket(log, interval) && width > 0 && i <= j < |log|
    ensures log[i].time / width <= log[j].time / width
  {
    if i < j {
      TimesIncrease(log, interval, i, j);
      Cyclic.DivMonotone(log[i].time, log[j].time, width);
    }
  }
}
