/** Coverage analysis, and what the completeness flag of a query promises. */
module Queries {
  import opened Wrappers
  import opened Floats
  import opened RingModel
  import opened RingRuns
  import opened RingOrder
  import opened RecordedReads
  import opened SteadyRuns
  import Sequences

  /** Whether a tier covers `[start, end)` fully, and whether data may be missing. */
  function AnalyzeCoverage(oldest: Option<nat>, newest: Option<nat>, start: nat, end: nat): (bool, bool) {
    match (oldest, newest)
    case (Some(o), Some(n)) => (start >= o && end <= n, start < o)
    case _ => (false, true)
  }

  function Covers(r: Ring, start: nat, end: nat): bool
    requires r.Shaped()
  {
    AnalyzeCoverage(r.Oldest(), r.Newest(), start, end).0
  }

  function MayBeIncomplete(r: Ring, start: nat, end: nat): bool
    requires r.Shaped()
  {
    AnalyzeCoverage(r.Oldest(), r.Newest(), start, end).1
  }

  predicate HasData(r: Ring)
    requires r.Shaped()
  {
    r.Oldest().Some? && r.Newest().Some?
  }

  /** From the oldest to the newest timestamp of the ring, the range is inside. */
  ghost predicate Spans(r: Ring, start: nat, end: nat)
    requires r.Shaped()
  {
    && r.Oldest().Some? && r.Newest().Some?
    && r.Oldest().value <= start && end <= r.Newest().value
  }

  /** A tier covers what its timestamps span, and the flag is up when it is empty or begins too late. */
  lemma CoverageMeans(r: Ring, start: nat, end: nat)
    requires r.Shaped()
    ensures Covers(r, start, end) <==> Spans(r, start, end)
    ensures !MayBeIncomplete(r, start, end) <==> HasData(r) && r.Oldest().value <= start
  {
  }

  /** The batches that `slots` slots retain begin by `start`, and the last one is not before `end`. */
  ghost predicate LogSpans(log: seq<Batch>, slots: nat, start: nat, end: nat) {
    log != [] && LogBeginsBy(log, slots, start) && end <= log[|log| - 1].time
  }

  ghost predicate LogBeginsBy(log: seq<Batch>, slots: nat, start: nat)
    requires log != []
  {
    slots > 0 && (if |log| > slots then log[|log| - slots] else log[0]).time <= start
  }

  /**
   Coverage in terms of what was recorded, after any run with one batch per
   bucket: the tier covers the range exactly when the first retained batch is not
   after its start and the last batch not before its end; the flag stays down
   exactly when something was recorded and the first retained batch is not after
   the start.
   */
  lemma SteadyCoverage(blank: Ring, log: seq<Batch>, c: nat, start: nat, end: nat)
    requires Steady(blank, log, c)
    ensures Covers(Run(blank, log), start, end) <==> LogSpans(log, |blank.ts|, start, end)
    ensures !MayBeIncomplete(Run(blank, log), start, end) <==> log != [] && LogBeginsBy(log, |blank.ts|, start)
    ensures HasData(Run(blank, log)) <==> log != []
  {
    CoverageMeans(Run(blank, log), start, end);
    SteadyBounds(blank, log);
  }

  /**
   After any run with one batch per bucket, a query that does not report possible
   loss returns every point ever written to the series in `[start, end)`.
   */
  lemma CompleteFlagIsSound(blank: Ring, log: seq<Batch>, c: nat, start: nat, end: nat)
    requires Steady(blank, log, c) && start < end
    requires !MayBeIncomplete(Run(blank, log), start, end)
    ensures Run(blank, log).Read(c, start, end) == LogRead(log, c, start, end)
  {
    SteadyRead(blank, log, c, start, end);
    if log != [] {
      StartsInTail(blank, log, c, start, end);
      TailReadsAll(log, blank.interval, |blank.ts|, c, start, end);
    }
  }

  /** No loss is reported only for ranges that start at or after the oldest retained batch. */
  lemma StartsInTail(blank: Ring, log: seq<Batch>, c: nat, start: nat, end: nat)
    requires Steady(blank, log, c) && log != []
    requires !MayBeIncomplete(Run(blank, log), start, end)
    ensures Tail(log, |blank.ts|)[0].time <= start
  {
    SteadyBounds(blank, log);
  }

  lemma TailReadsAll(log: seq<Batch>, interval: nat, n: nat, c: nat, start: nat, end: nat)
    requires interval > 0 && n > 0 && OnePerBucket(log, interval) && log != [] && Tail(log, n)[0].time <= start
    ensures LogRead(Tail(log, n), c, start, end) == LogRead(log, c, start, end)
  {
    NothingBefore(log, interval, |log| - |Tail(log, n)|, c, start, end);
  }

  /** Batches older than a batch at or before `start` contribute nothing to a read from `start`. */
  lemma NothingBefore(log: seq<Batch>, interval: nat, first: nat, c: nat, start: nat, end: nat)
    requires interval > 0 && OnePerBucket(log, interval) && first < |log| && log[first].time <= start
    ensures LogRead(log, c, start, end) == LogRead(log[first..], c, start, end)
  {
    forall i | 0 <= i < first ensures BatchPoint(log[i], c, start, end) == [] {
      TimesIncrease(log, interval, i, first);
    }
    LogReadSkip(log, first, c, start, end);
  }

  /**
   What a query misses, exactly: it returns all points ever written in the range
   if and only if none of the overwritten batches carries a point in the range.
   */
  lemma QueryIsCompleteIff(blank: Ring, log: seq<Batch>, c: nat, start: nat, end: nat)
    requires Steady(blank, log, c)
    ensures Run(blank, log).Read(c, start, end) == LogRead(log, c, start, end) <==>
            forall i | 0 <= i < |log| - |blank.ts| :: BatchPoint(log[i], c, start, end) == []
  {
    SteadyRead(blank, log, c, start, end);
    TailReadsAllIff(log, |blank.ts|, c, start, end);
  }

  lemma TailReadsAllIff(log: seq<Batch>, n: nat, c: nat, start: nat, end: nat)
    ensures LogRead(Tail(log, n), c, start, end) == LogRead(log, c, start, end) <==>
            forall i | 0 <= i < |log| - n :: BatchPoint(log[i], c, start, end) == []
  {
    DropReadsAllIff(log, |log| - |Tail(log, n)|, c, start, end);
  }

  lemma DropReadsAllIff(log: seq<Batch>, first: nat, c: nat, start: nat, end: nat)
    requires first <= |log|
    ensures LogRead(log[first..], c, start, end) == LogRead(log, c, start, end) <==>
            forall i | 0 <= i < first :: BatchPoint(log[i], c, start, end) == []
  {
    LogReadSplit(log, first, c, start, end);
    Sequences.AppendSelf(LogRead(log[..first], c, start, end), LogRead(log[first..], c, start, end));
    SilentIff(log, first, c, start, end);
  }

  lemma SilentIff(log: seq<Batch>, first: nat, c: nat, start: nat, end: nat)
    requires first <= |log|
    ensures LogRead(log[..first], c, start, end) == [] <==>
            forall i | 0 <= i < first :: BatchPoint(log[i], c, start, end) == []
  {
    if LogRead(log[..first], c, start, end) == [] {
      SilentOnly(log[..first], c, start, end);
      forall i | 0 <= i < first ensures BatchPoint(log[i], c, start, end) == [] {
        assert log[..first][i] == log[i];
      }
    } else if forall i | 0 <= i < first :: BatchPoint(log[i], c, start, end) == [] {
      SilentLog(log[..first], c, start, end);
    }
  }

  lemma {:induction false} SilentOnly(log: seq<Batch>, c: nat, start: nat, end: nat)
    requires LogRead(log, c, start, end) == []
    ensures forall i | 0 <= i < |log| :: BatchPoint(log[i], c, start, end) == []
  {
    if log != [] {
      SilentOnly(log[1..], c, start, end);
      forall i | 0 <= i < |log| ensures BatchPoint(log[i], c, start, end) == [] {
        if i > 0 { assert log[1..][i - 1] == log[i]; }
      }
    }
  }

  // ------------------------------------------------- runs with gaps

  /** The last batch that recorded the column at its time, with a value, in the range. */
  ghost predicate Sampled(log: seq<Batch>, c: nat, start: nat, end: nat, k: nat) {
    && k < |log| && BatchPoint(log[k], c, start, end) != []
    && forall j | k < j < |log| && log[j].time == log[k].time :: Lookup(log[j].entries, c).None?
  }

  /** A later batch of another time landed in the same slot. */
  ghost predicate Displaced(blank: Ring, log: seq<Batch>, k: nat)
    requires blank.Shaped() && k < |log|
  {
    exists j :: k < j < |log| && blank.SlotOf(log[j].time) == blank.SlotOf(log[k].time) && log[j].time != log[k].time
  }

  ghost predicate FindsAll(blank: Ring, log: seq<Batch>, c: nat, start: nat, end: nat)
    requires blank.Shaped() && c < |blank.vals|
  {
    forall k: nat | Sampled(log, c, start, end, k) ::
      (log[k].time, Lookup(log[k].entries, c).value) in Run(blank, log).Read(c, start, end)
  }

  lemma FoundUnlessDisplaced(blank: Ring, log: seq<Batch>, c: nat, start: nat, end: nat, k: nat)
    requires IsBlank(blank) && WritableRun(log, |blank.vals|) && c < |blank.vals| && Sampled(log, c, start, end, k)
    requires !Displaced(blank, log, k)
    ensures (log[k].time, Lookup(log[k].entries, c).value) in Run(blank, log).Read(c, start, end)
  {
    var slot, p := blank.SlotOf(log[k].time), (log[k].time, Lookup(log[k].entries, c).value);
    var i := LastBatchIn(blank, log, k);
    assert LastInCell(blank, log, slot, c, k);
    assert ShownBy(blank, log, c, i, k, p);
    ReadReturnsLastWrites(blank, log, c, start, end, p);
  }

  lemma {:induction false} LastBatchIn(blank: Ring, log: seq<Batch>, k: nat) returns (i: nat)
    requires blank.Shaped() && k < |log|
    ensures k <= i && LastInSlot(blank, log, blank.SlotOf(log[k].time), i)
    decreases |log| - k
  {
    if exists j :: k < j < |log| && blank.SlotOf(log[j].time) == blank.SlotOf(log[k].time) {
      var j :| k < j < |log| && blank.SlotOf(log[j].time) == blank.SlotOf(log[k].time);
      i := LastBatchIn(blank, log, j);
    } else {
      i := k;
    }
  }

  lemma DisplacedIsGone(blank: Ring, log: seq<Batch>, c: nat, start: nat, end: nat, k: nat)
    requires IsBlank(blank) && WritableRun(log, |blank.vals|) && c < |blank.vals| && Sampled(log, c, start, end, k)
    requires NondecreasingTimes(log) && Displaced(blank, log, k)
    ensures (log[k].time, Lookup(log[k].entries, c).value) !in Run(blank, log).Read(c, start, end)
  {
    var p := (log[k].time, Lookup(log[k].entries, c).value);
    ReadReturnsLastWrites(blank, log, c, start, end, p);
    forall i: nat, h: nat | ShownBy(blank, log, c, i, h, p) ensures false {
      LastIsOtherTime(blank, log, k, i);
      assert false;
    }
  }

  lemma LastIsOtherTime(blank: Ring, log: seq<Batch>, k: nat, i: nat)
    requires blank.Shaped() && k < |log| && NondecreasingTimes(log) && Displaced(blank, log, k)
    requires LastInSlot(blank, log, blank.SlotOf(log[k].time), i)
    ensures log[i].time != log[k].time
  {
    var j :| k < j < |log| && blank.SlotOf(log[j].time) == blank.SlotOf(log[k].time) && log[j].time != log[k].time;
    assert log[k].time < log[j].time <= log[i].time;
  }

  /**
   What a query misses in any run of nondecreasing times, gaps or not: it returns
   the last sample of every time in the range exactly when no later batch of
   another time landed in the slot of any of them. The flag says nothing about
   that: it only looks at the oldest timestamp.
   */
  lemma QueryFindsAllIff(blank: Ring, log: seq<Batch>, c: nat, start: nat, end: nat)
    requires IsBlank(blank) && WritableRun(log, |blank.vals|) && c < |blank.vals| && NondecreasingTimes(log)
    ensures FindsAll(blank, log, c, start, end) <==>
            forall k: nat | Sampled(log, c, start, end, k) :: !Displaced(blank, log, k)
  {
    forall k: nat | Sampled(log, c, start, end, k)
      ensures (log[k].time, Lookup(log[k].entries, c).value) in Run(blank, log).Read(c, start, end) <==>
              !Displaced(blank, log, k)
    {
      if Displaced(blank, log, k) {
        DisplacedIsGone(blank, log, c, start, end, k);
      } else {
        FoundUnlessDisplaced(blank, log, c, start, end, k);
      }
    }
  }

  /** A chronological run with a gap: the flag reports nothing missing from 2 on, and the sample at 3 is gone. */
  lemma FlagCounterexample()
    ensures var blank, log := Blank(1, 4, 1), [Sample(2), Sample(3), Sample(7)];
            && WritesFollowOrder(blank, log) && !MayBeIncomplete(Run(blank, log), 2, 100)
            && Sampled(log, 0, 2, 100, 1) && !FindsAll(blank, log, 0, 2, 100)
  {
    var blank, log := Blank(1, 4, 1), [Sample(2), Sample(3), Sample(7)];
    var r1, r2, r3 := SparseWrites(blank);
    ThreeWrites(blank, Sample(2), Sample(3), Sample(7));
    SparseOldest(r3);
    ThirdDisplaces(blank, log);
  }

  lemma SparseWrites(blank: Ring) returns (r1: Ring, r2: Ring, r3: Ring)
    requires blank == Blank(1, 4, 1)
    ensures r1 == blank.Write(Sample(2)) && r2 == r1.Write(Sample(3)) && r3 == r2.Write(Sample(7))
    ensures FollowsOrder(blank, 2) && FollowsOrder(r1, 3) && FollowsOrder(r2, 7)
    ensures r3.ts == [0, 0, 2, 7] && r3.cursor == 3 && !r3.wrapped
  {
    r1 := blank.Write(Sample(2));
    r2 := r1.Write(Sample(3));
    r3 := r2.Write(Sample(7));
    assert r1.ts == [0, 0, 2, 0] && r1.cursor == 2 && !r1.wrapped;
    assert r2.ts == [0, 0, 2, 3] && r2.cursor == 3 && !r2.wrapped;
  }

  lemma SparseOldest(r: Ring)
    requires r.Shaped() && r.ts == [0, 0, 2, 7] && r.cursor == 3 && !r.wrapped
    ensures !MayBeIncomplete(r, 2, 100)
  {
    assert r.FirstUsed(2, 2) == Some(2);
    assert r.FirstUsed(1, 3) == Some(2);
  }

  lemma ThirdDisplaces(blank: Ring, log: seq<Batch>)
    requires blank == Blank(1, 4, 1) && log == [Sample(2), Sample(3), Sample(7)]
    ensures Sampled(log, 0, 2, 100, 1) && !FindsAll(blank, log, 0, 2, 100)
  {
    assert blank.SlotOf(log[2].time) == blank.SlotOf(log[1].time);
    assert Displaced(blank, log, 1);
    DisplacedIsGone(blank, log, 0, 2, 100, 1);
  }

  lemma ThreeWrites(r: Ring, a: Batch, b: Batch, d: Batch)
    requires r.Shaped() && FollowsOrder(r, a.time) && FollowsOrder(r.Write(a), b.time)
    requires FollowsOrder(r.Write(a).Write(b), d.time)
    ensures WritesFollowOrder(r, [a, b, d]) && Run(r, [a, b, d]) == r.Write(a).Write(b).Write(d)
  {
    var log := [a, b, d];
    assert log[..2] == [a, b] && log[..1] == [a] && log[..0] == [] && log[..3] == log;
    RunPrefix(r, log, 0);
    RunPrefix(r, log, 1);
    RunPrefix(r, log, 2);
  }

  // ------------------------------------------------- automatic tier selection

  ghost predicate AllShaped(tiers: seq<Ring>) {
    forall k | 0 <= k < |tiers| :: tiers[k].Shaped()
  }

  /** Which tiers cover the range, and which have data. */
  ghost function CoverBits(tiers: seq<Ring>, start: nat, end: nat): (bits: seq<bool>)
    requires AllShaped(tiers)
    ensures |bits| == |tiers|
  {
    seq(|tiers|, k requires 0 <= k < |tiers| && AllShaped(tiers) => Covers(tiers[k], start, end))
  }

  ghost function DataBits(tiers: seq<Ring>): (bits: seq<bool>)
    requires AllShaped(tiers)
    ensures |bits| == |tiers|
  {
    seq(|tiers|, k requires 0 <= k < |tiers| && AllShaped(tiers) => HasData(tiers[k]))
  }

  /** The finest tier that covers the range; failing that the coarsest with data; failing that tier 0. */
  ghost predicate BestOf(covers: seq<bool>, data: seq<bool>, k: nat)
    requires |covers| == |data|
  {
    if true in covers then k < |covers| && covers[k] && forall j | 0 <= j < k :: !covers[j]
    else if true in data then k < |data| && data[k] && forall j | k < j < |data| :: !data[j]
    else k == 0
  }

  ghost predicate BestTier(tiers: seq<Ring>, start: nat, end: nat, k: nat)
    requires AllShaped(tiers)
  {
    BestOf(CoverBits(tiers, start, end), DataBits(tiers), k)
  }

  /** Where the search for the best tier stands before `tier`; it has ended when a covering tier was found. */
  ghost predicate Searched(covers: seq<bool>, data: seq<bool>, tier: nat, k: nat, ended: bool)
    requires |covers| == |data|
  {
    if ended then BestOf(covers, data, k)
    else tier <= |covers| && true !in covers[..tier] && BestOf(covers[..tier], data[..tier], k)
  }

  lemma SearchEnds(covers: seq<bool>, data: seq<bool>, k: nat)
    requires |covers| == |data| && Searched(covers, data, |covers|, k, false)
    ensures BestOf(covers, data, k)
  {
    assert covers[..|covers|] == covers && data[..|data|] == data;
  }

  /** One more tier is looked at. */
  lemma LookAtTier(covers: seq<bool>, data: seq<bool>, tier: nat, k: nat)
    requires |covers| == |data| && tier < |covers| && Searched(covers, data, tier, k, false)
    requires covers[tier] ==> data[tier]
    ensures Searched(covers, data, tier + 1, if covers[tier] || data[tier] then tier else k, covers[tier])
  {
    assert covers[..tier + 1] == covers[..tier] + [covers[tier]];
    assert data[..tier + 1] == data[..tier] + [data[tier]];
    if covers[tier] {
      assert covers[tier] in covers;
      forall j | 0 <= j < tier ensures !covers[j] {
        assert covers[..tier][j] == covers[j];
      }
    }
  }

  /** The choice is unique. */
  lemma BestTierIsUnique(tiers: seq<Ring>, start: nat, end: nat, j: nat, k: nat)
    requires AllShaped(tiers) && BestTier(tiers, start, end, j) && BestTier(tiers, start, end, k)
    ensures j == k
  {
    var covers, data := CoverBits(tiers, start, end), DataBits(tiers);
    BestIsUnique(covers, data, j, k);
  }

  lemma BestIsUnique(covers: seq<bool>, data: seq<bool>, j: nat, k: nat)
    requires |covers| == |data| && BestOf(covers, data, j) && BestOf(covers, data, k)
    ensures j == k
  {
  }

  lemma TrueIsMember(bits: seq<bool>, j: nat)
    requires j < |bits|
    ensures bits[j] ==> true in bits
  {
  }

  ghost predicate SomeSpans(tiers: seq<Ring>, start: nat, end: nat)
    requires AllShaped(tiers)
  {
    exists j :: 0 <= j < |tiers| && Spans(tiers[j], start, end)
  }

  ghost predicate SomeHasData(tiers: seq<Ring>)
    requires AllShaped(tiers)
  {
    exists j :: 0 <= j < |tiers| && HasData(tiers[j])
  }

  lemma BitsMean(tiers: seq<Ring>, start: nat, end: nat)
    requires AllShaped(tiers)
    ensures true in CoverBits(tiers, start, end) <==> SomeSpans(tiers, start, end)
    ensures true in DataBits(tiers) <==> SomeHasData(tiers)
  {
    var covers, data := CoverBits(tiers, start, end), DataBits(tiers);
    forall j | 0 <= j < |tiers| ensures covers[j] <==> Spans(tiers[j], start, end) {
      CoverageMeans(tiers[j], start, end);
    }
    if j :| 0 <= j < |tiers| && Spans(tiers[j], start, end) {
      TrueIsMember(covers, j);
    }
    if j :| 0 <= j < |tiers| && HasData(tiers[j]) {
      TrueIsMember(data, j);
    }
  }

  /** The finest tier that spans the range; failing that the coarsest with data; failing that tier 0. */
  ghost predicate Chosen(tiers: seq<Ring>, start: nat, end: nat, k: nat)
    requires AllShaped(tiers)
  {
    && k < |tiers|
    && if SomeSpans(tiers, start, end) then
         Spans(tiers[k], start, end) && forall j | 0 <= j < k :: !Spans(tiers[j], start, end)
       else if SomeHasData(tiers) then
         HasData(tiers[k]) && forall j | k < j < |tiers| :: !HasData(tiers[j])
       else k == 0
  }

  /**
   What the automatic choice promises: a tier whose timestamps span the range
   whenever one has them, the finest such, and then no report of possible loss;
   otherwise the coarsest tier that has any data; otherwise the finest tier.
   */
  lemma BestTierMeans(tiers: seq<Ring>, start: nat, end: nat, k: nat)
    requires AllShaped(tiers) && tiers != [] && BestTier(tiers, start, end, k)
    ensures Chosen(tiers, start, end, k)
    ensures SomeSpans(tiers, start, end) ==> !MayBeIncomplete(tiers[k], start, end)
  {
    var covers, data := CoverBits(tiers, start, end), DataBits(tiers);
    BitsMean(tiers, start, end);
    if SomeSpans(tiers, start, end) {
      CoverageMeans(tiers[k], start, end);
      forall j | 0 <= j < k ensures !Spans(tiers[j], start, end) {
        CoverageMeans(tiers[j], start, end);
        assert !covers[j];
      }
    } else if SomeHasData(tiers) {
      forall j | k < j < |tiers| ensures !HasData(tiers[j]) {
        assert !data[j];
      }
    }
  }

  /** Every tier after a run of its own with one batch per bucket. */
  ghost predicate SteadyTiers(tiers: seq<Ring>, blanks: seq<Ring>, logs: seq<seq<Batch>>, c: nat) {
    && |tiers| == |blanks| == |logs|
    && forall k | 0 <= k < |tiers| :: Steady(blanks[k], logs[k], c) && tiers[k] == Run(blanks[k], logs[k])
  }

  ghost predicate TierSpans(blanks: seq<Ring>, logs: seq<seq<Batch>>, start: nat, end: nat, k: nat)
    requires |blanks| == |logs| && k < |logs|
  {
    LogSpans(logs[k], |blanks[k].ts|, start, end)
  }

  /**
   The same in terms of what was recorded in each tier: the finest tier whose
   retained batches span the range; failing that the coarsest tier in which
   anything was recorded; failing that tier 0.
   */
  lemma SteadyBestTier(tiers: seq<Ring>, blanks: seq<Ring>, logs: seq<seq<Batch>>, c: nat, start: nat, end: nat, k: nat)
    requires SteadyTiers(tiers, blanks, logs, c) && AllShaped(tiers) && tiers != [] && BestTier(tiers, start, end, k)
    ensures k < |tiers|
    ensures (exists j: nat | j < |tiers| :: TierSpans(blanks, logs, start, end, j)) ==>
              TierSpans(blanks, logs, start, end, k) && forall j: nat | j < k :: !TierSpans(blanks, logs, start, end, j)
    ensures (forall j: nat | j < |tiers| :: !TierSpans(blanks, logs, start, end, j)) ==>
              if exists j :: 0 <= j < |tiers| && logs[j] != [] then
                logs[k] != [] && forall j | k < j < |tiers| :: logs[j] == []
              else k == 0
  {
    BestTierMeans(tiers, start, end, k);
    forall j: nat | j < |tiers|
      ensures Spans(tiers[j], start, end) <==> TierSpans(blanks, logs, start, end, j)
      ensures HasData(tiers[j]) <==> logs[j] != []
    {
      SteadyCoverage(blanks[j], logs[j], c, start, end);
      CoverageMeans(tiers[j], start, end);
    }
  }

  /**
   With no covering tier the documentation promises the coarsest one. The code
   keeps that promise exactly when the coarsest tier has data or is the only one.
   */
  lemma FallbackIsCoarsestIff(tiers: seq<Ring>, start: nat, end: nat, k: nat)
    requires AllShaped(tiers) && tiers != [] && BestTier(tiers, start, end, k)
    requires !SomeSpans(tiers, start, end)
    ensures k == |tiers| - 1 <==> HasData(tiers[|tiers| - 1]) || |tiers| == 1
  {
    BestTierMeans(tiers, start, end, k);
  }

  /** A sample in the finest of two tiers, none in the coarser, and a range that starts too early: tier 0 is used. */
  lemma FallbackCounterexample(k: nat)
    requires BestTier(TwoTiers(), 0, 100, k)
    ensures !SomeSpans(TwoTiers(), 0, 100) && k == 0 && |TwoTiers()| == 2
  {
    var tiers := TwoTiers();
    var fine := tiers[0];
    assert fine.FirstUsed(3, 1) == Some(3);
    assert fine.FirstUsed(2, 2) == Some(3);
    assert fine.FirstUsed(1, 3) == Some(3);
    assert fine.Oldest() == Some(3) && fine.Newest() == Some(3);
    assert tiers[1].Oldest() == None;
    FallbackIsCoarsestIff(tiers, 0, 100, k);
  }

  ghost function TwoTiers(): (tiers: seq<Ring>)
    ensures AllShaped(tiers)
  {
    [Ring(1, [0, 0, 0, 3], [[NaN, NaN, NaN, Finite(1.0)]], 3, false), Blank(10, 4, 1)]
  }
}
