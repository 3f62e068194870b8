/**
 When the reads of one column are chronological. Several series share the slots
 of a ring, and a read passes over the slots in which its own series has no
 value, so only the slots that show the column count: a write disturbs the order
 exactly when it moves the cursor in between two of them, or puts a sample of the
 column behind a newer one.
 */
module ColumnOrder {
  import opened Floats
  import opened RingModel
  import opened RingRuns
  import opened RingOrder

  // -------------------------------------------- rings that may be reopened

  /** Every written slot holds a time of its own, and unwritten slots hold no value. */
  ghost predicate Placed(r: Ring) {
    && r.Shaped()
    && (forall s | 0 <= s < |r.ts| :: r.ts[s] != 0 ==> r.SlotOf(r.ts[s]) == s)
    && forall c, s | 0 <= c < |r.vals| && 0 <= s < |r.ts| :: CellOk(r, c, s)
  }

  lemma WriteKeepsPlaced(r: Ring, b: Batch)
    requires Placed(r) && Acceptable(b)
    ensures Placed(r.Write(b))
  {
    var w := r.Write(b);
    forall c, s | 0 <= c < |w.vals| && 0 <= s < |w.ts| ensures CellOk(w, c, s) {
      assert CellOk(r, c, s);
      WrittenCell(r, b, s, c);
      LookupIsAnEntry(b.entries, c);
    }
  }

  lemma ReopenKeepsPlaced(r: Ring)
    requires Placed(r)
    ensures Placed(r.Reopened())
  {
    var o := r.Reopened();
    forall s | 0 <= s < |o.ts| && o.ts[s] != 0 ensures o.SlotOf(o.ts[s]) == s {
      assert r.SlotOf(r.ts[s]) == s;
    }
    forall c, s | 0 <= c < |o.vals| && 0 <= s < |o.ts| ensures CellOk(o, c, s) {
      assert CellOk(r, c, s);
    }
  }

  /** Reads come by this slot. */
  ghost predicate Visible(r: Ring, s: nat)
    requires r.Shaped()
  {
    s < |r.ts| && !r.IsEmpty() && (r.wrapped || s <= r.cursor)
  }

  lemma VisibleIsVisited(r: Ring, s: nat)
    requires r.Shaped()
    ensures Visited(r, r.FirstSlot(), r.VisitCount(), s) <==> Visible(r, s)
  {
  }

  /** The slot has a sample of column `c`. */
  ghost predicate Shown(r: Ring, c: nat, s: nat)
    requires r.Shaped() && c < |r.vals|
  {
    Used(r, s) && !r.vals[c][s].NaN?
  }

  /** The slots that show the column are in time order. */
  ghost predicate OrderedIn(r: Ring, c: nat)
    requires r.Shaped() && c < |r.vals|
  {
    forall x: nat, y: nat | Shown(r, c, x) && Shown(r, c, y) && Rank(r, x) < Rank(r, y) :: r.ts[x] < r.ts[y]
  }

  // -------------------------------------------------------------- one write

  /** The write moves the cursor in between two samples of the column. */
  ghost predicate Splits(r: Ring, c: nat, time: nat)
    requires r.Shaped() && c < |r.vals|
  {
    exists x: nat, y: nat ::
      Shown(r, c, x) && Shown(r, c, y) && Rank(r, y) < Rank(r, r.SlotOf(time)) < Rank(r, x)
  }

  /** The written slot then has a sample of the column: a new value, or the one it had. */
  predicate Samples(r: Ring, b: Batch, c: nat)
    requires r.Shaped() && c < |r.vals|
  {
    match Lookup(b.entries, c)
    case Some(v) => !v.NaN?
    case None => !r.vals[c][r.SlotOf(b.time)].NaN?
  }

  /** The column has a sample in another slot that is not older than `time`. */
  ghost predicate LateIn(r: Ring, c: nat, time: nat)
    requires r.Shaped() && c < |r.vals|
  {
    exists s: nat :: Shown(r, c, s) && s != r.SlotOf(time) && r.ts[s] >= time
  }

  /** The write does neither harm to the column. */
  ghost predicate SuitsColumn(r: Ring, b: Batch, c: nat)
    requires r.Shaped() && c < |r.vals|
  {
    !Splits(r, c, b.time) && !(Samples(r, b, c) && LateIn(r, c, b.time))
  }

  lemma ShownAfter(r: Ring, b: Batch, c: nat, s: nat)
    requires r.Shaped() && c < |r.vals| && b.time != 0
    ensures Shown(r.Write(b), c, s) <==> if s == r.SlotOf(b.time) then Samples(r, b, c) else Shown(r, c, s)
  {
    if s < |r.ts| {
      WrittenCell(r, b, s, c);
    }
  }

  /** Where slots stand after a write, which becomes the last in the order. */
  lemma RankAfterWrite(r: Ring, b: Batch, s: nat)
    requires r.Shaped() && s < |r.ts|
    ensures var d := Rank(r, r.SlotOf(b.time));
            Rank(r.Write(b), s) == if Rank(r, s) > d then Rank(r, s) - d - 1 else Rank(r, s) - d - 1 + |r.ts|
    ensures Rank(r.Write(b), r.SlotOf(b.time)) == |r.ts| - 1
  {
    CursorIsLastWrite(r, b);
    RankAfterMove(r.cursor, r.SlotOf(b.time), s, |r.ts|);
    RankAfterMove(r.SlotOf(b.time), r.SlotOf(b.time), s, |r.ts|);
  }

  lemma SuitingKeepsOrder(r: Ring, b: Batch, c: nat)
    requires r.Shaped() && c < |r.vals| && OrderedIn(r, c) && b.time != 0 && SuitsColumn(r, b, c)
    ensures OrderedIn(r.Write(b), c)
  {
    var w, slot := r.Write(b), r.SlotOf(b.time);
    forall x: nat, y: nat | Shown(w, c, x) && Shown(w, c, y) && Rank(w, x) < Rank(w, y) ensures w.ts[x] < w.ts[y] {
      ShownAfter(r, b, c, x);
      ShownAfter(r, b, c, y);
      RankAfterWrite(r, b, x);
      RankAfterWrite(r, b, y);
      DistinctRanks(r, x, slot);
      if y != slot {
        DistinctRanks(r, y, slot);
      }
    }
  }

  lemma SplitBreaksOrder(r: Ring, b: Batch, c: nat)
    requires r.Shaped() && c < |r.vals| && OrderedIn(r, c) && b.time != 0 && Splits(r, c, b.time)
    ensures !OrderedIn(r.Write(b), c)
  {
    var w, slot := r.Write(b), r.SlotOf(b.time);
    var x: nat, y: nat :| Shown(r, c, x) && Shown(r, c, y) && Rank(r, y) < Rank(r, slot) < Rank(r, x);
    ShownAfter(r, b, c, x);
    ShownAfter(r, b, c, y);
    RankAfterWrite(r, b, x);
    RankAfterWrite(r, b, y);
    assert Rank(w, x) < Rank(w, y);
  }

  lemma LateBreaksColumn(r: Ring, b: Batch, c: nat)
    requires r.Shaped() && c < |r.vals| && OrderedIn(r, c) && b.time != 0 && Samples(r, b, c) && LateIn(r, c, b.time)
    ensures !OrderedIn(r.Write(b), c)
  {
    var w, slot := r.Write(b), r.SlotOf(b.time);
    var s: nat :| Shown(r, c, s) && s != slot && r.ts[s] >= b.time;
    ShownAfter(r, b, c, s);
    ShownAfter(r, b, c, slot);
    RankAfterWrite(r, b, s);
    DistinctRanks(w, s, slot);
    assert Rank(w, s) < Rank(w, slot);
  }

  /**
   Whatever a write's time and entries, it keeps a column in order exactly when
   it does not move the cursor in between two of its samples and puts no sample
   of it behind a newer one.
   */
  lemma WriteKeepsColumnIff(r: Ring, b: Batch, c: nat)
    requires r.Shaped() && c < |r.vals| && OrderedIn(r, c) && b.time != 0
    ensures OrderedIn(r.Write(b), c) <==> SuitsColumn(r, b, c)
  {
    if Splits(r, c, b.time) {
      SplitBreaksOrder(r, b, c);
    } else if Samples(r, b, c) && LateIn(r, c, b.time) {
      LateBreaksColumn(r, b, c);
    } else {
      SuitingKeepsOrder(r, b, c);
    }
  }

  // ------------------------------------------------------------------ reads

  /** The order of the iterator is the rank order, whether or not the ring has wrapped. */
  lemma VisibleFollowsRank(r: Ring, x: nat, y: nat)
    requires r.Shaped() && Visible(r, x) && Visible(r, y)
    ensures Steps(r.FirstSlot(), x, |r.ts|) < Steps(r.FirstSlot(), y, |r.ts|) <==> Rank(r, x) < Rank(r, y)
  {
    NextSlot(r.cursor, |r.ts|);
  }

  lemma VisitFollowsRank(r: Ring, x: nat, y: nat)
    requires Consistent(r) && Used(r, x) && Used(r, y)
    ensures Steps(r.FirstSlot(), x, |r.ts|) < Steps(r.FirstSlot(), y, |r.ts|) <==> Rank(r, x) < Rank(r, y)
  {
    VisibleFollowsRank(r, x, y);
  }

  lemma OrderedReadIncreases(r: Ring, c: nat, start: nat, end: nat)
    requires Placed(r) && c < |r.vals| && OrderedIn(r, c)
    ensures StrictlyIncreasing(r.Read(c, start, end))
  {
    var slots, points := ReadSlots(r, c, start, end), r.Read(c, start, end);
    var first, count := r.FirstSlot(), r.VisitCount();
    ScanYieldsCells(r, c, start, end, first, count);
    ScanKeepsVisitOrder(r, c, start, end, first, count);
    forall i | 0 <= i < |slots| ensures Shown(r, c, slots[i]) && Visible(r, slots[i]) {
      ScanFindsQualifying(r, c, start, end, first, count, slots[i]);
      VisibleIsVisited(r, slots[i]);
      assert CellOk(r, c, slots[i]);
    }
    forall i, j | 0 <= i < j < |points| ensures points[i].0 < points[j].0 {
      VisibleFollowsRank(r, slots[i], slots[j]);
    }
  }

  /** All samples of the column lie below `end`. */
  ghost predicate ShownBelow(r: Ring, c: nat, end: nat)
    requires r.Shaped() && c < |r.vals|
  {
    forall s: nat | Shown(r, c, s) :: r.ts[s] < end
  }

  /** Reading a column in time order and its slots being in time order are the same thing. */
  lemma ReadIncreasesIffOrdered(r: Ring, c: nat, end: nat)
    requires Consistent(r) && c < |r.vals| && ShownBelow(r, c, end)
    ensures StrictlyIncreasing(r.Read(c, 0, end)) <==> OrderedIn(r, c)
  {
    if OrderedIn(r, c) {
      OrderedReadIncreases(r, c, 0, end);
    } else {
      var x: nat, y: nat :| Shown(r, c, x) && Shown(r, c, y) && Rank(r, x) < Rank(r, y) && r.ts[x] >= r.ts[y];
      ReadInRankOrder(r, c, end, x, y);
    }
  }

  /** Of two samples the read returns the one of lower rank first. */
  lemma ReadInRankOrder(r: Ring, c: nat, end: nat, x: nat, y: nat)
    requires Consistent(r) && c < |r.vals| && ShownBelow(r, c, end)
    requires Shown(r, c, x) && Shown(r, c, y) && Rank(r, x) < Rank(r, y)
    ensures var points := r.Read(c, 0, end);
            exists i, j :: 0 <= i < j < |points| && points[i].0 == r.ts[x] && points[j].0 == r.ts[y]
  {
    var slots, points := ReadSlots(r, c, 0, end), r.Read(c, 0, end);
    ReadIsComplete(r, c, 0, end);
    ScanKeepsVisitOrder(r, c, 0, end, r.FirstSlot(), r.VisitCount());
    assert x in slots && y in slots;
    var i :| 0 <= i < |slots| && slots[i] == x;
    var j :| 0 <= j < |slots| && slots[j] == y;
    VisitFollowsRank(r, x, y);
    assert points[i].0 == r.ts[x] && points[j].0 == r.ts[y];
  }

  // ------------------------------------------------------------- whole runs

  /** Every write of the run, at its point, suits the column. */
  ghost predicate WritesSuitColumn(r: Ring, log: seq<Batch>, c: nat)
    requires r.Shaped() && c < |r.vals|
  {
    forall k | 0 <= k < |log| :: SuitsColumn(Run(r, log[..k]), log[k], c)
  }

  ghost predicate OrderedInThroughout(r: Ring, log: seq<Batch>, c: nat)
    requires r.Shaped() && c < |r.vals|
  {
    forall k | 0 <= k <= |log| :: OrderedIn(Run(r, log[..k]), c)
  }

  lemma ColumnStep(r: Ring, log: seq<Batch>, c: nat, k: nat)
    requires r.Shaped() && WritableRun(log, |r.vals|) && c < |r.vals| && k < |log|
    requires OrderedIn(Run(r, log[..k]), c)
    ensures OrderedIn(Run(r, log[..k + 1]), c) <==> SuitsColumn(Run(r, log[..k]), log[k], c)
  {
    RunPrefix(r, log, k);
    WriteKeepsColumnIff(Run(r, log[..k]), log[k], c);
  }

  lemma {:induction false} SuitingRunKeepsOrder(r: Ring, log: seq<Batch>, c: nat, k: nat)
    requires r.Shaped() && c < |r.vals| && OrderedIn(r, c) && WritableRun(log, |r.vals|) && k <= |log|
    requires WritesSuitColumn(r, log, c)
    ensures OrderedIn(Run(r, log[..k]), c)
  {
    if k > 0 {
      SuitingRunKeepsOrder(r, log, c, k - 1);
      ColumnStep(r, log, c, k - 1);
    }
  }

  /** Over any run at all, a column is in order after every write exactly when every write suits it. */
  lemma OrderedInThroughoutIff(r: Ring, log: seq<Batch>, c: nat)
    requires r.Shaped() && c < |r.vals| && OrderedIn(r, c) && WritableRun(log, |r.vals|)
    ensures OrderedInThroughout(r, log, c) <==> WritesSuitColumn(r, log, c)
  {
    if WritesSuitColumn(r, log, c) {
      forall k | 0 <= k <= |log| ensures OrderedIn(Run(r, log[..k]), c) {
        SuitingRunKeepsOrder(r, log, c, k);
      }
    }
    if OrderedInThroughout(r, log, c) {
      forall k | 0 <= k < |log| ensures SuitsColumn(Run(r, log[..k]), log[k], c) {
        ColumnStep(r, log, c, k);
      }
    }
  }

  ghost predicate EndsBelow(log: seq<Batch>, end: nat) {
    forall i | 0 <= i < |log| :: log[i].time < end
  }

  lemma {:induction false} RunStaysBelow(r: Ring, log: seq<Batch>, end: nat, s: nat)
    requires IsBlank(r) && EndsBelow(log, end) && Used(Run(r, log), s)
    ensures Run(r, log).ts[s] < end
  {
    if log != [] {
      var init := log[..|log| - 1];
      if r.SlotOf(log[|log| - 1].time) != s {
        RunStaysBelow(r, init, end, s);
      }
    }
  }

  lemma PrefixReadIff(r: Ring, log: seq<Batch>, c: nat, end: nat, k: nat)
    requires IsBlank(r) && WritableRun(log, |r.vals|) && c < |r.vals| && EndsBelow(log, end) && k <= |log|
    ensures StrictlyIncreasing(Run(r, log[..k]).Read(c, 0, end)) <==> OrderedIn(Run(r, log[..k]), c)
  {
    PrefixIsConsistent(r, log, k);
    forall s: nat | Shown(Run(r, log[..k]), c, s) ensures Run(r, log[..k]).ts[s] < end {
      RunStaysBelow(r, log[..k], end, s);
    }
    ReadIncreasesIffOrdered(Run(r, log[..k]), c, end);
  }

  ghost predicate ReadsChronological(r: Ring, log: seq<Batch>, c: nat, end: nat)
    requires r.Shaped() && c < |r.vals|
  {
    forall k | 0 <= k <= |log| :: StrictlyIncreasing(Run(r, log[..k]).Read(c, 0, end))
  }

  /**
   The documented order of reads, for every column of every run of accepted
   writes: the reads taken after each write are all chronological exactly when
   no write moves the cursor in between two samples of the column and none puts
   a sample of it behind a newer one.
   */
  lemma ColumnReadsChronologicalIff(r: Ring, log: seq<Batch>, c: nat, end: nat)
    requires IsBlank(r) && WritableRun(log, |r.vals|) && c < |r.vals| && EndsBelow(log, end)
    ensures ReadsChronological(r, log, c, end) <==> WritesSuitColumn(r, log, c)
  {
    OrderedInThroughoutIff(r, log, c);
    forall k: nat | k <= |log|
      ensures StrictlyIncreasing(Run(r, log[..k]).Read(c, 0, end)) <==> OrderedIn(Run(r, log[..k]), c)
    {
      PrefixReadIff(r, log, c, end, k);
    }
  }

  // ----------------------------------------------------------- full columns

  /** Column `c` has a value in every written slot. */
  ghost predicate FullColumn(r: Ring, c: nat)
    requires r.Shaped() && c < |r.vals|
  {
    forall s: nat | Used(r, s) :: Shown(r, c, s)
  }

  lemma FullColumnIsOrderedIff(r: Ring, c: nat)
    requires r.Shaped() && c < |r.vals| && FullColumn(r, c)
    ensures OrderedIn(r, c) <==> Ordered(r)
  {
    if OrderedIn(r, c) {
      forall x: nat, y: nat | Used(r, x) && Used(r, y) && Rank(r, x) < Rank(r, y) ensures r.ts[x] < r.ts[y] {
        assert Shown(r, c, x) && Shown(r, c, y);
      }
    }
  }

  /** Every batch stores a value for `c`. */
  ghost predicate FillsColumn(log: seq<Batch>, c: nat) {
    forall i | 0 <= i < |log| :: Lookup(log[i].entries, c).Some? && !Lookup(log[i].entries, c).value.NaN?
  }

  lemma {:induction false} FillingRunFillsColumn(r: Ring, log: seq<Batch>, c: nat)
    requires IsBlank(r) && c < |r.vals| && FillsColumn(log, c)
    ensures FullColumn(Run(r, log), c)
  {
    if log != [] {
      var init, b := log[..|log| - 1], log[|log| - 1];
      FillingRunFillsColumn(r, init, c);
      forall s: nat | Used(Run(r, log), s) ensures Shown(Run(r, log), c, s) {
        WrittenCell(Run(r, init), b, s, c);
        assert Run(r, init).SlotOf(b.time) != s ==> Used(Run(r, init), s);
      }
    }
  }

  /**
   For a column that every batch writes, these are the conditions on the ring:
   no write jumps over data and none comes late.
   */
  lemma ReadsChronologicalIff(r: Ring, log: seq<Batch>, c: nat, end: nat)
    requires IsBlank(r) && WritableRun(log, |r.vals|) && c < |r.vals| && EndsBelow(log, end) && FillsColumn(log, c)
    ensures ReadsChronological(r, log, c, end) <==> WritesFollowOrder(r, log)
  {
    OrderedThroughoutIff(r, log);
    forall k: nat | k <= |log|
      ensures StrictlyIncreasing(Run(r, log[..k]).Read(c, 0, end)) <==> Ordered(Run(r, log[..k]))
    {
      PrefixReadIff(r, log, c, end, k);
      FillingRunFillsColumn(r, log[..k], c);
      FullColumnIsOrderedIff(Run(r, log[..k]), c);
    }
  }

  // ------------------------------------------------------------ an example

  ghost const FIRST: Batch := Batch(3, [(0, Finite(3.0))])
  ghost const SECOND: Batch := Batch(2, [(1, Finite(2.0))])

  lemma TwoSuitingWrites(r: Ring, r1: Ring, a: Batch, b: Batch, c: nat)
    requires r.Shaped() && c < |r.vals| && r1 == r.Write(a) && SuitsColumn(r, a, c) && SuitsColumn(r1, b, c)
    ensures WritesSuitColumn(r, [a, b], c)
  {
    assert [a, b][..1] == [a] && [a][..0] == [];
    assert Run(r, [a, b][..0]) == r && Run(r, [a, b][..1]) == r1;
  }

  lemma FirstWritten(r: Ring) returns (r1: Ring)
    requires r == Blank(1, 4, 2)
    ensures r1 == r.Write(FIRST) && ComesLate(r1, SECOND.time)
    ensures forall c: nat | c < 2 :: SuitsColumn(r, FIRST, c) && SuitsColumn(r1, SECOND, c)
  {
    assert FIRST.entries[..0] == [] && SECOND.entries[..0] == [];
    r1 := r.Write(FIRST);
    assert r1.ts == [0, 0, 0, 3] && r1.vals[0] == [NaN, NaN, NaN, Finite(3.0)] && r1.vals[1] == [NaN, NaN, NaN, NaN];
    assert Used(r1, 3) && r1.SlotOf(2) == 2;
  }

  /** Two series, recorded one sample a call: the second comes late for the ring and for no series. */
  lemma LateForTheRingOnly()
    ensures !WritesFollowOrder(Blank(1, 4, 2), [FIRST, SECOND])
    ensures ReadsChronological(Blank(1, 4, 2), [FIRST, SECOND], 0, 100)
    ensures ReadsChronological(Blank(1, 4, 2), [FIRST, SECOND], 1, 100)
  {
    var r, log := Blank(1, 4, 2), [FIRST, SECOND];
    var r1 := FirstWritten(r);
    assert log[..1] == [FIRST] && [FIRST][..0] == [];
    assert !FollowsOrder(Run(r, log[..1]), log[1].time);
    forall c: nat | c < 2 ensures ReadsChronological(r, log, c, 100) {
      TwoSuitingWrites(r, r1, FIRST, SECOND, c);
      ColumnReadsChronologicalIff(r, log, c, 100);
    }
  }
}
