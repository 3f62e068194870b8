/**
 Whether reads return samples that were recorded. The series of a ring share the
 timestamps of its slots, so a batch that leaves a column out still moves the
 timestamp under that column's old value.
 */
module RecordedReads {
  import opened Wrappers
  import opened Floats
  import opened RingModel
  import opened RingRuns
  import opened RingOrder
  import opened ColumnOrder
  import Sequences

  ghost predicate RecordedBy(log: seq<Batch>, c: nat, k: nat, p: Point) {
    k < |log| && log[k].time == p.0 && Lookup(log[k].entries, c) == Some(p.1)
  }

  /** Some batch recorded this value for the column at this time. */
  ghost predicate Recorded(log: seq<Batch>, c: nat, p: Point) {
    exists k: nat :: RecordedBy(log, c, k, p)
  }

  ghost predicate RecordedBefore(log: seq<Batch>, c: nat, j: nat, p: Point) {
    exists k: nat | k < j :: RecordedBy(log, c, k, p)
  }

  ghost predicate NondecreasingTimes(log: seq<Batch>) {
    forall i, j | 0 <= i < j < |log| :: log[i].time <= log[j].time
  }

  /**
   A point shown with the time of batch `i` and the value of batch `j` was
   recorded as such exactly when both have the same time, or when the very same
   sample had been recorded before `j` stored its value over it.
   */
  lemma ShownIsRecordedIff(r: Ring, log: seq<Batch>, c: nat, i: nat, j: nat, p: Point)
    requires r.Shaped() && ShownBy(r, log, c, i, j, p)
    ensures Recorded(log, c, p) <==> log[j].time == p.0 || RecordedBefore(log, c, j, p)
    ensures NondecreasingTimes(log) ==> (Recorded(log, c, p) <==> log[j].time == p.0)
  {
    if log[j].time == p.0 {
      assert RecordedBy(log, c, j, p);
    }
    if Recorded(log, c, p) {
      var k: nat :| RecordedBy(log, c, k, p);
      assert WritesCell(r, log[k], r.SlotOf(p.0), c);
      assert r.SlotOf(log[j].time) == r.SlotOf(p.0);
    }
  }

  ghost predicate AllRecorded(log: seq<Batch>, c: nat, points: seq<Point>) {
    forall p | p in points :: Recorded(log, c, p)
  }

  /** For every slot that the read shows, its last batch has the time at which the column's value was stored. */
  ghost predicate ValuesKeepTheirTime(r: Ring, log: seq<Batch>, c: nat, start: nat, end: nat)
    requires r.Shaped()
  {
    forall i: nat, j: nat, p | ShownBy(r, log, c, i, j, p) && InRead(p, start, end) :: log[j].time == p.0
  }

  ghost predicate ValuesKeepTheirTimeOrReturn(r: Ring, log: seq<Batch>, c: nat, start: nat, end: nat)
    requires r.Shaped()
  {
    forall i: nat, j: nat, p | ShownBy(r, log, c, i, j, p) && InRead(p, start, end) ::
      log[j].time == p.0 || RecordedBefore(log, c, j, p)
  }

  predicate InRead(p: Point, start: nat, end: nat) {
    start <= p.0 < end && !p.1.NaN?
  }

  lemma AllRecordedIffShown(blank: Ring, log: seq<Batch>, c: nat, start: nat, end: nat)
    requires blank.Shaped() && blank == Blank(blank.interval, |blank.ts|, |blank.vals|)
    requires WritableRun(log, |blank.vals|) && c < |blank.vals|
    ensures AllRecorded(log, c, Run(blank, log).Read(c, start, end)) <==>
            forall i: nat, j: nat, p | ShownBy(blank, log, c, i, j, p) && InRead(p, start, end) :: Recorded(log, c, p)
  {
    var points := Run(blank, log).Read(c, start, end);
    forall p ensures p in points <==> InRead(p, start, end) && exists i: nat, j: nat :: ShownBy(blank, log, c, i, j, p) {
      ReadReturnsLastWrites(blank, log, c, start, end, p);
    }
  }

  /**
   Over any run, a read returns only recorded samples exactly when every value
   it shows was stored at the time of its slot, or is back at a time at which
   it had been recorded.
   */
  lemma ReadsAreRecordedIff(blank: Ring, log: seq<Batch>, c: nat, start: nat, end: nat)
    requires blank.Shaped() && blank == Blank(blank.interval, |blank.ts|, |blank.vals|)
    requires WritableRun(log, |blank.vals|) && c < |blank.vals|
    ensures AllRecorded(log, c, Run(blank, log).Read(c, start, end)) <==>
            ValuesKeepTheirTimeOrReturn(blank, log, c, start, end)
  {
    AllRecordedIffShown(blank, log, c, start, end);
    forall i: nat, j: nat, p | ShownBy(blank, log, c, i, j, p)
      ensures Recorded(log, c, p) <==> log[j].time == p.0 || RecordedBefore(log, c, j, p)
    {
      ShownIsRecordedIff(blank, log, c, i, j, p);
    }
  }

  /** Over a run of nondecreasing timestamps the second case cannot occur. */
  lemma OrderedReadsAreRecordedIff(blank: Ring, log: seq<Batch>, c: nat, start: nat, end: nat)
    requires blank.Shaped() && blank == Blank(blank.interval, |blank.ts|, |blank.vals|)
    requires WritableRun(log, |blank.vals|) && c < |blank.vals| && NondecreasingTimes(log)
    ensures AllRecorded(log, c, Run(blank, log).Read(c, start, end)) <==>
            ValuesKeepTheirTime(blank, log, c, start, end)
  {
    AllRecordedIffShown(blank, log, c, start, end);
    forall i: nat, j: nat, p | ShownBy(blank, log, c, i, j, p)
      ensures Recorded(log, c, p) <==> log[j].time == p.0
    {
      ShownIsRecordedIff(blank, log, c, i, j, p);
    }
  }

  /** A column that every batch writes is always read as recorded. */
  lemma FullColumnIsRecorded(blank: Ring, log: seq<Batch>, c: nat, start: nat, end: nat)
    requires blank.Shaped() && blank == Blank(blank.interval, |blank.ts|, |blank.vals|)
    requires WritableRun(log, |blank.vals|) && c < |blank.vals|
    requires forall i | 0 <= i < |log| :: Lookup(log[i].entries, c).Some?
    ensures AllRecorded(log, c, Run(blank, log).Read(c, start, end))
  {
    forall i: nat, j: nat, p | ShownBy(blank, log, c, i, j, p) ensures log[j].time == p.0 {
      assert WritesCell(blank, log[i], blank.SlotOf(log[i].time), c);
      assert blank.SlotOf(log[j].time) == blank.SlotOf(log[i].time);
    }
    ReadsAreRecordedIff(blank, log, c, start, end);
  }

  // ------------------------------------------------------ the write's guard

  /** Every read of the column returns only recorded samples. */
  ghost predicate ReadsRecorded(r: Ring, log: seq<Batch>, c: nat)
    requires r.Shaped() && c < |r.vals|
  {
    forall start: nat, end: nat :: AllRecorded(log, c, r.Read(c, start, end))
  }

  lemma ReadsRecordedIffCells(r: Ring, log: seq<Batch>, c: nat)
    requires Consistent(r) && c < |r.vals|
    ensures ReadsRecorded(r, log, c) <==> forall s: nat | Shown(r, c, s) :: Recorded(log, c, r.Cell(c, s))
  {
    if ReadsRecorded(r, log, c) {
      forall s: nat | Shown(r, c, s) ensures Recorded(log, c, r.Cell(c, s)) {
        ReadPoints(r, c, 0, r.ts[s] + 1, r.Cell(c, s));
        assert AllRecorded(log, c, r.Read(c, 0, r.ts[s] + 1));
      }
    }
    if forall s: nat | Shown(r, c, s) :: Recorded(log, c, r.Cell(c, s)) {
      forall start: nat, end: nat, p | p in r.Read(c, start, end) ensures Recorded(log, c, p) {
        ReadPoints(r, c, start, end, p);
        var s: nat :| 0 <= s < |r.ts| && r.Qualifies(c, start, end, s) && p == r.Cell(c, s);
        assert CellOk(r, c, s);
        assert Shown(r, c, s);
      }
    }
  }

  /** The batch leaves no old value of the column under a new timestamp. */
  predicate LeavesNoMix(r: Ring, b: Batch, c: nat)
    requires r.Shaped() && c < |r.vals|
  {
    var slot := r.SlotOf(b.time);
    Lookup(b.entries, c).Some? || r.vals[c][slot].NaN? || r.ts[slot] == b.time
  }

  lemma RecordedGrows(log: seq<Batch>, b: Batch, c: nat, p: Point)
    ensures Recorded(log + [b], c, p) <==> Recorded(log, c, p) || RecordedBy([b], c, 0, p)
  {
    if Recorded(log, c, p) {
      var k: nat :| RecordedBy(log, c, k, p);
      assert RecordedBy(log + [b], c, k, p);
    }
    if RecordedBy([b], c, 0, p) {
      assert RecordedBy(log + [b], c, |log|, p);
    }
    if Recorded(log + [b], c, p) {
      var k: nat :| RecordedBy(log + [b], c, k, p);
      assert k < |log| ==> RecordedBy(log, c, k, p);
    }
  }

  /** In a run of nondecreasing times, the time of an earlier batch can only return while its slot still has it. */
  lemma SlotStillHas(blank: Ring, log: seq<Batch>, b: Batch, k: nat)
    requires blank.Shaped() && NondecreasingTimes(log + [b]) && k < |log| && log[k].time == b.time
    ensures Run(blank, log).ts[blank.SlotOf(b.time)] == b.time
  {
    var slot := blank.SlotOf(b.time);
    forall j | k <= j < |log| ensures log[j].time == b.time {
      assert (log + [b])[k].time <= (log + [b])[j].time <= (log + [b])[|log|].time;
    }
    SlotHoldsLastWrite(blank, log, slot);
    assert LastInSlot(blank, log, slot, |log| - 1);
  }

  lemma MixIsUnrecorded(blank: Ring, log: seq<Batch>, b: Batch, c: nat)
    requires blank.Shaped() && c < |blank.vals| && NondecreasingTimes(log + [b]) && !LeavesNoMix(Run(blank, log), b, c)
    ensures var slot := blank.SlotOf(b.time);
            !Recorded(log + [b], c, (b.time, Run(blank, log).vals[c][slot]))
  {
    var p := (b.time, Run(blank, log).vals[c][blank.SlotOf(b.time)]);
    RecordedGrows(log, b, c, p);
    if Recorded(log, c, p) {
      var k: nat :| RecordedBy(log, c, k, p);
      SlotStillHas(blank, log, b, k);
      assert false;
    }
  }

  lemma CellsRecorded(r: Ring, log: seq<Batch>, b: Batch, c: nat, s: nat)
    requires r.Shaped() && c < |r.vals| && b.time != 0 && LeavesNoMix(r, b, c)
    requires Shown(r, c, s) ==> Recorded(log, c, r.Cell(c, s))
    requires s < |r.ts| && CellOk(r, c, s)
    ensures Shown(r.Write(b), c, s) ==> Recorded(log + [b], c, r.Write(b).Cell(c, s))
  {
    var w := r.Write(b);
    WrittenCell(r, b, s, c);
    if Shown(w, c, s) {
      RecordedGrows(log, b, c, w.Cell(c, s));
    }
  }

  /**
   The guard a caller can check before a write, for runs of nondecreasing times:
   if all reads of the column returned recorded samples so far, they still do
   after the batch exactly when it has an entry for the column, or the slot holds
   no value of the column, or the slot has this very time already.
   */
  lemma WriteKeepsRecordedIff(blank: Ring, log: seq<Batch>, b: Batch, c: nat)
    requires IsBlank(blank) && WritableRun(log, |blank.vals|) && c < |blank.vals| && Acceptable(b)
    requires NondecreasingTimes(log + [b]) && ReadsRecorded(Run(blank, log), log, c)
    ensures ReadsRecorded(Run(blank, log).Write(b), log + [b], c) <==> LeavesNoMix(Run(blank, log), b, c)
  {
    var r := Run(blank, log);
    BlankIsConsistent(blank.interval, |blank.ts|, |blank.vals|);
    RunKeepsConsistent(blank, log);
    WriteKeepsConsistent(r, b);
    ReadsRecordedIffCells(r, log, c);
    ReadsRecordedIffCells(r.Write(b), log + [b], c);
    if LeavesNoMix(r, b, c) {
      forall s: nat | Shown(r.Write(b), c, s) ensures Recorded(log + [b], c, r.Write(b).Cell(c, s)) {
        assert CellOk(r, c, s);
        CellsRecorded(r, log, b, c, s);
      }
    } else {
      MixIsUnrecorded(blank, log, b, c);
      WrittenCell(r, b, r.SlotOf(b.time), c);
      assert Shown(r.Write(b), c, r.SlotOf(b.time));
    }
  }

  // ------------------------------------------------------------- whole runs

  /** No batch of the run, at its point, leaves an old value of the column under a new timestamp. */
  ghost predicate NeverMixes(blank: Ring, log: seq<Batch>, c: nat)
    requires blank.Shaped() && c < |blank.vals|
  {
    forall k | 0 <= k < |log| :: LeavesNoMix(Run(blank, log[..k]), log[k], c)
  }

  ghost predicate RecordedThroughout(blank: Ring, log: seq<Batch>, c: nat)
    requires blank.Shaped() && c < |blank.vals|
  {
    forall k | 0 <= k <= |log| :: ReadsRecorded(Run(blank, log[..k]), log[..k], c)
  }

  lemma RecordedStep(blank: Ring, log: seq<Batch>, c: nat, k: nat)
    requires IsBlank(blank) && WritableRun(log, |blank.vals|) && c < |blank.vals| && NondecreasingTimes(log)
    requires k < |log| && ReadsRecorded(Run(blank, log[..k]), log[..k], c)
    ensures ReadsRecorded(Run(blank, log[..k + 1]), log[..k + 1], c) <==> LeavesNoMix(Run(blank, log[..k]), log[k], c)
  {
    RunPrefix(blank, log, k);
    Sequences.TakeNext(log, k);
    WriteKeepsRecordedIff(blank, log[..k], log[k], c);
  }

  lemma {:induction false} UnmixedIsRecorded(blank: Ring, log: seq<Batch>, c: nat, k: nat)
    requires IsBlank(blank) && WritableRun(log, |blank.vals|) && c < |blank.vals| && NondecreasingTimes(log)
    requires k <= |log| && NeverMixes(blank, log, c)
    ensures ReadsRecorded(Run(blank, log[..k]), log[..k], c)
  {
    if k == 0 {
      BlankIsConsistent(blank.interval, |blank.ts|, |blank.vals|);
      ReadsRecordedIffCells(blank, [], c);
    } else {
      UnmixedIsRecorded(blank, log, c, k - 1);
      RecordedStep(blank, log, c, k - 1);
    }
  }

  /**
   Over any run of nondecreasing times: the reads of a column return only
   recorded samples after every write exactly when no write fails the guard.
   */
  lemma RecordedThroughoutIff(blank: Ring, log: seq<Batch>, c: nat)
    requires IsBlank(blank) && WritableRun(log, |blank.vals|) && c < |blank.vals| && NondecreasingTimes(log)
    ensures RecordedThroughout(blank, log, c) <==> NeverMixes(blank, log, c)
  {
    if NeverMixes(blank, log, c) {
      forall k | 0 <= k <= |log| ensures ReadsRecorded(Run(blank, log[..k]), log[..k], c) {
        UnmixedIsRecorded(blank, log, c, k);
      }
    }
    if RecordedThroughout(blank, log, c) {
      forall k | 0 <= k < |log| ensures LeavesNoMix(Run(blank, log[..k]), log[k], c) {
        RecordedStep(blank, log, c, k);
      }
    }
  }

  /** Nobody recorded 7 at time 3: the batch at 3 left column 0 out and moved the timestamp under its value. */
  lemma MixedSample()
    ensures var log := [Batch(1, [(0, Finite(7.0))]), Batch(3, [(1, Finite(9.0))])];
            && Run(Blank(1, 2, 2), log).Read(0, 0, 100) == [(3, Finite(7.0))]
            && !Recorded(log, 0, (3, Finite(7.0)))
  {
    var a, b := Batch(1, [(0, Finite(7.0))]), Batch(3, [(1, Finite(9.0))]);
    var log := [a, b];
    assert log[..1] == [a] && [a][..0] == [];
    assert a.entries[..0] == [] && b.entries[..0] == [];
    var r0 := Blank(1, 2, 2);
    var r1 := r0.Write(a);
    assert r1.ts == [0, 1] && r1.vals[0] == [NaN, Finite(7.0)] && r1.cursor == 1;
    var r2 := r1.Write(b);
    assert r2.ts == [0, 3] && r2.vals[0] == [NaN, Finite(7.0)] && r2.cursor == 1 && !r2.wrapped;
    assert Run(r0, [a]) == r1 && Run(r0, log) == r2;
    assert r2.Scan(0, 0, 100, 0, 0) == [];
    assert r2.Scan(0, 0, 100, 1, 1) == [(3, Finite(7.0))];
    assert r2.Scan(0, 0, 100, 0, 2) == [(3, Finite(7.0))];
  }
}
