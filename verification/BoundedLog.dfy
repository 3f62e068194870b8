/**
 A gap-free run refines a bounded log. The reference here is a plain queue with
 one row per time bucket: a write to the newest bucket updates the last row, a
 write to the next bucket appends a row, and a full queue drops its oldest row.
 The slot arithmetic, the cursor and the wrap flag do not occur in it.
 */
module BoundedLog {
  import opened Wrappers
  import opened Floats
  import opened RingModel
  import opened RingRuns
  import opened RingOrder
  import Cyclic

  datatype Row = Row(time: nat, values: map<nat, Float>)

  function PutAll(values: map<nat, Float>, entries: seq<(nat, Float)>): map<nat, Float> {
    if entries == [] then values
    else
      var last := entries[|entries| - 1];
      PutAll(values, entries[..|entries| - 1])[last.0 := last.1]
  }

  function Push(q: seq<Row>, b: Batch, interval: nat, limit: nat): seq<Row>
    requires interval > 0 && limit > 0
  {
    var m := |q|;
    if m > 0 && b.time / interval == q[m - 1].time / interval then
      q[..m - 1] + [Row(b.time, PutAll(q[m - 1].values, b.entries))]
    else
      (if m == limit then q[1..] else q) + [Row(b.time, PutAll(map[], b.entries))]
  }

  function Replay(log: seq<Batch>, interval: nat, limit: nat): seq<Row>
    requires interval > 0 && limit > 0
  {
    if log == [] then []
    else Push(Replay(log[..|log| - 1], interval, limit), log[|log| - 1], interval, limit)
  }

  function RowPoint(row: Row, c: nat, start: nat, end: nat): seq<Point> {
    if start <= row.time < end && c in row.values && !row.values[c].NaN?
    then [(row.time, row.values[c])] else []
  }

  function QueueRead(q: seq<Row>, c: nat, start: nat, end: nat): seq<Point> {
    if q == [] then [] else RowPoint(q[0], c, start, end) + QueueRead(q[1..], c, start, end)
  }

  /** Timestamps never go back, and each bucket is the previous one or the next one. */
  ghost predicate GapFree(log: seq<Batch>, interval: nat)
    requires interval > 0
  {
    forall i | 0 < i < |log| :: FollowsOn(log[i - 1].time, log[i].time, interval)
  }

  predicate FollowsOn(before: nat, after: nat, interval: nat)
    requires interval > 0
  {
    before <= after && after / interval <= before / interval + 1
  }

  /** How far behind the cursor a slot lies. */
  function Behind(cursor: nat, s: nat, n: nat): nat
    requires cursor < n && s < n
  {
    if s <= cursor then cursor - s else cursor - s + n
  }

  ghost predicate HoldsRow(r: Ring, s: nat, row: Row)
    requires r.Shaped() && s < |r.ts|
  {
    && r.ts[s] == row.time != 0
    && forall c | c in row.values && c < |r.vals| :: r.vals[c][s] == row.values[c]
  }

  /** The ring stores row `|q| - 1 - k` of the queue `k` slots behind its cursor, and nothing else. */
  ghost predicate Simulates(r: Ring, q: seq<Row>) {
    && Consistent(r) && |q| <= |r.ts|
    && (q == [] <==> r.IsEmpty())
    && (!r.wrapped ==> |q| <= r.cursor + 1)
    && (forall s: nat | s < |r.ts| :: SlotHolds(r, q, s))
    && Consecutive(q, r.interval)
  }

  ghost predicate SlotHolds(r: Ring, q: seq<Row>, s: nat)
    requires r.Shaped() && s < |r.ts|
  {
    var k := Behind(r.cursor, s, |r.ts|);
    if k < |q| then HoldsRow(r, s, q[|q| - 1 - k]) else r.ts[s] == 0
  }

  ghost predicate Consecutive(q: seq<Row>, interval: nat)
    requires interval > 0
  {
    forall i, j | 0 <= i < j < |q| ::
      q[i].time < q[j].time && q[i].time / interval + (j - i) == q[j].time / interval
  }

  lemma PutAllLookup(values: map<nat, Float>, entries: seq<(nat, Float)>, c: nat)
    ensures var l := Lookup(entries, c);
            && (c in PutAll(values, entries) <==> l.Some? || c in values)
            && (c in PutAll(values, entries) ==>
                  PutAll(values, entries)[c] == if l.Some? then l.value else values[c])
  {
  }

  lemma NextBucketSlot(r: Ring, before: nat, after: nat)
    requires r.Shaped()
    requires after / r.interval == before / r.interval + 1
    ensures r.SlotOf(after) == Next(r.SlotOf(before), |r.ts|)
  {
    Cyclic.ModSuccessor(before / r.interval, |r.ts|);
  }

  lemma LaterBucketIsLater(before: nat, after: nat, interval: nat)
    requires interval > 0 && before / interval < after / interval
    ensures before < after
  {
    if after <= before {
      Cyclic.DivMonotone(after, before, interval);
    }
  }

  lemma WrittenRow(r: Ring, b: Batch, values: map<nat, Float>)
    requires r.Shaped() && b.time != 0
    requires var s := r.SlotOf(b.time); forall c | c in values && c < |r.vals| :: r.vals[c][s] == values[c]
    ensures HoldsRow(r.Write(b), r.SlotOf(b.time), Row(b.time, PutAll(values, b.entries)))
  {
    forall c | c in PutAll(values, b.entries) && c < |r.vals|
      ensures r.Write(b).vals[c][r.SlotOf(b.time)] == PutAll(values, b.entries)[c]
    {
      PutAllLookup(values, b.entries, c);
    }
  }

  lemma UnwrittenRow(r: Ring, b: Batch, s: nat, row: Row)
    requires r.Shaped() && s < |r.ts| && s != r.SlotOf(b.time) && HoldsRow(r, s, row)
    ensures HoldsRow(r.Write(b), s, row)
  {
  }

  lemma FirstWriteSimulates(r: Ring, b: Batch)
    requires Simulates(r, []) && Writable(b, |r.vals|)
    ensures Simulates(r.Write(b), Push([], b, r.interval, |r.ts|))
  {
    var w, q' := r.Write(b), Push([], b, r.interval, |r.ts|);
    WriteKeepsConsistent(r, b);
    CursorIsLastWrite(r, b);
    WrittenRow(r, b, map[]);
    forall s: nat | s < |w.ts| ensures SlotHolds(w, q', s) {
      assert SlotHolds(r, [], s);
    }
  }

  lemma SameBucketSlot(r: Ring, q: seq<Row>, b: Batch, s: nat)
    requires Simulates(r, q) && q != [] && s < |r.ts| && b.time != 0
    requires b.time / r.interval == q[|q| - 1].time / r.interval
    ensures r.Write(b).cursor == r.cursor
    ensures SlotHolds(r.Write(b), Push(q, b, r.interval, |r.ts|), s)
  {
    assert SlotHolds(r, q, r.cursor) && SlotHolds(r, q, s);
    assert r.SlotOf(b.time) == r.cursor;
    if s == r.cursor {
      WrittenRow(r, b, q[|q| - 1].values);
    } else if Behind(r.cursor, s, |r.ts|) < |q| {
      UnwrittenRow(r, b, s, q[|q| - 1 - Behind(r.cursor, s, |r.ts|)]);
    }
  }

  lemma SameBucketSimulates(r: Ring, q: seq<Row>, b: Batch)
    requires Simulates(r, q) && q != [] && Writable(b, |r.vals|)
    requires q[|q| - 1].time <= b.time && b.time / r.interval == q[|q| - 1].time / r.interval
    ensures Simulates(r.Write(b), Push(q, b, r.interval, |r.ts|))
  {
    WriteKeepsConsistent(r, b);
    SameBucketSlot(r, q, b, r.cursor);
    forall s: nat | s < |r.ts| ensures SlotHolds(r.Write(b), Push(q, b, r.interval, |r.ts|), s) {
      SameBucketSlot(r, q, b, s);
    }
  }

  lemma NextBucketMoves(r: Ring, q: seq<Row>, b: Batch)
    requires Simulates(r, q) && q != []
    requires b.time / r.interval == q[|q| - 1].time / r.interval + 1
    ensures r.Write(b).cursor == Next(r.cursor, |r.ts|)
    ensures r.Write(b).wrapped == (r.wrapped || Next(r.cursor, |r.ts|) < r.cursor)
  {
    assert SlotHolds(r, q, r.cursor);
    NextBucketSlot(r, q[|q| - 1].time, b.time);
  }

  lemma NextBucketSlotHolds(r: Ring, q: seq<Row>, b: Batch, s: nat)
    requires Simulates(r, q) && q != [] && s < |r.ts| && b.time != 0
    requires b.time / r.interval == q[|q| - 1].time / r.interval + 1
    ensures SlotHolds(r.Write(b), Push(q, b, r.interval, |r.ts|), s)
  {
    var w, q', m, n := r.Write(b), Push(q, b, r.interval, |r.ts|), |q|, |r.ts|;
    NextBucketMoves(r, q, b);
    assert SlotHolds(r, q, s);
    if s == w.cursor {
      WrittenRow(r, b, map[]);
    } else {
      assert Behind(w.cursor, s, n) == Behind(r.cursor, s, n) + 1;
      if Behind(w.cursor, s, n) < |q'| {
        UnwrittenRow(r, b, s, q[m - 1 - Behind(r.cursor, s, n)]);
      }
    }
  }

  lemma NextBucketSimulates(r: Ring, q: seq<Row>, b: Batch)
    requires Simulates(r, q) && q != [] && Writable(b, |r.vals|)
    requires b.time / r.interval == q[|q| - 1].time / r.interval + 1
    ensures Simulates(r.Write(b), Push(q, b, r.interval, |r.ts|))
  {
    WriteKeepsConsistent(r, b);
    NextBucketMoves(r, q, b);
    NextBucketConsecutive(q, b, r.interval, |r.ts|);
    forall s: nat | s < |r.ts| ensures SlotHolds(r.Write(b), Push(q, b, r.interval, |r.ts|), s) {
      NextBucketSlotHolds(r, q, b, s);
    }
  }

  lemma NextBucketConsecutive(q: seq<Row>, b: Batch, interval: nat, limit: nat)
    requires interval > 0 && limit > 0 && q != [] && Consecutive(q, interval)
    requires b.time / interval == q[|q| - 1].time / interval + 1
    ensures Consecutive(Push(q, b, interval, limit), interval)
  {
    LaterBucketIsLater(q[|q| - 1].time, b.time, interval);
  }

  lemma StepSimulates(r: Ring, q: seq<Row>, b: Batch)
    requires Simulates(r, q) && q != [] && Writable(b, |r.vals|) && FollowsOn(q[|q| - 1].time, b.time, r.interval)
    ensures Simulates(r.Write(b), Push(q, b, r.interval, |r.ts|))
  {
    Cyclic.DivMonotone(q[|q| - 1].time, b.time, r.interval);
    if b.time / r.interval == q[|q| - 1].time / r.interval {
      SameBucketSimulates(r, q, b);
    } else {
      NextBucketSimulates(r, q, b);
    }
  }

  lemma GapFreeInit(log: seq<Batch>, interval: nat, columns: nat)
    requires interval > 0 && log != [] && GapFree(log, interval) && WritableRun(log, columns)
    ensures GapFree(log[..|log| - 1], interval) && WritableRun(log[..|log| - 1], columns)
    ensures Writable(log[|log| - 1], columns)
    ensures |log| > 1 ==> FollowsOn(log[|log| - 2].time, log[|log| - 1].time, interval)
  {
  }

  lemma {:induction false} GapFreeRunSimulates(r: Ring, log: seq<Batch>)
    requires IsBlank(r) && WritableRun(log, |r.vals|) && GapFree(log, r.interval)
    ensures var q := Replay(log, r.interval, |r.ts|);
            && Simulates(Run(r, log), q)
            && (log == [] <==> q == [])
            && (log != [] ==> q[|q| - 1].time == log[|log| - 1].time)
  {
    if log == [] {
      BlankIsConsistent(r.interval, |r.ts|, |r.vals|);
    } else {
      var init, b := log[..|log| - 1], log[|log| - 1];
      GapFreeInit(log, r.interval, |r.vals|);
      GapFreeRunSimulates(r, init);
      var q := Replay(init, r.interval, |r.ts|);
      if q == [] {
        FirstWriteSimulates(Run(r, init), b);
      } else {
        StepSimulates(Run(r, init), q, b);
      }
    }
  }

  // ---------------------------------------------------------------- reads

  ghost predicate ColumnInEveryRow(q: seq<Row>, c: nat) {
    forall i | 0 <= i < |q| :: c in q[i].values
  }

  /** The newest `count` rows. */
  function LastRows(q: seq<Row>, count: nat): seq<Row> {
    if count < |q| then q[|q| - count..] else q
  }

  lemma LastRowsStep(q: seq<Row>, c: nat, start: nat, end: nat, count: nat)
    requires count > 0
    ensures QueueRead(LastRows(q, count), c, start, end)
            == (if count <= |q| then RowPoint(q[|q| - count], c, start, end) else [])
               + QueueRead(LastRows(q, count - 1), c, start, end)
  {
    var rows := LastRows(q, count);
    if count <= |q| {
      assert rows[0] == q[|q| - count];
      assert rows[1..] == LastRows(q, count - 1);
    } else {
      assert [] + QueueRead(q, c, start, end) == QueueRead(q, c, start, end);
    }
  }

  /** What one step of a scan adds: the row that the queue has at that distance, if any. */
  lemma ScanStep(r: Ring, q: seq<Row>, c: nat, start: nat, end: nat, slot: nat, count: nat)
    requires Simulates(r, q) && c < |r.vals| && ColumnInEveryRow(q, c)
    requires slot < |r.ts| && count > 0 && Behind(r.cursor, slot, |r.ts|) == count - 1
    ensures r.Scan(c, start, end, slot, count)
            == (if count <= |q| then RowPoint(q[|q| - count], c, start, end) else [])
               + r.Scan(c, start, end, Next(slot, |r.ts|), count - 1)
  {
    NextSlot(slot, |r.ts|);
    assert SlotHolds(r, q, slot);
    assert CellOk(r, c, slot);
  }

  lemma {:induction false} ScanIsQueueRead(
      r: Ring, q: seq<Row>, c: nat, start: nat, end: nat, slot: nat, count: nat)
    requires Simulates(r, q) && c < |r.vals| && ColumnInEveryRow(q, c)
    requires slot < |r.ts| && count <= |r.ts|
    requires count != 0 ==> Behind(r.cursor, slot, |r.ts|) == count - 1
    ensures r.Scan(c, start, end, slot, count) == QueueRead(LastRows(q, count), c, start, end)
    decreases count
  {
    if count == 0 {
      assert q == [] || q[|q|..] == [];
    } else {
      ScanStep(r, q, c, start, end, slot, count);
      ScanIsQueueRead(r, q, c, start, end, Next(slot, |r.ts|), count - 1);
      LastRowsStep(q, c, start, end, count);
    }
  }

  lemma {:induction false} FirstUsedIsHead(r: Ring, q: seq<Row>, slot: nat, count: nat)
    requires Simulates(r, q) && q != [] && slot < |r.ts|
    requires |q| - 1 <= Behind(r.cursor, slot, |r.ts|)
    requires count > Behind(r.cursor, slot, |r.ts|) - (|q| - 1)
    ensures r.FirstUsed(slot, count) == Some(q[0].time)
    decreases count
  {
    NextSlot(slot, |r.ts|);
    assert SlotHolds(r, q, slot);
    if Behind(r.cursor, slot, |r.ts|) == |q| - 1 {
    } else {
      FirstUsedIsHead(r, q, Next(slot, |r.ts|), count - 1);
    }
  }

  lemma {:induction false} QueueReadIncreases(q: seq<Row>, c: nat, start: nat, end: nat, interval: nat)
    requires interval > 0 && Consecutive(q, interval)
    ensures StrictlyIncreasing(QueueRead(q, c, start, end))
    ensures forall p | p in QueueRead(q, c, start, end) :: q != [] && q[0].time <= p.0
  {
    if q != [] {
      QueueReadIncreases(q[1..], c, start, end, interval);
    }
  }

  /**
   After a gap-free run of any length, a read of a column that was written in
   every retained bucket returns exactly what the bounded log holds in the
   range, in strictly increasing time order, and the oldest and newest
   timestamps are those of its first and last row.
   */
  lemma GapFreeRunIsBoundedLog(r: Ring, log: seq<Batch>, c: nat, start: nat, end: nat)
    requires IsBlank(r) && WritableRun(log, |r.vals|) && GapFree(log, r.interval)
    requires c < |r.vals| && ColumnInEveryRow(Replay(log, r.interval, |r.ts|), c)
    ensures var q := Replay(log, r.interval, |r.ts|);
            && Run(r, log).Read(c, start, end) == QueueRead(q, c, start, end)
            && StrictlyIncreasing(QueueRead(q, c, start, end))
  {
    var q, w := Replay(log, r.interval, |r.ts|), Run(r, log);
    GapFreeRunSimulates(r, log);
    QueueReadIncreases(q, c, start, end, r.interval);
    if !w.IsEmpty() {
      NextSlot(w.cursor, |w.ts|);
      ScanIsQueueRead(w, q, c, start, end, w.FirstSlot(), w.VisitCount());
    }
  }

  lemma SimulatedBounds(r: Ring, q: seq<Row>)
    requires Simulates(r, q)
    ensures q == [] ==> r.Oldest() == None && r.Newest() == None
    ensures q != [] ==> r.Oldest() == Some(q[0].time) && r.Newest() == Some(q[|q| - 1].time)
  {
    if q != [] {
      NextSlot(r.cursor, |r.ts|);
      assert SlotHolds(r, q, r.cursor);
      FirstUsedIsHead(r, q, if r.wrapped then Next(r.cursor, |r.ts|) else 0, |r.ts|);
    }
  }

  /** The oldest and newest timestamps of a gap-free run are its smallest and largest retained ones. */
  lemma GapFreeBounds(r: Ring, log: seq<Batch>)
    requires IsBlank(r) && WritableRun(log, |r.vals|) && GapFree(log, r.interval)
    ensures var q, w := Replay(log, r.interval, |r.ts|), Run(r, log);
            && (log == [] ==> w.Oldest() == None && w.Newest() == None)
            && (log != [] ==> q != [] && w.Oldest() == Some(q[0].time) && w.Newest() == Some(q[|q| - 1].time))
            && (forall i | 0 <= i < |q| :: q[0].time <= q[i].time <= q[|q| - 1].time)
  {
    GapFreeRunSimulates(r, log);
    SimulatedBounds(Run(r, log), Replay(log, r.interval, |r.ts|));
  }
}
