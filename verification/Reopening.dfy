/**
 Rebuilding a ring from its stored cells. The wrap flag is not stored; it is
 guessed from the slot after the cursor. These lemmas say exactly when the guess
 cannot be noticed, and that it then stays unnoticeable under any later writes.
 */
module Reopening {
  import opened Wrappers
  import opened Floats
  import opened RingModel
  import opened RingRuns
  import opened RingOrder
  import opened ColumnOrder
  import opened DrainReads
  import opened BoundedLog

  /** What a caller can see of a ring. */
  ghost predicate SameView(x: Ring, y: Ring)
    requires x.Shaped() && y.Shaped()
  {
    && |x.vals| == |y.vals|
    && x.Oldest() == y.Oldest() && x.Newest() == y.Newest()
    && forall c: nat, start, end | c < |x.vals| :: x.Read(c, start, end) == y.Read(c, start, end)
  }

  /** Same stored cells and cursor; only the in-memory wrap flag may differ. */
  ghost predicate SameCells(x: Ring, y: Ring) {
    x == y.(wrapped := x.wrapped)
  }

  /** Some slot above the cursor still holds data. */
  ghost predicate DataAboveCursor(r: Ring)
    requires r.Shaped()
  {
    exists s :: r.cursor < s < |r.ts| && r.ts[s] != 0
  }

  /** The check a caller can make on the stored cells before reopening. */
  ghost predicate ReopensFaithfully(r: Ring)
    requires r.Shaped()
  {
    DataAboveCursor(r) ==> r.ts[r.cursor + 1] != 0
  }

  lemma ReopenedFlag(r: Ring)
    requires Consistent(r) && !r.IsEmpty()
    ensures r.Reopened().wrapped ==>
              r.ts[Next(r.cursor, |r.ts|)] != 0 && (r.wrapped || r.cursor == |r.ts| - 1)
    ensures r.cursor + 1 < |r.ts| && r.ts[r.cursor + 1] != 0 ==> r.Reopened().wrapped
  {
    NextSlot(r.cursor, |r.ts|);
  }

  lemma EmptyReopens(r: Ring)
    requires Consistent(r) && r.IsEmpty()
    ensures r.Reopened() == r
  {
  }

  lemma {:induction false} ScanCellsOnly(x: Ring, y: Ring, c: nat, start: nat, end: nat, slot: nat, count: nat)
    requires x.Shaped() && y.Shaped() && SameCells(x, y) && c < |x.vals| && slot < |x.ts|
    ensures x.Scan(c, start, end, slot, count) == y.Scan(c, start, end, slot, count)
    decreases count
  {
    if count != 0 {
      ScanCellsOnly(x, y, c, start, end, (slot + 1) % |x.ts|, count - 1);
    }
  }

  lemma {:induction false} FirstUsedCellsOnly(x: Ring, y: Ring, slot: nat, count: nat)
    requires x.Shaped() && y.Shaped() && SameCells(x, y) && slot < |x.ts|
    ensures x.FirstUsed(slot, count) == y.FirstUsed(slot, count)
    decreases count
  {
    if count != 0 {
      FirstUsedCellsOnly(x, y, (slot + 1) % |x.ts|, count - 1);
    }
  }

  /** Some slot above the cursor holds a value of column `c`. */
  ghost predicate ValueAboveCursor(r: Ring, c: nat)
    requires r.Shaped() && c < |r.vals|
  {
    exists s :: r.cursor < s < |r.ts| && !r.vals[c][s].NaN?
  }

  /** Slots above the cursor without a value make no difference to a scan that starts there. */
  lemma {:induction false} ScanFromAbove(r: Ring, c: nat, start: nat, end: nat, slot: nat)
    requires r.Shaped() && c < |r.vals| && !ValueAboveCursor(r, c) && r.cursor < slot < |r.ts|
    ensures r.Scan(c, start, end, slot, |r.ts| - slot + r.cursor + 1)
            == r.Scan(c, start, end, 0, r.cursor + 1)
    decreases |r.ts| - slot
  {
    NextSlot(slot, |r.ts|);
    if slot + 1 < |r.ts| {
      ScanFromAbove(r, c, start, end, slot + 1);
    }
  }

  lemma {:induction false} FirstUsedFromAbove(r: Ring, slot: nat, count: nat)
    requires Consistent(r) && !r.IsEmpty() && !DataAboveCursor(r) && r.cursor < slot < |r.ts|
    requires count >= |r.ts| - slot
    ensures r.FirstUsed(slot, count) == r.FirstUsed(0, count - (|r.ts| - slot))
    decreases |r.ts| - slot
  {
    NextSlot(slot, |r.ts|);
    if slot + 1 < |r.ts| {
      FirstUsedFromAbove(r, slot + 1, count - 1);
    }
  }

  /** Once a used slot is within reach, how much further the search could go does not matter. */
  lemma {:induction false} FirstUsedReaches(r: Ring, slot: nat, s: nat, count: nat, count': nat)
    requires r.Shaped() && slot <= s < |r.ts| && r.ts[s] != 0
    requires count > s - slot && count' > s - slot
    ensures r.FirstUsed(slot, count) == r.FirstUsed(slot, count')
    ensures exists u :: slot <= u <= s && r.ts[u] != 0 && r.FirstUsed(slot, count) == Some(r.ts[u])
    decreases s - slot
  {
    NextSlot(slot, |r.ts|);
    if r.ts[slot] == 0 {
      FirstUsedReaches(r, slot + 1, s, count - 1, count' - 1);
    }
  }

  lemma FlagIsUnread(x: Ring, y: Ring, c: nat, start: nat, end: nat)
    requires x.Shaped() && y.Shaped() && SameCells(x, y) && x.wrapped && !y.wrapped
    requires !x.IsEmpty() && c < |x.vals| && !ValueAboveCursor(x, c)
    ensures x.Read(c, start, end) == y.Read(c, start, end)
  {
    NextSlot(x.cursor, |x.ts|);
    ScanCellsOnly(x, y, c, start, end, 0, x.cursor + 1);
    if x.cursor + 1 < |x.ts| {
      ScanFromAbove(x, c, start, end, x.cursor + 1);
    }
  }

  /** With nothing above the cursor, the wrap flag cannot be seen. */
  lemma FlagIsInvisible(x: Ring, y: Ring)
    requires Consistent(x) && Consistent(y) && SameCells(x, y)
    requires x.wrapped && !y.wrapped
    ensures SameView(x, y)
  {
    assert !DataAboveCursor(x);
    var n := |x.ts|;
    NextSlot(x.cursor, n);
    forall c: nat, start, end | c < |x.vals| ensures x.Read(c, start, end) == y.Read(c, start, end) {
      forall s | x.cursor < s < n ensures x.vals[c][s].NaN? {
        assert CellOk(x, c, s);
      }
      FlagIsUnread(x, y, c, start, end);
    }
    FirstUsedCellsOnly(x, y, 0, n);
    if x.cursor + 1 < n {
      FirstUsedFromAbove(x, x.cursor + 1, n);
      FirstUsedReaches(x, 0, x.cursor, n, x.cursor + 1);
    }
  }

  lemma SameCellsSameView(x: Ring, y: Ring)
    requires Consistent(x) && Consistent(y) && SameCells(x, y)
    ensures SameView(x, y)
  {
    if x.wrapped == y.wrapped {
      assert x == y;
    } else if x.wrapped {
      FlagIsInvisible(x, y);
    } else {
      FlagIsInvisible(y, x);
    }
  }

  lemma FaithfulReopenIsConsistent(r: Ring)
    requires Consistent(r) && ReopensFaithfully(r)
    ensures Consistent(r.Reopened())
  {
    var o := r.Reopened();
    if r.IsEmpty() {
      EmptyReopens(r);
    } else {
      ReopenedFlag(r);
      forall c, s | 0 <= c < |o.vals| && 0 <= s < |o.ts| ensures CellOk(o, c, s) {
        assert CellOk(r, c, s);
      }
      forall s | 0 <= s < |o.ts| && o.ts[s] != 0 ensures o.SlotOf(o.ts[s]) == s {
        assert r.SlotOf(r.ts[s]) == s;
      }
    }
  }

  lemma UnfaithfulReopenShows(r: Ring)
    requires Consistent(r) && !ReopensFaithfully(r)
    ensures !r.Reopened().wrapped && r.wrapped
    ensures r.Oldest() != r.Reopened().Oldest()
  {
    var o, n := r.Reopened(), |r.ts|;
    var s :| r.cursor < s < n && r.ts[s] != 0;
    NextSlot(r.cursor, n);
    FirstUsedReaches(r, r.cursor + 1, s, n, n);
    var u :| r.cursor + 1 <= u <= s && r.ts[u] != 0 && r.Oldest() == Some(r.ts[u]);
    FirstUsedReaches(o, 0, r.cursor, n, n);
    var v :| 0 <= v <= r.cursor && o.ts[v] != 0 && o.Oldest() == Some(o.ts[v]);
    assert r.SlotOf(r.ts[u]) == u && r.SlotOf(r.ts[v]) == v;
  }

  /**
   Reopening a reachable ring cannot be noticed by any read, nor by the oldest
   or newest timestamp, exactly when no data lies above the cursor or the slot
   after the cursor is written.
   */
  lemma ReopenIsInvisibleIff(r: Ring)
    requires Consistent(r)
    ensures SameView(r, r.Reopened()) <==> ReopensFaithfully(r)
  {
    if ReopensFaithfully(r) {
      FaithfulReopenIsConsistent(r);
      SameCellsSameView(r, r.Reopened());
    } else {
      UnfaithfulReopenShows(r);
    }
  }

  ghost predicate SameReads(x: Ring, y: Ring, c: nat)
    requires x.Shaped() && y.Shaped() && c < |x.vals| && c < |y.vals|
  {
    forall start: nat, end: nat :: x.Read(c, start, end) == y.Read(c, start, end)
  }

  /** The value above the cursor is read before an unfaithful reopen and not after it. */
  lemma UnfaithfulReopenHides(r: Ring, c: nat)
    requires Consistent(r) && c < |r.vals| && !ReopensFaithfully(r) && ValueAboveCursor(r, c)
    ensures !SameReads(r, r.Reopened(), c)
  {
    UnfaithfulReopenShows(r);
    var s: nat :| r.cursor < s < |r.ts| && !r.vals[c][s].NaN?;
    assert CellOk(r, c, s);
    assert VisibleAt(r, c, r.ts[s], s);
    ConsistentIsVisible(r, c, r.ts[s]);
    VisibleReadIff(r, c, 0, r.ts[s] + 1, r.ts[s]);
    ReopenKeepsPlaced(r);
    VisibleReadIff(r.Reopened(), c, 0, r.ts[s] + 1, r.ts[s]);
  }

  /**
   The reads of one column stay the same over a reopen exactly when the reopen is
   faithful or no slot above the cursor has a value of the column.
   */
  lemma ReopenKeepsReadsIff(r: Ring, c: nat)
    requires Consistent(r) && c < |r.vals|
    ensures SameReads(r, r.Reopened(), c) <==> ReopensFaithfully(r) || !ValueAboveCursor(r, c)
  {
    if ReopensFaithfully(r) {
      ReopenIsInvisibleIff(r);
    } else if ValueAboveCursor(r, c) {
      UnfaithfulReopenHides(r, c);
    } else {
      UnfaithfulReopenShows(r);
      forall start: nat, end: nat ensures r.Read(c, start, end) == r.Reopened().Read(c, start, end) {
        FlagIsUnread(r, r.Reopened(), c, start, end);
      }
    }
  }

  /** After samples at 3 and 5 the ring has jumped over slot 0, and a reopen loses sight of 3. */
  lemma ReopenCounterexample()
    ensures var r := Run(Blank(1, 4, 1), [Sample(3), Sample(5)]);
            && r.Read(0, 0, 100) == [(3, Finite(3.0)), (5, Finite(5.0))]
            && r.Reopened().Read(0, 0, 100) == [(5, Finite(5.0))]
  {
    var r0, log := Blank(1, 4, 1), [Sample(3), Sample(5)];
    assert Sample(3).entries[..0] == [] && Sample(5).entries[..0] == [];
    assert log[..1] == [Sample(3)] && log[..1][..0] == [];
    var r1 := r0.Write(Sample(3));
    assert r1.ts == [0, 0, 0, 3] && r1.vals[0] == [NaN, NaN, NaN, Finite(3.0)] && r1.cursor == 3;
    var r2 := r1.Write(Sample(5));
    assert r2.vals[0] == [NaN, Finite(5.0), NaN, Finite(3.0)];
    assert Run(r0, log) == r2;
    ReopenedReads(r2);
  }

  lemma ReopenedReads(r: Ring)
    requires r == Ring(1, [0, 5, 0, 3], [[NaN, Finite(5.0), NaN, Finite(3.0)]], 1, true)
    ensures r.Read(0, 0, 100) == [(3, Finite(3.0)), (5, Finite(5.0))]
    ensures r.Reopened().Read(0, 0, 100) == [(5, Finite(5.0))]
  {
    var o := r.Reopened();
    assert r.Scan(0, 0, 100, 1, 1) == [(5, Finite(5.0))];
    assert r.Scan(0, 0, 100, 0, 2) == [(5, Finite(5.0))];
    assert r.Scan(0, 0, 100, 3, 3) == [(3, Finite(3.0)), (5, Finite(5.0))];
    assert r.Scan(0, 0, 100, 2, 4) == [(3, Finite(3.0)), (5, Finite(5.0))];
    assert o.Scan(0, 0, 100, 1, 1) == [(5, Finite(5.0))];
    assert o.Scan(0, 0, 100, 0, 2) == [(5, Finite(5.0))];
  }

  lemma {:induction false} SameCellsAfterRun(x: Ring, y: Ring, log: seq<Batch>)
    requires Consistent(x) && Consistent(y) && SameCells(x, y)
    ensures SameCells(Run(x, log), Run(y, log))
  {
    if log != [] {
      var init, b := log[..|log| - 1], log[|log| - 1];
      SameCellsAfterRun(x, y, init);
      CursorIsLastWrite(Run(x, init), b);
      CursorIsLastWrite(Run(y, init), b);
    }
  }

  /** A faithful reopen stays invisible: no later run of writes brings out a difference. */
  lemma ReopenStaysInvisible(r: Ring, log: seq<Batch>)
    requires Consistent(r) && ReopensFaithfully(r) && WritableRun(log, |r.vals|)
    ensures SameView(Run(r, log), Run(r.Reopened(), log))
  {
    FaithfulReopenIsConsistent(r);
    SameCellsAfterRun(r, r.Reopened(), log);
    RunKeepsConsistent(r, log);
    RunKeepsConsistent(r.Reopened(), log);
    SameCellsSameView(Run(r, log), Run(r.Reopened(), log));
  }

  /** A gap-free run that never wrapped, or that filled the ring, reopens faithfully. */
  lemma GapFreeReopensFaithfully(r: Ring, log: seq<Batch>)
    requires IsBlank(r) && WritableRun(log, |r.vals|) && GapFree(log, r.interval)
    requires Run(r, log).wrapped ==> |Replay(log, r.interval, |r.ts|)| == |r.ts|
    ensures ReopensFaithfully(Run(r, log))
  {
    var w, q := Run(r, log), Replay(log, r.interval, |r.ts|);
    GapFreeRunSimulates(r, log);
    if DataAboveCursor(w) {
      assert SlotHolds(w, q, w.cursor + 1);
    }
  }
}
