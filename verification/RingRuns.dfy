/**
 What holds of a ring after any run of writes, in any time order: every cell is
 the last write that landed in it, and a read returns exactly the written cells.
 */
module RingRuns {
  import opened Floats
  import opened RingModel
  import Cyclic

  // ---------------------------------------------------------------- cells

  /** Batch `i` is the last one that landed in slot `s`. */
  ghost predicate LastInSlot(r: Ring, log: seq<Batch>, s: nat, i: nat)
    requires r.Shaped()
  {
    && i < |log| && r.SlotOf(log[i].time) == s
    && forall j | i < j < |log| :: r.SlotOf(log[j].time) != s
  }

  ghost predicate WritesCell(r: Ring, b: Batch, s: nat, c: nat)
    requires r.Shaped()
  {
    r.SlotOf(b.time) == s && Lookup(b.entries, c).Some?
  }

  /** Batch `i` is the last one that stored a value for column `c` in slot `s`. */
  ghost predicate LastInCell(r: Ring, log: seq<Batch>, s: nat, c: nat, i: nat)
    requires r.Shaped()
  {
    && i < |log| && WritesCell(r, log[i], s, c)
    && forall j | i < j < |log| :: !WritesCell(r, log[j], s, c)
  }

  lemma WrittenCell(r: Ring, b: Batch, s: nat, c: nat)
    requires r.Shaped() && s < |r.ts| && c < |r.vals|
    ensures r.Write(b).ts[s] == if r.SlotOf(b.time) == s then b.time else r.ts[s]
    ensures r.Write(b).vals[c][s] ==
            if WritesCell(r, b, s, c) then Lookup(b.entries, c).value else r.vals[c][s]
  {
  }

  lemma {:induction false} SlotHoldsLastWrite(r: Ring, log: seq<Batch>, s: nat)
    requires r.Shaped() && s < |r.ts|
    ensures forall i: nat | LastInSlot(r, log, s, i) :: Run(r, log).ts[s] == log[i].time
    ensures Run(r, log).ts[s] == r.ts[s] || exists i: nat :: LastInSlot(r, log, s, i)
  {
    if log != [] {
      var init, b := log[..|log| - 1], log[|log| - 1];
      SlotHoldsLastWrite(r, init, s);
      if r.SlotOf(b.time) == s {
        assert LastInSlot(r, log, s, |log| - 1);
      } else {
        forall i: nat | LastInSlot(r, log, s, i) ensures LastInSlot(r, init, s, i) {
        }
        forall i: nat | LastInSlot(r, init, s, i) ensures LastInSlot(r, log, s, i) {
        }
      }
    }
  }

  lemma {:induction false} CellHoldsLastWrite(r: Ring, log: seq<Batch>, s: nat, c: nat)
    requires r.Shaped() && s < |r.ts| && c < |r.vals|
    ensures forall i: nat | LastInCell(r, log, s, c, i) ::
              Run(r, log).vals[c][s] == Lookup(log[i].entries, c).value
    ensures Run(r, log).vals[c][s] == r.vals[c][s] || exists i: nat :: LastInCell(r, log, s, c, i)
  {
    if log != [] {
      var init, b := log[..|log| - 1], log[|log| - 1];
      CellHoldsLastWrite(r, init, s, c);
      WrittenCell(Run(r, init), b, s, c);
      assert WritesCell(Run(r, init), b, s, c) == WritesCell(r, b, s, c);
      if WritesCell(r, b, s, c) {
        assert LastInCell(r, log, s, c, |log| - 1);
      } else {
        forall i: nat | LastInCell(r, log, s, c, i) ensures LastInCell(r, init, s, c, i) {
        }
        forall i: nat | LastInCell(r, init, s, c, i) ensures LastInCell(r, log, s, c, i) {
        }
      }
    }
  }

  // ----------------------------------------------------------- invariant

  /** What every reachable ring satisfies. */
  ghost predicate Consistent(r: Ring) {
    && r.Shaped()
    && (r.ts[r.cursor] == 0 ==> r.cursor == 0 && !r.wrapped)
    && (r.ts[r.cursor] == 0 ==> forall s | 0 <= s < |r.ts| :: r.ts[s] == 0)
    && (!r.wrapped ==> forall s | r.cursor < s < |r.ts| :: r.ts[s] == 0)
    && (forall s | 0 <= s < |r.ts| :: r.ts[s] != 0 ==> r.SlotOf(r.ts[s]) == s)
    && (forall c, s | 0 <= c < |r.vals| && 0 <= s < |r.ts| :: CellOk(r, c, s))
  }

  /** Unwritten slots hold NaN, and infinities are never stored. */
  ghost predicate CellOk(r: Ring, c: nat, s: nat)
    requires r.Shaped() && c < |r.vals| && s < |r.ts|
  {
    (r.ts[s] == 0 ==> r.vals[c][s].NaN?) && !r.vals[c][s].IsInfinite()
  }

  lemma BlankIsConsistent(interval: nat, slots: nat, columns: nat)
    requires interval > 0 && slots > 0
    ensures Consistent(Blank(interval, slots, columns))
  {
  }

  /** The cursor guard always passes: the cursor is the slot of the last write. */
  lemma CursorIsLastWrite(r: Ring, b: Batch)
    requires r.Shaped()
    ensures r.Write(b).cursor == r.SlotOf(b.time)
    ensures r.Write(b).wrapped == (r.wrapped || r.SlotOf(b.time) < r.cursor)
  {
  }

  lemma LookupIsAnEntry(entries: seq<(nat, Float)>, c: nat)
    ensures Lookup(entries, c).Some? ==> (c, Lookup(entries, c).value) in entries
  {
  }

  lemma WriteKeepsConsistent(r: Ring, b: Batch)
    requires Consistent(r) && Acceptable(b)
    ensures Consistent(r.Write(b))
  {
    var w := r.Write(b);
    CursorIsLastWrite(r, b);
    forall c, s | 0 <= c < |w.vals| && 0 <= s < |w.ts| ensures CellOk(w, c, s) {
      assert CellOk(r, c, s);
      WrittenCell(r, b, s, c);
      LookupIsAnEntry(b.entries, c);
    }
  }

  lemma {:induction false} RunKeepsConsistent(r: Ring, log: seq<Batch>)
    requires Consistent(r) && WritableRun(log, |r.vals|)
    ensures Consistent(Run(r, log))
  {
    if log != [] {
      RunKeepsConsistent(r, log[..|log| - 1]);
      WriteKeepsConsistent(Run(r, log[..|log| - 1]), log[|log| - 1]);
    }
  }

  // ------------------------------------------------------ read completeness

  /** How many steps forward from `from` to `s` on a ring of `n` slots. */
  function Steps(from: nat, s: nat, n: nat): (d: nat)
    requires from < n && s < n
    ensures d < n
  {
    if s >= from then s - from else s - from + n
  }

  function Next(slot: nat, n: nat): (s: nat)
    requires slot < n
    ensures s < n
  {
    if slot + 1 == n then 0 else slot + 1
  }

  lemma NextSlot(slot: nat, n: nat)
    requires slot < n
    ensures (slot + 1) % n == Next(slot, n)
  {
    Cyclic.ModSmall(slot, n);
    Cyclic.ModSuccessor(slot, n);
  }

  /** The slots a scan takes its points from, in the order it visits them. */
  ghost function ScanSlots(r: Ring, c: nat, start: nat, end: nat, slot: nat, count: nat): seq<nat>
    requires r.Shaped() && c < |r.vals| && slot < |r.ts|
    decreases count
  {
    if count == 0 then []
    else
      var rest := ScanSlots(r, c, start, end, Next(slot, |r.ts|), count - 1);
      if r.Qualifies(c, start, end, slot) then [slot] + rest else rest
  }

  ghost predicate Visited(r: Ring, slot: nat, count: nat, s: nat)
    requires r.Shaped() && slot < |r.ts|
  {
    s < |r.ts| && Steps(slot, s, |r.ts|) < count
  }

  ghost predicate VisitOrder(r: Ring, slot: nat, slots: seq<nat>)
    requires r.Shaped() && slot < |r.ts|
  {
    && (forall i | 0 <= i < |slots| :: slots[i] < |r.ts|)
    && forall i, j | 0 <= i < j < |slots| ::
         Steps(slot, slots[i], |r.ts|) < Steps(slot, slots[j], |r.ts|)
  }

  ghost predicate PointsOf(r: Ring, c: nat, slots: seq<nat>, points: seq<Point>)
    requires r.Shaped() && c < |r.vals|
  {
    && |points| == |slots|
    && forall i | 0 <= i < |slots| :: slots[i] < |r.ts| && points[i] == r.Cell(c, slots[i])
  }

  lemma StepsFromNext(slot: nat, s: nat, n: nat)
    requires slot < n && s < n
    ensures Steps(slot, s, n) == if s == slot then 0 else Steps(Next(slot, n), s, n) + 1
    ensures s == slot ==> Steps(Next(slot, n), s, n) == n - 1
  {
  }

  lemma {:induction false} ScanFindsQualifying(r: Ring, c: nat, start: nat, end: nat, slot: nat, count: nat, s: nat)
    requires r.Shaped() && c < |r.vals| && slot < |r.ts| && count <= |r.ts|
    ensures s in ScanSlots(r, c, start, end, slot, count) <==>
            Visited(r, slot, count, s) && r.Qualifies(c, start, end, s)
    decreases count
  {
    if count != 0 {
      ScanFindsQualifying(r, c, start, end, Next(slot, |r.ts|), count - 1, s);
      if s < |r.ts| {
        StepsFromNext(slot, s, |r.ts|);
      }
    }
  }

  lemma {:induction false} ScanKeepsVisitOrder(r: Ring, c: nat, start: nat, end: nat, slot: nat, count: nat)
    requires r.Shaped() && c < |r.vals| && slot < |r.ts| && count <= |r.ts|
    ensures VisitOrder(r, slot, ScanSlots(r, c, start, end, slot, count))
    decreases count
  {
    if count != 0 {
      var n, next := |r.ts|, Next(slot, |r.ts|);
      var rest := ScanSlots(r, c, start, end, next, count - 1);
      ScanKeepsVisitOrder(r, c, start, end, next, count - 1);
      forall i | 0 <= i < |rest| ensures Steps(slot, rest[i], n) == Steps(next, rest[i], n) + 1 {
        ScanFindsQualifying(r, c, start, end, next, count - 1, rest[i]);
        StepsFromNext(slot, rest[i], n);
      }
    }
  }

  lemma {:induction false} ScanYieldsCells(r: Ring, c: nat, start: nat, end: nat, slot: nat, count: nat)
    requires r.Shaped() && c < |r.vals| && slot < |r.ts|
    ensures PointsOf(r, c, ScanSlots(r, c, start, end, slot, count), r.Scan(c, start, end, slot, count))
    decreases count
  {
    if count != 0 {
      NextSlot(slot, |r.ts|);
      ScanYieldsCells(r, c, start, end, Next(slot, |r.ts|), count - 1);
    }
  }

  /** The slots a whole read takes its points from. */
  ghost function ReadSlots(r: Ring, c: nat, start: nat, end: nat): seq<nat>
    requires r.Shaped() && c < |r.vals|
  {
    ScanSlots(r, c, start, end, r.FirstSlot(), r.VisitCount())
  }

  lemma QualifyingIsVisited(r: Ring, c: nat, start: nat, end: nat, s: nat)
    requires Consistent(r) && c < |r.vals| && s < |r.ts| && r.Qualifies(c, start, end, s)
    ensures r.ts[s] != 0 && Visited(r, r.FirstSlot(), r.VisitCount(), s)
  {
    assert CellOk(r, c, s);
    NextSlot(r.cursor, |r.ts|);
  }

  /**
   In every reachable ring a read visits each written slot exactly once and
   returns exactly the cells in range that are not NaN; an unwritten slot never
   leaks, not even for a range that starts at 0.
   */
  lemma ReadIsComplete(r: Ring, c: nat, start: nat, end: nat)
    requires Consistent(r) && c < |r.vals|
    ensures var slots := ReadSlots(r, c, start, end);
            && PointsOf(r, c, slots, r.Read(c, start, end))
            && (forall i, j | 0 <= i < j < |slots| :: slots[i] != slots[j])
            && (forall s: nat :: s in slots <==> s < |r.ts| && r.Qualifies(c, start, end, s))
            && (forall s | s in slots :: r.ts[s] != 0)
  {
    var slots := ReadSlots(r, c, start, end);
    var first, count := r.FirstSlot(), r.VisitCount();
    ScanYieldsCells(r, c, start, end, first, count);
    ScanKeepsVisitOrder(r, c, start, end, first, count);
    forall s: nat ensures s in slots <==> s < |r.ts| && r.Qualifies(c, start, end, s)
    {
      ScanFindsQualifying(r, c, start, end, first, count, s);
      if s < |r.ts| && r.Qualifies(c, start, end, s) {
        QualifyingIsVisited(r, c, start, end, s);
      }
    }
    forall s | s in slots ensures r.ts[s] != 0 {
      QualifyingIsVisited(r, c, start, end, s);
    }
  }

  lemma {:induction false} ReadPoints(r: Ring, c: nat, start: nat, end: nat, p: Point)
    requires Consistent(r) && c < |r.vals|
    ensures p in r.Read(c, start, end) <==>
            exists s: nat :: 0 <= s < |r.ts| && r.Qualifies(c, start, end, s) && p == r.Cell(c, s)
  {
    ReadIsComplete(r, c, start, end);
    var slots, points := ReadSlots(r, c, start, end), r.Read(c, start, end);
    if p in points {
      var i :| 0 <= i < |points| && points[i] == p;
      assert slots[i] in slots;
    }
    if exists s: nat :: 0 <= s < |r.ts| && r.Qualifies(c, start, end, s) && p == r.Cell(c, s) {
      var s: nat :| 0 <= s < |r.ts| && r.Qualifies(c, start, end, s) && p == r.Cell(c, s);
      var i :| 0 <= i < |slots| && slots[i] == s;
      assert points[i] == p;
    }
  }

  /** The point a slot shows for a column: the slot's last timestamp with the cell's last value. */
  ghost predicate ShownBy(r: Ring, log: seq<Batch>, c: nat, i: nat, j: nat, p: Point)
    requires r.Shaped()
  {
    && i < |log| && j < |log|
    && LastInSlot(r, log, r.SlotOf(log[i].time), i)
    && LastInCell(r, log, r.SlotOf(log[i].time), c, j)
    && p == (log[i].time, Lookup(log[j].entries, c).value)
  }

  /**
   Over any run of accepted writes, in any time order, a read returns exactly the
   points made of the time of the last batch in a slot and of the value last
   stored there for the column, if that time lies in the range and the value is
   not NaN.
   */
  lemma ReadReturnsLastWrites(blank: Ring, log: seq<Batch>, c: nat, start: nat, end: nat, p: Point)
    requires blank.Shaped() && blank == Blank(blank.interval, |blank.ts|, |blank.vals|)
    requires WritableRun(log, |blank.vals|) && c < |blank.vals|
    ensures p in Run(blank, log).Read(c, start, end) <==>
            start <= p.0 < end && !p.1.NaN? && exists i: nat, j: nat :: ShownBy(blank, log, c, i, j, p)
  {
    var r := Run(blank, log);
    BlankIsConsistent(blank.interval, |blank.ts|, |blank.vals|);
    RunKeepsConsistent(blank, log);
    ReadPoints(r, c, start, end, p);
    if p in r.Read(c, start, end) {
      var s: nat :| 0 <= s < |r.ts| && r.Qualifies(c, start, end, s) && p == r.Cell(c, s);
      assert CellOk(r, c, s);
      SlotHoldsLastWrite(blank, log, s);
      CellHoldsLastWrite(blank, log, s, c);
      var i: nat :| LastInSlot(blank, log, s, i);
      var j: nat :| LastInCell(blank, log, s, c, j);
      assert ShownBy(blank, log, c, i, j, p);
    }
    if exists i: nat, j: nat :: ShownBy(blank, log, c, i, j, p) {
      var i: nat, j: nat :| ShownBy(blank, log, c, i, j, p);
      var s := blank.SlotOf(log[i].time);
      SlotHoldsLastWrite(blank, log, s);
      CellHoldsLastWrite(blank, log, s, c);
      assert p == r.Cell(c, s);
    }
  }
}
