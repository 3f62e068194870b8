/**
 What one drain returns. The first half holds for every ring that writes and
 reopens can produce, whatever order its times are in; the second half says what
 is left of the conditions when the ring is chronological.
 */
module DrainReads {
  import opened Wrappers
  import opened RingModel
  import opened RingRuns
  import opened RingOrder
  import opened ColumnOrder
  import opened Exports

  /** The ring holds a sample of column `c` at time `t`. */
  ghost predicate HeldIn(r: Ring, c: nat, t: nat)
    requires r.Shaped()
  {
    c < |r.vals| && exists s: nat :: HeldAt(r, c, t, s)
  }

  ghost predicate HeldAt(r: Ring, c: nat, t: nat, s: nat)
    requires r.Shaped() && c < |r.vals|
  {
    Used(r, s) && r.ts[s] == t && !r.vals[c][s].NaN?
  }

  ghost predicate Shows(points: seq<Point>, t: nat) {
    exists i :: 0 <= i < |points| && points[i].0 == t
  }

  // -------------------------------------------------------------- any ring

  /** The sample is held in a slot that reads come by. */
  ghost predicate VisibleIn(r: Ring, c: nat, t: nat)
    requires r.Shaped()
  {
    c < |r.vals| && exists s: nat :: VisibleAt(r, c, t, s)
  }

  ghost predicate VisibleAt(r: Ring, c: nat, t: nat, s: nat)
    requires r.Shaped() && c < |r.vals|
  {
    HeldAt(r, c, t, s) && Visible(r, s)
  }

  /** A drain from cursor `last` asks for this time. */
  ghost predicate InWindow(r: Ring, last: Option<nat>, t: nat)
    requires r.Shaped()
  {
    && r.Oldest().Some? && r.Newest().Some? && t <= r.Newest().value
    && match last case Some(x) => x < t case None => r.Oldest().value <= t
  }

  /** The next drain of the column returns a sample at `t`. */
  ghost predicate Due(r: Ring, c: nat, last: Option<nat>, t: nat)
    requires r.Shaped()
  {
    VisibleIn(r, c, t) && InWindow(r, last, t)
  }

  lemma VisibleReadIff(r: Ring, c: nat, start: nat, end: nat, t: nat)
    requires Placed(r) && c < |r.vals|
    ensures Shows(r.Read(c, start, end), t) <==> start <= t < end && VisibleIn(r, c, t)
  {
    var slots, points := ReadSlots(r, c, start, end), r.Read(c, start, end);
    var first, count := r.FirstSlot(), r.VisitCount();
    ScanYieldsCells(r, c, start, end, first, count);
    if Shows(points, t) {
      var i :| 0 <= i < |points| && points[i].0 == t;
      ScanFindsQualifying(r, c, start, end, first, count, slots[i]);
      VisibleIsVisited(r, slots[i]);
      assert CellOk(r, c, slots[i]);
      assert VisibleAt(r, c, t, slots[i]);
    }
    if start <= t < end && VisibleIn(r, c, t) {
      var s: nat :| VisibleAt(r, c, t, s);
      VisibleIsVisited(r, s);
      ScanFindsQualifying(r, c, start, end, first, count, s);
      var i :| 0 <= i < |slots| && slots[i] == s;
      assert points[i].0 == t;
    }
  }

  /**
   What a drain returns, in any ring that writes and reopens can produce: the
   visible samples after the cursor and not after the newest write.
   */
  lemma DrainShowsDue(r: Ring, c: nat, last: Option<nat>, t: nat)
    requires Placed(r) && c < |r.vals|
    ensures Shows(DrainPoints(r, c, last), t) <==> Due(r, c, last, t)
  {
    if r.Oldest().Some? && r.Newest().Some? {
      var start := match last case Some(x) => x + 1 case None => r.Oldest().value;
      VisibleReadIff(r, c, start, r.Newest().value + 1, t);
    }
  }

  /** A visible slot has this time and value. */
  ghost predicate VisiblePoint(r: Ring, c: nat, p: Point)
    requires r.Shaped() && c < |r.vals|
  {
    exists s: nat :: VisibleAt(r, c, p.0, s) && r.vals[c][s] == p.1
  }

  /** The same with values: a drain returns the due samples as they stand in their slots. */
  lemma DrainReturnsDue(r: Ring, c: nat, last: Option<nat>, p: Point)
    requires Placed(r) && c < |r.vals|
    ensures p in DrainPoints(r, c, last) <==> VisiblePoint(r, c, p) && InWindow(r, last, p.0)
  {
    if r.Oldest().Some? && r.Newest().Some? {
      var start := match last case Some(x) => x + 1 case None => r.Oldest().value;
      VisiblePointsRead(r, c, start, r.Newest().value + 1, p);
    }
  }

  lemma VisiblePointsRead(r: Ring, c: nat, start: nat, end: nat, p: Point)
    requires Placed(r) && c < |r.vals|
    ensures p in r.Read(c, start, end) <==> start <= p.0 < end && VisiblePoint(r, c, p)
  {
    var slots, points := ReadSlots(r, c, start, end), r.Read(c, start, end);
    var first, count := r.FirstSlot(), r.VisitCount();
    ScanYieldsCells(r, c, start, end, first, count);
    if p in points {
      var i :| 0 <= i < |points| && points[i] == p;
      ScanFindsQualifying(r, c, start, end, first, count, slots[i]);
      VisibleIsVisited(r, slots[i]);
      assert CellOk(r, c, slots[i]);
      assert VisibleAt(r, c, p.0, slots[i]);
    }
    if start <= p.0 < end && VisiblePoint(r, c, p) {
      var s: nat :| VisibleAt(r, c, p.0, s) && r.vals[c][s] == p.1;
      VisibleIsVisited(r, s);
      ScanFindsQualifying(r, c, start, end, first, count, s);
      var i :| 0 <= i < |slots| && slots[i] == s;
      assert points[i] == p;
    }
  }

  ghost predicate DistinctTimes(points: seq<Point>) {
    forall i, j | 0 <= i < j < |points| :: points[i].0 != points[j].0
  }

  /** One drain never returns two samples of the same time. */
  lemma DrainTimesDiffer(r: Ring, c: nat, last: Option<nat>)
    requires Placed(r) && c < |r.vals|
    ensures DistinctTimes(DrainPoints(r, c, last))
  {
    var points := DrainPoints(r, c, last);
    if points != [] {
      var start := match last case Some(x) => x + 1 case None => r.Oldest().value;
      ReadTimesDiffer(r, c, start, r.Newest().value + 1);
    }
  }

  lemma ReadTimesDiffer(r: Ring, c: nat, start: nat, end: nat)
    requires Placed(r) && c < |r.vals|
    ensures DistinctTimes(r.Read(c, start, end))
  {
    var slots, points := ReadSlots(r, c, start, end), r.Read(c, start, end);
    ScanYieldsCells(r, c, start, end, r.FirstSlot(), r.VisitCount());
    ScanKeepsVisitOrder(r, c, start, end, r.FirstSlot(), r.VisitCount());
    forall i, j | 0 <= i < j < |points| ensures points[i].0 != points[j].0 {
      ScanFindsQualifying(r, c, start, end, r.FirstSlot(), r.VisitCount(), slots[i]);
      ScanFindsQualifying(r, c, start, end, r.FirstSlot(), r.VisitCount(), slots[j]);
      assert CellOk(r, c, slots[i]) && CellOk(r, c, slots[j]);
      assert r.SlotOf(r.ts[slots[i]]) == slots[i] && r.SlotOf(r.ts[slots[j]]) == slots[j];
    }
  }

  /** Whatever is drained lies after the cursor, so the cursor never goes back. */
  lemma DrainGoesForward(r: Ring, c: nat, last: Option<nat>, i: nat)
    requires Placed(r) && c < |r.vals| && i < |DrainPoints(r, c, last)| && last.Some?
    ensures last.value < DrainPoints(r, c, last)[i].0
  {
    var points := DrainPoints(r, c, last);
    DrainShowsDue(r, c, last, points[i].0);
    assert Shows(points, points[i].0);
  }

  /** A drain of a column whose samples are in order yields increasing timestamps. */
  lemma DrainIncreases(r: Ring, c: nat, last: Option<nat>)
    requires Placed(r) && c < |r.vals| && OrderedIn(r, c)
    ensures StrictlyIncreasing(DrainPoints(r, c, last))
  {
    var points := DrainPoints(r, c, last);
    if points != [] {
      var start := match last case Some(x) => x + 1 case None => r.Oldest().value;
      OrderedReadIncreases(r, c, start, r.Newest().value + 1);
    }
  }

  /** Without reopens every written slot is visible. */
  lemma ConsistentIsVisible(r: Ring, c: nat, t: nat)
    requires Consistent(r)
    ensures Placed(r) && (VisibleIn(r, c, t) <==> HeldIn(r, c, t))
  {
    if HeldIn(r, c, t) {
      var s: nat :| HeldAt(r, c, t, s);
      assert VisibleAt(r, c, t, s);
    }
  }

  // ---------------------------------------------------- chronological rings

  ghost predicate RingOk(r: Ring) {
    Consistent(r) && Ordered(r)
  }

  /** The search for the first written slot finds the one it visits first. */
  lemma {:induction false} FirstUsedIsFirst(r: Ring, slot: nat, count: nat, s: nat) returns (s0: nat)
    requires r.Shaped() && slot < |r.ts| && count <= |r.ts| && Visited(r, slot, count, s) && r.ts[s] != 0
    ensures Used(r, s0) && r.FirstUsed(slot, count) == Some(r.ts[s0])
    ensures Steps(slot, s0, |r.ts|) <= Steps(slot, s, |r.ts|)
    decreases count
  {
    if r.ts[slot] != 0 {
      s0 := slot;
    } else {
      var n := |r.ts|;
      NextSlot(slot, n);
      StepsFromNext(slot, s, n);
      s0 := FirstUsedIsFirst(r, Next(slot, n), count - 1, s);
      StepsFromNext(slot, s0, n);
    }
  }

  /** In a chronological ring the oldest timestamp is the smallest and the newest the largest. */
  lemma BoundsOfOrdered(r: Ring, s: nat)
    requires RingOk(r) && Used(r, s)
    ensures r.Oldest().Some? && r.Newest().Some? && r.Oldest().value <= r.ts[s] <= r.Newest().value
  {
    NextSlot(r.cursor, |r.ts|);
    var s0 := FirstUsedIsFirst(r, r.FirstSlot(), |r.ts|, s);
    VisitFollowsRank(r, s0, s);
    VisitFollowsRank(r, s, s0);
    if s0 != s {
      DistinctRanks(r, s0, s);
    }
    CursorIsNewest(r, s);
  }

  predicate After(last: Option<nat>, t: nat) {
    last.Some? ==> last.value < t
  }

  /** In a chronological ring what is due is what is held after the cursor. */
  lemma DueIsHeldAfter(r: Ring, c: nat, last: Option<nat>, t: nat)
    requires RingOk(r)
    ensures Due(r, c, last, t) <==> HeldIn(r, c, t) && After(last, t)
  {
    ConsistentIsVisible(r, c, t);
    if HeldIn(r, c, t) {
      var s: nat :| HeldAt(r, c, t, s);
      BoundsOfOrdered(r, s);
    }
  }

  /** A drain returns a sample exactly when the ring holds it and it lies after the cursor. */
  lemma DrainShowsIff(r: Ring, c: nat, last: Option<nat>, t: nat)
    requires RingOk(r) && c < |r.vals|
    ensures Shows(DrainPoints(r, c, last), t) <==> HeldIn(r, c, t) && After(last, t)
  {
    ConsistentIsVisible(r, c, t);
    DueIsHeldAfter(r, c, last, t);
    DrainShowsDue(r, c, last, t);
  }
}
