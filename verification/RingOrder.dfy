/**
 When a ring is chronological. A read goes round the slots from the one after
 the cursor, and skipped slots are never cleared, so a write that passes over a
 slot still holding older data leaves that data behind the newest point; and a
 write may be older than data already there. These lemmas show that these are
 the only two ways a ring can get out of order. `ColumnOrder` says what that
 means for the reads of each column.
 */
module RingOrder {
  import opened Floats
  import opened RingModel
  import opened RingRuns

  ghost predicate Used(r: Ring, s: nat)
    requires r.Shaped()
  {
    s < |r.ts| && r.ts[s] != 0
  }

  /** Position of a slot in the visit order of a ring that has wrapped. */
  function Rank(r: Ring, s: nat): nat
    requires r.Shaped() && s < |r.ts|
  {
    Steps(Next(r.cursor, |r.ts|), s, |r.ts|)
  }

  ghost predicate Ordered(r: Ring)
    requires r.Shaped()
  {
    forall x: nat, y: nat | Used(r, x) && Used(r, y) && Rank(r, x) < Rank(r, y) :: r.ts[x] < r.ts[y]
  }

  /** A write at `time` moves the cursor past a slot that still holds data. */
  ghost predicate JumpsOverData(r: Ring, time: nat)
    requires r.Shaped()
  {
    r.SlotOf(time) != r.cursor && exists s: nat :: Used(r, s) && Rank(r, s) < Rank(r, r.SlotOf(time))
  }

  /** A write at `time` is not newer than data in some other slot. */
  ghost predicate ComesLate(r: Ring, time: nat)
    requires r.Shaped()
  {
    exists s: nat :: Used(r, s) && s != r.SlotOf(time) && r.ts[s] >= time
  }

  /** Neither kind of disorder. */
  ghost predicate FollowsOrder(r: Ring, time: nat)
    requires r.Shaped()
  {
    !JumpsOverData(r, time) && !ComesLate(r, time)
  }

  ghost predicate StrictlyIncreasing(points: seq<Point>) {
    forall i, j | 0 <= i < j < |points| :: points[i].0 < points[j].0
  }

  ghost predicate NotBefore(r: Ring, time: nat)
    requires r.Shaped()
  {
    r.ts[r.cursor] <= time
  }

  lemma RankAfterMove(cursor: nat, slot: nat, s: nat, n: nat)
    requires cursor < n && slot < n && s < n
    ensures var d := Steps(Next(cursor, n), slot, n);
            var k := Steps(Next(cursor, n), s, n);
            Steps(Next(slot, n), s, n) == if k > d then k - d - 1 else k - d - 1 + n
    ensures Steps(Next(cursor, n), cursor, n) == n - 1
  {
  }

  lemma DistinctRanks(r: Ring, x: nat, y: nat)
    requires r.Shaped() && x < |r.ts| && y < |r.ts| && x != y
    ensures Rank(r, x) != Rank(r, y)
  {
  }

  lemma CursorIsNewest(r: Ring, s: nat)
    requires Consistent(r) && Ordered(r) && Used(r, s)
    ensures s != r.cursor ==> r.ts[s] < r.ts[r.cursor]
  {
    RankAfterMove(r.cursor, r.cursor, r.cursor, |r.ts|);
    if s != r.cursor {
      DistinctRanks(r, s, r.cursor);
      assert Used(r, r.cursor);
    }
  }

  lemma InOrderKeepsOrder(r: Ring, b: Batch)
    requires Consistent(r) && Ordered(r) && FollowsOrder(r, b.time)
    ensures Ordered(r.Write(b))
  {
    var w, slot, n := r.Write(b), r.SlotOf(b.time), |r.ts|;
    CursorIsLastWrite(r, b);
    forall x: nat, y: nat | Used(w, x) && Used(w, y) && Rank(w, x) < Rank(w, y)
      ensures w.ts[x] < w.ts[y]
    {
      RankAfterMove(r.cursor, slot, x, n);
      RankAfterMove(r.cursor, slot, y, n);
      assert x != slot && Used(r, x);
      if y != slot {
        assert Used(r, y);
        DistinctRanks(r, x, slot);
        DistinctRanks(r, y, slot);
      }
    }
  }

  lemma JumpBreaksOrder(r: Ring, b: Batch)
    requires Consistent(r) && Ordered(r)
    requires JumpsOverData(r, b.time)
    ensures !Ordered(r.Write(b))
  {
    var w, slot, n := r.Write(b), r.SlotOf(b.time), |r.ts|;
    CursorIsLastWrite(r, b);
    var s: nat :| Used(r, s) && Rank(r, s) < Rank(r, slot);
    RankAfterMove(r.cursor, slot, s, n);
    RankAfterMove(r.cursor, slot, r.cursor, n);
    CursorIsNewest(r, s);
    assert Used(w, s) && Used(w, r.cursor);
    assert Rank(w, r.cursor) < Rank(w, s);
  }

  lemma LateBreaksOrder(r: Ring, b: Batch)
    requires Consistent(r) && Ordered(r) && b.time != 0
    requires ComesLate(r, b.time)
    ensures !Ordered(r.Write(b))
  {
    var w, slot, n := r.Write(b), r.SlotOf(b.time), |r.ts|;
    CursorIsLastWrite(r, b);
    var s: nat :| Used(r, s) && s != slot && r.ts[s] >= b.time;
    RankAfterMove(slot, slot, slot, n);
    DistinctRanks(w, s, slot);
    assert Used(w, s) && Used(w, slot);
  }

  /**
   Whatever its time, a write keeps a chronological ring chronological exactly
   when it neither jumps over data nor comes late.
   */
  lemma WriteKeepsOrderIff(r: Ring, b: Batch)
    requires Consistent(r) && Ordered(r) && b.time != 0
    ensures Ordered(r.Write(b)) <==> FollowsOrder(r, b.time)
  {
    if JumpsOverData(r, b.time) {
      JumpBreaksOrder(r, b);
    } else if ComesLate(r, b.time) {
      LateBreaksOrder(r, b);
    } else {
      InOrderKeepsOrder(r, b);
    }
  }

  /** In a chronological ring a write that is not before the newest point cannot come late. */
  lemma NotBeforeIsNotLate(r: Ring, time: nat)
    requires Consistent(r) && Ordered(r) && NotBefore(r, time)
    ensures !ComesLate(r, time)
  {
    forall s: nat | Used(r, s) && r.ts[s] >= time ensures s == r.SlotOf(time) {
      CursorIsNewest(r, s);
      assert r.SlotOf(r.ts[s]) == s;
    }
  }

  // ------------------------------------------------------------ whole runs

  ghost predicate OrderedThroughout(r: Ring, log: seq<Batch>)
    requires r.Shaped()
  {
    forall k | 0 <= k <= |log| :: Ordered(Run(r, log[..k]))
  }

  /** Every write of the run, at its point, neither jumps over data nor comes late. */
  ghost predicate WritesFollowOrder(r: Ring, log: seq<Batch>)
    requires r.Shaped()
  {
    forall k | 0 <= k < |log| :: FollowsOrder(Run(r, log[..k]), log[k].time)
  }

  lemma RunPrefix(r: Ring, log: seq<Batch>, k: nat)
    requires r.Shaped() && k < |log|
    ensures Run(r, log[..k + 1]) == Run(r, log[..k]).Write(log[k])
  {
    assert log[..k + 1][..k] == log[..k];
  }

  ghost predicate IsBlank(r: Ring) {
    r.Shaped() && r == Blank(r.interval, |r.ts|, |r.vals|)
  }

  lemma PrefixIsConsistent(r: Ring, log: seq<Batch>, k: nat)
    requires IsBlank(r) && WritableRun(log, |r.vals|) && k <= |log|
    ensures Consistent(Run(r, log[..k]))
  {
    BlankIsConsistent(r.interval, |r.ts|, |r.vals|);
    RunKeepsConsistent(r, log[..k]);
  }

  lemma OrderStep(r: Ring, log: seq<Batch>, k: nat)
    requires IsBlank(r) && WritableRun(log, |r.vals|) && k < |log|
    requires Ordered(Run(r, log[..k]))
    ensures Ordered(Run(r, log[..k + 1])) <==> FollowsOrder(Run(r, log[..k]), log[k].time)
  {
    PrefixIsConsistent(r, log, k);
    RunPrefix(r, log, k);
    WriteKeepsOrderIff(Run(r, log[..k]), log[k]);
  }

  lemma {:induction false} FollowingKeepsOrder(r: Ring, log: seq<Batch>, k: nat)
    requires IsBlank(r) && WritableRun(log, |r.vals|) && k <= |log| && WritesFollowOrder(r, log)
    ensures Ordered(Run(r, log[..k]))
  {
    if k > 0 {
      FollowingKeepsOrder(r, log, k - 1);
      OrderStep(r, log, k - 1);
    }
  }

  /** Over any run at all, the ring is chronological after every write exactly when every write follows the order. */
  lemma OrderedThroughoutIff(r: Ring, log: seq<Batch>)
    requires IsBlank(r) && WritableRun(log, |r.vals|)
    ensures OrderedThroughout(r, log) <==> WritesFollowOrder(r, log)
  {
    if WritesFollowOrder(r, log) {
      forall k | 0 <= k <= |log| ensures Ordered(Run(r, log[..k])) {
        FollowingKeepsOrder(r, log, k);
      }
    }
    if OrderedThroughout(r, log) {
      forall k | 0 <= k < |log| ensures FollowsOrder(Run(r, log[..k]), log[k].time) {
        OrderStep(r, log, k);
      }
    }
  }

  // --------------------------------------------------------- failing runs

  ghost const JUMPED: Ring :=
    Ring(1, [0, 1, 12, 0, 4], [[NaN, Finite(1.0), Finite(12.0), NaN, Finite(4.0)]], 2, true)

  function Sample(time: nat): Batch {
    Batch(time, [(0, Finite(time as real))])
  }

  lemma JumpedRun()
    ensures Run(Blank(1, 5, 1), [Sample(1), Sample(4), Sample(12)]) == JUMPED
  {
    var r0 := Blank(1, 5, 1);
    var log := [Sample(1), Sample(4), Sample(12)];
    assert log[..2] == [Sample(1), Sample(4)] && log[..2][..1] == [Sample(1)] && log[..2][..1][..0] == [];
    var r1 := r0.Write(Sample(1));
    assert r1 == Ring(1, [0, 1, 0, 0, 0], [[NaN, Finite(1.0), NaN, NaN, NaN]], 1, false) by {
      assert r1.vals[0] == [NaN, Finite(1.0), NaN, NaN, NaN];
    }
    var r2 := r1.Write(Sample(4));
    assert r2 == Ring(1, [0, 1, 0, 0, 4], [[NaN, Finite(1.0), NaN, NaN, Finite(4.0)]], 4, false) by {
      assert r2.vals[0] == [NaN, Finite(1.0), NaN, NaN, Finite(4.0)];
    }
    assert Run(r0, log[..2]) == r2 by {
      assert Run(r0, log[..2][..1]) == r1;
    }
    assert r2.Write(Sample(12)) == JUMPED by {
      assert r2.Write(Sample(12)).vals[0] == JUMPED.vals[0];
    }
  }

  lemma JumpedRead()
    ensures JUMPED.Read(0, 0, 100) == [(4, Finite(4.0)), (1, Finite(1.0)), (12, Finite(12.0))]
  {
    assert JUMPED.Scan(0, 0, 100, 2, 1) == [(12, Finite(12.0))];
    assert JUMPED.Scan(0, 0, 100, 1, 2) == [(1, Finite(1.0)), (12, Finite(12.0))];
    assert JUMPED.Scan(0, 0, 100, 0, 3) == [(1, Finite(1.0)), (12, Finite(12.0))];
    assert JUMPED.Scan(0, 0, 100, 4, 4) == [(4, Finite(4.0)), (1, Finite(1.0)), (12, Finite(12.0))];
  }

  /** The documented time order of reads fails for this run: the write at 12 jumps over slot 1. */
  lemma ChronologyCounterexample()
    ensures Run(Blank(1, 5, 1), [Sample(1), Sample(4), Sample(12)]).Read(0, 0, 100)
            == [(4, Finite(4.0)), (1, Finite(1.0)), (12, Finite(12.0))]
  {
    JumpedRun();
    JumpedRead();
  }

  lemma LateRun()
    ensures Run(Blank(1, 4, 1), [Sample(3), Sample(2)])
            == Ring(1, [0, 0, 2, 3], [[NaN, NaN, Finite(2.0), Finite(3.0)]], 2, true)
  {
    var r0 := Blank(1, 4, 1);
    var log := [Sample(3), Sample(2)];
    assert log[..1] == [Sample(3)] && log[..1][..0] == [];
    var r1 := r0.Write(Sample(3));
    assert r1 == Ring(1, [0, 0, 0, 3], [[NaN, NaN, NaN, Finite(3.0)]], 3, false) by {
      assert r1.vals[0] == [NaN, NaN, NaN, Finite(3.0)];
    }
    assert r1.Write(Sample(2)).vals[0] == [NaN, NaN, Finite(2.0), Finite(3.0)];
  }

  /** The other way it fails: the write at 2 comes late, although it jumps over nothing. */
  lemma LateWriteCounterexample()
    ensures Run(Blank(1, 4, 1), [Sample(3), Sample(2)]).Read(0, 0, 100) == [(3, Finite(3.0)), (2, Finite(2.0))]
  {
    LateRun();
    var r := Ring(1, [0, 0, 2, 3], [[NaN, NaN, Finite(2.0), Finite(3.0)]], 2, true);
    assert r.Scan(0, 0, 100, 2, 1) == [(2, Finite(2.0))];
    assert r.Scan(0, 0, 100, 1, 2) == [(2, Finite(2.0))];
    assert r.Scan(0, 0, 100, 0, 3) == [(2, Finite(2.0))];
    assert r.Scan(0, 0, 100, 3, 4) == [(3, Finite(3.0)), (2, Finite(2.0))];
  }
}
