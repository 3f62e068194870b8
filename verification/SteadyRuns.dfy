/**
 Runs with one batch per bucket, in which a column is either written by every
 batch or by none. For these a ring is the tail of its write log, so what a read
 returns can be said in terms of the log alone.
 */
module SteadyRuns {
  import opened Wrappers
  import opened RingModel
  import opened RingRuns
  import opened RingOrder
  import opened BoundedLog
  import Sequences

  ghost predicate OnePerBucket(log: seq<Batch>, interval: nat)
    requires interval > 0
  {
    forall i | 0 < i < |log| :: log[i].time / interval == log[i - 1].time / interval + 1
  }

  ghost predicate AllWrite(log: seq<Batch>, c: nat) {
    forall i | 0 <= i < |log| :: Lookup(log[i].entries, c).Some?
  }

  ghost predicate NoneWrites(log: seq<Batch>, c: nat) {
    forall i | 0 <= i < |log| :: Lookup(log[i].entries, c).None?
  }

  ghost predicate Uniform(log: seq<Batch>, c: nat) {
    AllWrite(log, c) || NoneWrites(log, c)
  }

  ghost predicate Steady(r: Ring, log: seq<Batch>, c: nat) {
    && IsBlank(r) && c < |r.vals| && WritableRun(log, |r.vals|)
    && OnePerBucket(log, r.interval) && Uniform(log, c)
  }

  /** The point a batch contributes to a read of column `c`, if any. */
  function BatchPoint(b: Batch, c: nat, start: nat, end: nat): seq<Point> {
    var v := Lookup(b.entries, c);
    if start <= b.time < end && v.Some? && !v.value.NaN? then [(b.time, v.value)] else []
  }

  /** The in-range points of a log, in log order. */
  function LogRead(log: seq<Batch>, c: nat, start: nat, end: nat): seq<Point> {
    if log == [] then [] else BatchPoint(log[0], c, start, end) + LogRead(log[1..], c, start, end)
  }

  /** The newest `n` batches. */
  function Tail(log: seq<Batch>, n: nat): seq<Batch> {
    if |log| <= n then log else log[|log| - n..]
  }

  function Rows(log: seq<Batch>): seq<Row> {
    seq(|log|, i requires 0 <= i < |log| => Row(log[i].time, PutAll(map[], log[i].entries)))
  }

  lemma {:induction false} TimesIncrease(log: seq<Batch>, interval: nat, i: nat, j: nat)
    requires interval > 0 && OnePerBucket(log, interval) && i < j < |log|
    ensures log[i].time < log[j].time
    ensures log[i].time / interval < log[j].time / interval
  {
    LaterBucketIsLater(log[j - 1].time, log[j].time, interval);
    if i < j - 1 {
      TimesIncrease(log, interval, i, j - 1);
    }
  }

  lemma OnePerBucketIsGapFree(log: seq<Batch>, interval: nat)
    requires interval > 0 && OnePerBucket(log, interval)
    ensures GapFree(log, interval)
  {
    forall i | 0 < i < |log| ensures FollowsOn(log[i - 1].time, log[i].time, interval) {
      TimesIncrease(log, interval, i - 1, i);
    }
  }

  lemma TailStep(log: seq<Batch>, n: nat)
    requires log != [] && n > 0
    ensures var t := Tail(log[..|log| - 1], n);
            Tail(log, n) == (if |t| == n then t[1..] else t) + [log[|log| - 1]]
  {
  }

  lemma PushNextBucket(t: seq<Batch>, b: Batch, interval: nat, n: nat)
    requires interval > 0 && n > 0
    requires t != [] ==> b.time / interval != t[|t| - 1].time / interval
    ensures Push(Rows(t), b, interval, n) == Rows((if |t| == n then t[1..] else t) + [b])
  {
    var keep := if |t| == n then t[1..] else t;
    assert Rows(keep) == if |t| == n then Rows(t)[1..] else Rows(t);
    assert Rows(keep + [b]) == Rows(keep) + [Row(b.time, PutAll(map[], b.entries))];
  }

  lemma {:induction false} ReplayIsTail(log: seq<Batch>, interval: nat, n: nat)
    requires interval > 0 && n > 0 && OnePerBucket(log, interval)
    ensures Replay(log, interval, n) == Rows(Tail(log, n))
  {
    if log != [] {
      var init, b := log[..|log| - 1], log[|log| - 1];
      OneMoreBucket(log, interval, n);
      ReplayIsTail(init, interval, n);
      TailStep(log, n);
      PushNextBucket(Tail(init, n), b, interval, n);
    }
  }

  lemma OneMoreBucket(log: seq<Batch>, interval: nat, n: nat)
    requires interval > 0 && n > 0 && OnePerBucket(log, interval) && log != []
    ensures OnePerBucket(log[..|log| - 1], interval)
    ensures var t := Tail(log[..|log| - 1], n);
            t != [] ==> log[|log| - 1].time / interval != t[|t| - 1].time / interval
  {
    var init := log[..|log| - 1];
    forall i | 0 < i < |init| ensures init[i].time / interval == init[i - 1].time / interval + 1 {
      assert log[i].time / interval == log[i - 1].time / interval + 1;
    }
    if init != [] {
      assert Tail(init, n)[|Tail(init, n)| - 1] == log[|log| - 2];
    }
  }

  lemma {:induction false} RowsReadIsLogRead(log: seq<Batch>, c: nat, start: nat, end: nat)
    ensures QueueRead(Rows(log), c, start, end) == LogRead(log, c, start, end)
  {
    if log != [] {
      RowsReadIsLogRead(log[1..], c, start, end);
      assert Rows(log)[1..] == Rows(log[1..]);
      PutAllLookup(map[], log[0].entries, c);
    }
  }

  lemma {:induction false} UnwrittenColumn(r: Ring, log: seq<Batch>, c: nat, s: nat)
    requires IsBlank(r) && c < |r.vals| && s < |r.ts| && NoneWrites(log, c)
    ensures Run(r, log).vals[c][s].NaN?
  {
    if log != [] {
      UnwrittenColumn(r, log[..|log| - 1], c, s);
    }
  }

  lemma {:induction false} SilentLog(log: seq<Batch>, c: nat, start: nat, end: nat)
    requires forall i | 0 <= i < |log| :: BatchPoint(log[i], c, start, end) == []
    ensures LogRead(log, c, start, end) == []
  {
    if log != [] {
      SilentLog(log[1..], c, start, end);
    }
  }

  lemma EmptyReadOfUnwrittenColumn(r: Ring, log: seq<Batch>, c: nat, start: nat, end: nat)
    requires Steady(r, log, c) && NoneWrites(log, c)
    ensures Run(r, log).Read(c, start, end) == []
  {
    var w := Run(r, log);
    BlankIsConsistent(r.interval, |r.ts|, |r.vals|);
    RunKeepsConsistent(r, log);
    var points := w.Read(c, start, end);
    if points != [] {
      ReadPoints(w, c, start, end, points[0]);
      var s: nat :| 0 <= s < |w.ts| && w.Qualifies(c, start, end, s) && points[0] == w.Cell(c, s);
      UnwrittenColumn(r, log, c, s);
    }
  }

  /** A steady ring reads like the newest `slot_count` batches of its log. */
  lemma SteadyRead(r: Ring, log: seq<Batch>, c: nat, start: nat, end: nat)
    requires Steady(r, log, c)
    ensures Run(r, log).Read(c, start, end) == LogRead(Tail(log, |r.ts|), c, start, end)
  {
    var tail := Tail(log, |r.ts|);
    if AllWrite(log, c) {
      OnePerBucketIsGapFree(log, r.interval);
      ReplayIsTail(log, r.interval, |r.ts|);
      forall i | 0 <= i < |tail| ensures c in Rows(tail)[i].values {
        assert Lookup(tail[i].entries, c).Some?;
        PutAllLookup(map[], tail[i].entries, c);
      }
      GapFreeRunIsBoundedLog(r, log, c, start, end);
      RowsReadIsLogRead(tail, c, start, end);
    } else {
      EmptyReadOfUnwrittenColumn(r, log, c, start, end);
      SilentLog(tail, c, start, end);
    }
  }

  /** Its oldest and newest timestamps are those of the first retained and the last batch. */
  lemma SteadyBounds(r: Ring, log: seq<Batch>)
    requires IsBlank(r) && WritableRun(log, |r.vals|) && OnePerBucket(log, r.interval)
    ensures var w := Run(r, log);
            && (log == [] ==> w.Oldest() == None && w.Newest() == None)
            && (log != [] ==> && w.Oldest() == Some(Tail(log, |r.ts|)[0].time)
                              && w.Newest() == Some(log[|log| - 1].time))
  {
    OnePerBucketIsGapFree(log, r.interval);
    ReplayIsTail(log, r.interval, |r.ts|);
    GapFreeBounds(r, log);
  }

  // -------------------------------------------------- reading parts of a log

  lemma {:induction false} LogReadSplit(log: seq<Batch>, k: nat, c: nat, start: nat, end: nat)
    requires k <= |log|
    ensures LogRead(log, c, start, end) == LogRead(log[..k], c, start, end) + LogRead(log[k..], c, start, end)
  {
    if k == 0 {
      assert log[0..] == log;
    } else {
      var first := BatchPoint(log[0], c, start, end);
      LogReadSplit(log[1..], k - 1, c, start, end);
      TakeDrop(log, k);
      Sequences.AppendAssoc(first, LogRead(log[1..][..k - 1], c, start, end), LogRead(log[k..], c, start, end));
    }
  }

  lemma TakeDrop(log: seq<Batch>, k: nat)
    requires 0 < k <= |log|
    ensures log[..k] != [] && log[..k][0] == log[0] && log[..k][1..] == log[1..][..k - 1]
    ensures log[1..][k - 1..] == log[k..]
  {
  }

  /** Leading batches that contribute nothing can be left out. */
  lemma LogReadSkip(log: seq<Batch>, k: nat, c: nat, start: nat, end: nat)
    requires k <= |log|
    requires forall i | 0 <= i < k :: BatchPoint(log[i], c, start, end) == []
    ensures LogRead(log, c, start, end) == LogRead(log[k..], c, start, end)
  {
    LogReadSplit(log, k, c, start, end);
    SilentLog(log[..k], c, start, end);
  }

  /** A range that reaches back to the start of a part of the log reads all of it. */
  lemma {:induction false} LogReadWiden(log: seq<Batch>, c: nat, start: nat, start': nat, end: nat)
    requires forall i | 0 <= i < |log| :: start <= log[i].time && start' <= log[i].time
    ensures LogRead(log, c, start, end) == LogRead(log, c, start', end)
  {
    if log != [] {
      LogReadWiden(log[1..], c, start, start', end);
    }
  }

  lemma {:induction false} LogReadIncreases(log: seq<Batch>, interval: nat, c: nat, start: nat, end: nat)
    requires interval > 0 && OnePerBucket(log, interval)
    ensures StrictlyIncreasing(LogRead(log, c, start, end))
    ensures forall p | p in LogRead(log, c, start, end) :: log != [] && log[0].time <= p.0 <= log[|log| - 1].time
  {
    if log != [] {
      LogReadIncreases(log[1..], interval, c, start, end);
      if |log| > 1 {
        TimesIncrease(log, interval, 0, 1);
        TimesIncrease(log, interval, 0, |log| - 1);
      }
    }
  }

  /** The points of a log are exactly the non-NaN values its batches carry for the column. */
  lemma {:induction false} LogReadPoints(log: seq<Batch>, c: nat, start: nat, end: nat, p: Point)
    ensures p in LogRead(log, c, start, end) <==>
            exists i :: 0 <= i < |log| && BatchPoint(log[i], c, start, end) == [p]
  {
    if log != [] {
      LogReadPoints(log[1..], c, start, end, p);
      if exists i :: 0 <= i < |log| && BatchPoint(log[i], c, start, end) == [p] {
        var i :| 0 <= i < |log| && BatchPoint(log[i], c, start, end) == [p];
        assert i == 0 || log[1..][i - 1] == log[i];
      }
      if p in LogRead(log[1..], c, start, end) {
        var i :| 0 <= i < |log[1..]| && BatchPoint(log[1..][i], c, start, end) == [p];
        assert log[i + 1] == log[1..][i];
      } else if p in LogRead(log, c, start, end) {
        assert BatchPoint(log[0], c, start, end) == [p];
      }
    }
  }
}
