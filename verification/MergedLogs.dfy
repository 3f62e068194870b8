/**
 A pass writes each cell of a window on its own. These lemmas put neighbouring
 writes of one timestamp together into one batch, which leaves the same ring.
 */
module MergedLogs {
  import opened Wrappers
  import opened Floats
  import opened RingModel
  import opened RingRuns

  /** The log with neighbouring batches of one timestamp put together. */
  function Merged(log: seq<Batch>): seq<Batch> {
    if log == [] then [] else Joined(Merged(log[..|log| - 1]), log[|log| - 1])
  }

  function Joined(merged: seq<Batch>, b: Batch): seq<Batch> {
    var n := |merged|;
    if n > 0 && merged[n - 1].time == b.time
    then merged[..n - 1] + [Batch(b.time, merged[n - 1].entries + b.entries)]
    else merged + [b]
  }

  lemma {:induction false} LookupConcat(x: seq<(nat, Float)>, y: seq<(nat, Float)>, c: nat)
    ensures Lookup(x + y, c) == if Lookup(y, c).Some? then Lookup(y, c) else Lookup(x, c)
  {
    if y == [] {
      assert x + y == x;
    } else {
      assert (x + y)[..|x + y| - 1] == x + y[..|y| - 1];
      LookupConcat(x, y[..|y| - 1], c);
    }
  }

  lemma WriteTwice(r: Ring, time: nat, x: seq<(nat, Float)>, y: seq<(nat, Float)>)
    requires r.Shaped()
    ensures r.Write(Batch(time, x)).Write(Batch(time, y)) == r.Write(Batch(time, x + y))
  {
    var a, b, d := Batch(time, x), Batch(time, y), Batch(time, x + y);
    var twice, once := r.Write(a).Write(b), r.Write(d);
    CursorIsLastWrite(r, a);
    CursorIsLastWrite(r.Write(a), b);
    CursorIsLastWrite(r, d);
    forall c | 0 <= c < |r.vals| ensures twice.vals[c] == once.vals[c] {
      LookupConcat(x, y, c);
    }
    assert twice.vals == once.vals;
    assert twice.ts == once.ts;
  }

  lemma RunAppend(r: Ring, log: seq<Batch>, b: Batch)
    requires r.Shaped()
    ensures Run(r, log + [b]) == Run(r, log).Write(b)
  {
    assert (log + [b])[..|log|] == log;
  }

  lemma JoinedRun(r: Ring, merged: seq<Batch>, b: Batch)
    requires r.Shaped()
    ensures Run(r, Joined(merged, b)) == Run(r, merged).Write(b)
  {
    var n := |merged|;
    RunAppend(r, merged, b);
    if n > 0 && merged[n - 1].time == b.time {
      RunAppend(r, merged[..n - 1], Batch(b.time, merged[n - 1].entries + b.entries));
      WriteTwice(Run(r, merged[..n - 1]), b.time, merged[n - 1].entries, b.entries);
    }
  }

  /** Merging does not change what a run leaves in a ring. */
  lemma {:induction false} MergedRun(r: Ring, log: seq<Batch>)
    requires r.Shaped()
    ensures Run(r, Merged(log)) == Run(r, log)
  {
    if log != [] {
      MergedRun(r, log[..|log| - 1]);
      JoinedRun(r, Merged(log[..|log| - 1]), log[|log| - 1]);
    }
  }

  lemma {:induction false} MergedIsWritable(log: seq<Batch>, columns: nat)
    requires WritableRun(log, columns)
    ensures WritableRun(Merged(log), columns)
  {
    if log != [] {
      MergedIsWritable(log[..|log| - 1], columns);
    }
  }

  // ------------------------------------------------------------ what it holds

  ghost predicate Climbs(log: seq<Batch>) {
    forall i, j | 0 <= i < j < |log| :: log[i].time <= log[j].time
  }

  ghost predicate ClimbsStrictly(log: seq<Batch>) {
    forall i, j | 0 <= i < j < |log| :: log[i].time < log[j].time
  }

  /** The value that the batches at `time` leave for a column. */
  function ValueAt(log: seq<Batch>, time: nat, c: nat): Option<Float> {
    if log == [] then None
    else
      var b := log[|log| - 1];
      if b.time == time && Lookup(b.entries, c).Some? then Lookup(b.entries, c)
      else ValueAt(log[..|log| - 1], time, c)
  }

  ghost predicate HasTime(log: seq<Batch>, time: nat) {
    exists i :: 0 <= i < |log| && log[i].time == time
  }

  lemma {:induction false} NoBatchNoValue(log: seq<Batch>, time: nat, c: nat)
    requires !HasTime(log, time)
    ensures ValueAt(log, time, c) == None
  {
    if log != [] {
      var init, b := log[..|log| - 1], log[|log| - 1];
      assert init + [b] == log;
      HasTimeAppend(init, b, time);
      NoBatchNoValue(init, time, c);
    }
  }

  /** What merging a climbing log gives: one batch a timestamp, with the values left at it. */
  ghost predicate IsMerge(merged: seq<Batch>, log: seq<Batch>) {
    && ClimbsStrictly(merged)
    && (forall t: nat :: HasTime(merged, t) <==> HasTime(log, t))
    && forall i: nat, c: nat | i < |merged| :: HoldsValue(merged, log, i, c)
  }

  ghost predicate HoldsValue(merged: seq<Batch>, log: seq<Batch>, i: nat, c: nat)
    requires i < |merged|
  {
    Lookup(merged[i].entries, c) == ValueAt(log, merged[i].time, c)
  }

  lemma {:induction false} MergedIsMerge(log: seq<Batch>)
    requires Climbs(log)
    ensures IsMerge(Merged(log), log)
  {
    if log != [] {
      var init, b := log[..|log| - 1], log[|log| - 1];
      MergedIsMerge(init);
      forall i | 0 <= i < |Merged(init)| ensures Merged(init)[i].time <= b.time {
        assert HasTime(Merged(init), Merged(init)[i].time);
        var j :| 0 <= j < |init| && init[j].time == Merged(init)[i].time;
        assert log[j].time <= log[|log| - 1].time;
      }
      JoinIsMerge(Merged(init), init, b);
      assert init + [b] == log;
    }
  }

  lemma JoinIsMerge(merged: seq<Batch>, log: seq<Batch>, b: Batch)
    requires IsMerge(merged, log) && forall i | 0 <= i < |merged| :: merged[i].time <= b.time
    ensures IsMerge(Joined(merged, b), log + [b])
  {
    var joined := Joined(merged, b);
    assert (log + [b])[..|log|] == log;
    forall t: nat ensures HasTime(joined, t) <==> HasTime(log + [b], t) {
      HasTimeAppend(log, b, t);
      JoinedTimes(merged, b, t);
    }
    forall i: nat, c: nat | i < |joined| ensures HoldsValue(joined, log + [b], i, c) {
      JoinedValues(merged, log, b, i, c);
    }
    assert ClimbsStrictly(joined);
  }

  lemma HasTimeAppend(log: seq<Batch>, b: Batch, t: nat)
    ensures HasTime(log + [b], t) <==> HasTime(log, t) || b.time == t
  {
    if HasTime(log, t) {
      var i :| 0 <= i < |log| && log[i].time == t;
      assert (log + [b])[i].time == t;
    }
    assert (log + [b])[|log|] == b;
  }

  lemma JoinedTimes(merged: seq<Batch>, b: Batch, t: nat)
    ensures HasTime(Joined(merged, b), t) <==> HasTime(merged, t) || b.time == t
  {
    var n := |merged|;
    if n > 0 && merged[n - 1].time == b.time {
      HasTimeAppend(merged[..n - 1], Batch(b.time, merged[n - 1].entries + b.entries), t);
      HasTimeAppend(merged[..n - 1], merged[n - 1], t);
      assert merged == merged[..n - 1] + [merged[n - 1]];
    } else {
      HasTimeAppend(merged, b, t);
    }
  }

  lemma JoinedValues(merged: seq<Batch>, log: seq<Batch>, b: Batch, i: nat, c: nat)
    requires IsMerge(merged, log) && forall i | 0 <= i < |merged| :: merged[i].time <= b.time
    requires i < |Joined(merged, b)|
    ensures HoldsValue(Joined(merged, b), log + [b], i, c)
  {
    var n := |merged|;
    assert (log + [b])[..|log|] == log;
    if n > 0 && merged[n - 1].time == b.time && i == n - 1 {
      assert HoldsValue(merged, log, i, c);
      LookupConcat(merged[n - 1].entries, b.entries, c);
    } else if i < n {
      assert HoldsValue(merged, log, i, c);
    } else {
      forall j | 0 <= j < n ensures merged[j].time != b.time {
        assert j < n - 1 ==> merged[j].time < merged[n - 1].time;
      }
      assert !HasTime(merged, b.time);
      NoBatchNoValue(log, b.time, c);
    }
  }

  /** The last batch of a timestamp that writes the column decides. */
  lemma {:induction false} ValueAtLast(log: seq<Batch>, i: nat, c: nat)
    requires i < |log| && Lookup(log[i].entries, c).Some?
    requires forall j | i < j < |log| && log[j].time == log[i].time :: Lookup(log[j].entries, c).None?
    ensures ValueAt(log, log[i].time, c) == Lookup(log[i].entries, c)
  {
    if i < |log| - 1 {
      ValueAtLast(log[..|log| - 1], i, c);
    }
  }

  lemma {:induction false} ValueAtNone(log: seq<Batch>, t: nat, c: nat)
    requires forall j | 0 <= j < |log| && log[j].time == t :: Lookup(log[j].entries, c).None?
    ensures ValueAt(log, t, c) == None
  {
    if log != [] {
      ValueAtNone(log[..|log| - 1], t, c);
    }
  }
}
