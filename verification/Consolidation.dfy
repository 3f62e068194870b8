/** The consolidation engine: an object that updates the rings of every tier and its cursors in place. */
module Consolidation {
  import opened Wrappers
  import opened RingModel
  import opened RingBuffers
  import opened Schemas
  import opened Passes
  import opened Cascades
  import opened Engines

  /** Everything the rings of a row are made of. */
  ghost function RowObjects(row: seq<RingBuffer>): set<object> {
    (set k | 0 <= k < |row| :: row[k]) + (set k | 0 <= k < |row| :: row[k].ts) + (set k | 0 <= k < |row| :: row[k].vals)
  }

  ghost function Objects(rings: seq<seq<RingBuffer>>): set<object> {
    set i, o | 0 <= i < |rings| && o in RowObjects(rings[i]) :: o
  }

  ghost predicate RowValid(row: seq<RingBuffer>)
    reads RowObjects(row)
  {
    forall k | 0 <= k < |row| :: row[k].Valid()
  }

  ghost predicate AllValid(rings: seq<seq<RingBuffer>>)
    reads Objects(rings)
  {
    forall i | 0 <= i < |rings| :: RowValid(rings[i])
  }

  /** No two rings share an object. */
  ghost predicate Separate(rings: seq<seq<RingBuffer>>) {
    forall i, k, i', k' |
      0 <= i < |rings| && 0 <= k < |rings[i]| && 0 <= i' < |rings| && 0 <= k' < |rings[i']| && (i, k) != (i', k') ::
      rings[i][k].Repr() !! rings[i'][k'].Repr()
  }

  ghost function RowStates(row: seq<RingBuffer>): (s: seq<Ring>)
    requires RowValid(row)
    reads RowObjects(row)
    ensures |s| == |row|
  {
    seq(|row|, k requires 0 <= k < |row| && RowValid(row) reads RowObjects(row) => row[k].State())
  }

  /** The values of all rings. */
  ghost function States(rings: seq<seq<RingBuffer>>): (s: seq<seq<Ring>>)
    requires AllValid(rings)
    reads Objects(rings)
    ensures |s| == |rings|
  {
    seq(|rings|, i requires 0 <= i < |rings| && AllValid(rings) reads Objects(rings) => RowStates(rings[i]))
  }

  ghost predicate ShapesFit(schemas: seq<SchemaConfig>, rings: seq<seq<RingBuffer>>) {
    && |rings| == |schemas|
    && (forall i | 0 <= i < |rings| :: |rings[i]| == |schemas[i].tiers|)
    && (forall i, k | 0 <= i < |rings| && 0 <= k < |rings[i]| ::
          schemas[i].tiers[k].IntervalNanos() > 0 && schemas[i].maxSeries <= rings[i][k].vals.Length0)
  }

  ghost predicate Ready(schemas: seq<SchemaConfig>, rings: seq<seq<RingBuffer>>)
    reads Objects(rings)
  {
    ShapesFit(schemas, rings) && Separate(rings) && AllValid(rings)
  }

  lemma ReadyTiersFit(schemas: seq<SchemaConfig>, rings: seq<seq<RingBuffer>>, cursors: map<CursorKey, nat>)
    requires Ready(schemas, rings)
    ensures TiersFit(schemas, Tiers(States(rings), cursors))
  {
    forall i | 0 <= i < |schemas| ensures SchemaFits(schemas[i], States(rings)[i]) {
      assert RowValid(rings[i]);
    }
  }

  lemma StateOf(rings: seq<seq<RingBuffer>>, i: nat, k: nat)
    requires AllValid(rings) && i < |rings| && k < |rings[i]|
    ensures rings[i][k].Valid() && |States(rings)[i]| == |rings[i]| && States(rings)[i][k] == rings[i][k].State()
  {
    assert RowValid(rings[i]);
  }

  /** When only ring `(i, k)` differs from `before`, so do the rings' values. */
  lemma OneRingChanged(rings: seq<seq<RingBuffer>>, before: seq<seq<Ring>>, i: nat, k: nat)
    requires forall x, y | 0 <= x < |rings| && 0 <= y < |rings[x]| :: rings[x][y].Valid()
    requires |before| == |rings| && (forall x | 0 <= x < |rings| :: |before[x]| == |rings[x]|)
    requires i < |rings| && k < |rings[i]|
    requires forall x, y | 0 <= x < |rings| && 0 <= y < |rings[x]| && (x, y) != (i, k) ::
               rings[x][y].State() == before[x][y]
    ensures AllValid(rings)
    ensures States(rings) == before[i := before[i][k := rings[i][k].State()]]
  {
    forall x | 0 <= x < |rings| ensures RowValid(rings[x]) {
    }
    forall x | 0 <= x < |rings|
      ensures States(rings)[x] == before[i := before[i][k := rings[i][k].State()]][x]
    {
    }
  }

  lemma PairPassIs(schemas: seq<SchemaConfig>, t: Tiers, i: nat, k: nat, order: seq<Target>,
                   rings: seq<seq<Ring>>, cursors: map<CursorKey, nat>)
    requires CanPass(schemas, t, i, k, order) && TargetsIn(order, |t.rings[i][k].vals|)
    requires var o := Pass(t.rings[i][k], t.rings[i][k + 1], PairOf(schemas[i], k), LastProcessed(t.cursors, i, k), order);
             rings == t.rings[i := t.rings[i][k + 1 := o.dst]] && cursors == t.cursors[KeyOf(i, k) := o.last]
    ensures PairPass(schemas, t, i, k, order) == Tiers(rings, cursors)
  {
  }

  lemma RingIsObject(rings: seq<seq<RingBuffer>>, i: nat, k: nat)
    requires i < |rings| && k < |rings[i]|
    ensures rings[i][k].Repr() <= Objects(rings)
  {
    forall o | o in rings[i][k].Repr() ensures o in Objects(rings) {
      assert o in RowObjects(rings[i]);
    }
  }

  lemma NextSchema(schemas: seq<SchemaConfig>, trace: seq<PairTrace>, i: nat, k: nat)
    requires CoveredBelow(schemas, trace, i, k) && !HasPair(schemas, i, k)
    ensures CoveredBelow(schemas, trace, i + 1, 0)
  {
  }

  /** The pairs before `(i, k)` have been passed, in order, and led to `now`. */
  ghost predicate Underway(schemas: seq<SchemaConfig>, before: Tiers, trace: seq<PairTrace>, now: Tiers, i: nat, k: nat) {
    CoveredBelow(schemas, trace, i, k) && Leads(schemas, before, trace, now)
  }

  lemma AllCovered(schemas: seq<SchemaConfig>, trace: seq<PairTrace>)
    requires CoveredBelow(schemas, trace, |schemas|, 0)
    ensures CoversAllPairs(schemas, trace)
  {
  }

  lemma OneMorePair(schemas: seq<SchemaConfig>, before: Tiers, trace: seq<PairTrace>, mid: Tiers,
                    i: nat, k: nat, order: seq<Target>)
    requires Leads(schemas, before, trace, mid) && CanPass(schemas, mid, i, k, order)
    requires CoveredBelow(schemas, trace, i, k)
    ensures var trace' := trace + [PairTrace(i, k, order)];
            && Leads(schemas, before, trace', PairPass(schemas, mid, i, k, order))
            && CoveredBelow(schemas, trace', i, k + 1)
            && Operations(trace') == Operations(trace) + |order|
  {
    var trace' := trace + [PairTrace(i, k, order)];
    assert trace'[..|trace|] == trace;
    assert LeadsVia(schemas, before, trace', mid, PairPass(schemas, mid, i, k, order));
    forall x, y | HasPair(schemas, x, y) && Earlier(x, y, i, k + 1) ensures Visits(trace', x, y) {
      if (x, y) == (i, k) {
        assert trace'[|trace|].schema == x;
      } else {
        assert Visits(trace, x, y);
        var j :| 0 <= j < |trace| && trace[j].schema == x && trace[j].tier == y;
        assert trace'[j] == trace[j];
      }
    }
  }

  class ConsolidationEngine {
    const schemas: seq<SchemaConfig>
    /** Last processed source timestamp of each tier pair. */
    var cursors: map<CursorKey, nat>
    /** The cursors as last written to disk. */
    var saved: map<CursorKey, nat>

    /** A new engine starts from the saved cursors. */
    constructor (schemas: seq<SchemaConfig>, saved: map<CursorKey, nat>)
      ensures this.schemas == schemas && cursors == saved && this.saved == saved
    {
      this.schemas := schemas;
      this.cursors := saved;
      this.saved := saved;
    }

    method GetOrInitializeCursor(i: nat, k: nat) returns (last: nat)
      modifies this`cursors
      ensures last == LastProcessed(old(cursors), i, k)
      ensures cursors == old(cursors)[KeyOf(i, k) := last]
    {
      if KeyOf(i, k) in cursors {
        assert cursors == cursors[KeyOf(i, k) := cursors[KeyOf(i, k)]];
        return cursors[KeyOf(i, k)];
      }
      cursors := cursors[KeyOf(i, k) := 0];
      return 0;
    }

    /** Collects the source points of `[start, end)` into windows and writes their aggregates. */
    method ProcessConsolidationWindows(source: RingBuffer, dest: RingBuffer, pair: TierPair,
                                       start: nat, end: nat, ghost last: nat)
        returns (r: Result<nat>, ghost order: seq<Target>)
      requires source.Valid() && dest.Valid() && source.Repr() !! dest.Repr()
      requires PairFits(source.State(), dest.State(), pair) && start < end
      requires start == PassStart(source.State(), pair, last) && end == PassEnd(source.State())
      modifies dest.Repr()
      ensures source.Valid() && source.State() == old(source.State())
      ensures dest.Valid() && WritesSoFar(dest.State(), old(dest.State()), old(source.State()), pair, last, order)
      ensures r.Ok? ==> Enumerates(old(source.State()), pair, last, order) && r.value == |order|
      ensures r.Ok? <==> !MeetsWindowZero(old(source.State()), pair, last)
    {
      ghost var src := source.State();
      var windows := CollectWindows(source, pair, start, end, last);
      r, order := WriteWindows(dest, windows, pair, src, last);
    }

    method PassRange(source: RingBuffer, pair: TierPair, last: nat) returns (start: nat, end: nat)
      requires source.Valid()
      ensures start == PassStart(source.State(), pair, last) && end == PassEnd(source.State())
    {
      var newest := source.NewestTimestamp();
      start := last + pair.sourceInterval;
      if last == 0 {
        var oldest := source.OldestTimestamp();
        start := if oldest.Some? then oldest.value else 0;
      }
      end := if newest.Some? then newest.value + 1 else 0;
    }

    /** One pass over two rings; `order` is the order in which the hash maps yielded the targets. */
    method ConsolidateRings(source: RingBuffer, dest: RingBuffer, pair: TierPair, i: nat, k: nat)
        returns (r: Result<nat>, ghost order: seq<Target>)
      requires source.Valid() && dest.Valid() && source.Repr() !! dest.Repr()
      requires this !in source.Repr() && this !in dest.Repr()
      requires PairFits(source.State(), dest.State(), pair)
      modifies this`cursors, dest.Repr()
      ensures source.Valid() && dest.Valid()
      ensures r.Ok? <==> !MeetsWindowZero(old(source.State()), pair, LastProcessed(old(cursors), i, k))
      ensures r.Ok? ==>
                && var last := LastProcessed(old(cursors), i, k);
                && Enumerates(old(source.State()), pair, last, order)
                && TargetsIn(order, |old(source.State()).vals|) && r.value == |order|
                && var o := Pass(old(source.State()), old(dest.State()), pair, last, order);
                   dest.State() == o.dst && cursors == old(cursors)[KeyOf(i, k) := o.last] && r.value == o.operations
      ensures r.Err? ==> cursors == old(cursors)[KeyOf(i, k) := LastProcessed(old(cursors), i, k)]
    {
      ghost var src := source.State();
      var last := GetOrInitializeCursor(i, k);
      var start, end := PassRange(source, pair, last);
      order := [];
      if start >= end {
        return Ok(0), order;
      }
      r, order := ProcessConsolidationWindows(source, dest, pair, start, end, last);
      if r.Err? {
        return;
      }
      EnumeratedInColumns(src, pair, last, order);
      if r.value > 0 {
        cursors := cursors[KeyOf(i, k) := end - 1];
      }
    }

    /** One pass of pair `(i, k)`; `before` is the value of all rings and cursors on entry. */
    method ConsolidateTierPair(rings: seq<seq<RingBuffer>>, i: nat, k: nat, ghost before: Tiers)
        returns (r: Result<nat>, ghost order: seq<Target>)
      requires Ready(schemas, rings) && HasPair(schemas, i, k) && this !in Objects(rings)
      requires before == Tiers(States(rings), cursors)
      modifies this`cursors, rings[i][k + 1].Repr()
      ensures Ready(schemas, rings) && TiersFit(schemas, before)
      ensures r.Ok? ==>
                && CanPass(schemas, before, i, k, order)
                && Tiers(States(rings), cursors) == PairPass(schemas, before, i, k, order)
                && r.value == |order|
      ensures r.Err? <==> Blocked(schemas, before, i, k)
      ensures r.Err? ==> OnlyRingDiffers(before.rings, States(rings), i, k + 1)
    {
      order := [];
      ReadyTiersFit(schemas, rings, cursors);
      if schemas[i].tiers[k + 1].consolidationFn.None? {
        assert SchemaFits(schemas[i], before.rings[i]);
        NoRingDiffers(before.rings, i, k + 1);
        return Err, order;
      }
      var pair := PairOf(schemas[i], k);
      forall x, y | 0 <= x < |rings| && 0 <= y < |rings[x]|
        ensures rings[x][y].Valid() && |before.rings[x]| == |rings[x]| && before.rings[x][y] == rings[x][y].State()
      {
        StateOf(rings, x, y);
      }
      assert PairFits(before.rings[i][k], before.rings[i][k + 1], pair) by {
        assert SchemaFits(schemas[i], before.rings[i]);
      }
      r, order := ConsolidateRings(rings[i][k], rings[i][k + 1], pair, i, k);
      OneRingChanged(rings, before.rings, i, k + 1);
      if r.Ok? {
        PairPassIs(schemas, before, i, k, order, States(rings), cursors);
      }
    }

    /** All tier pairs of schema `i`, finer tiers first; `done` is the work of the schemas before it. */
    method ConsolidateSchema(rings: seq<seq<RingBuffer>>, i: nat, ghost before: Tiers, ghost done: seq<PairTrace>)
        returns (r: Result<nat>, ghost trace: seq<PairTrace>)
      requires Ready(schemas, rings) && this !in Objects(rings) && i < |schemas|
      requires Underway(schemas, before, done, Tiers(States(rings), cursors), i, 0)
      modifies this`cursors, Objects(rings)
      ensures Ready(schemas, rings)
      ensures r.Ok? ==>
                && Underway(schemas, before, trace, Tiers(States(rings), cursors), i + 1, 0)
                && Operations(trace) == Operations(done) + r.value
      ensures r.Err? ==> Stops(schemas, before, trace, States(rings))
    {
      trace := done;
      var operations := 0;
      if |schemas[i].tiers| < 2 {
        NextSchema(schemas, trace, i, 0);
        return Ok(0), trace;
      }
      for k := 0 to |schemas[i].tiers| - 1
        invariant Ready(schemas, rings)
        invariant Underway(schemas, before, trace, Tiers(States(rings), cursors), i, k)
        invariant Operations(trace) == Operations(done) + operations
      {
        ghost var mid := Tiers(States(rings), cursors);
        RingIsObject(rings, i, k + 1);
        var count, order := ConsolidateTierPair(rings, i, k, mid);
        if count.Err? {
          assert StopsAt(schemas, before, trace, States(rings), mid, i, k);
          return Err, trace;
        }
        OneMorePair(schemas, before, trace, mid, i, k, order);
        trace := trace + [PairTrace(i, k, order)];
        operations := operations + count.value;
      }
      NextSchema(schemas, trace, i, |schemas[i].tiers| - 1);
      return Ok(operations), trace;
    }

    /** All tier pairs of all schemas; the cursors are saved only when all succeed. */
    method Consolidate(rings: seq<seq<RingBuffer>>, ghost before: Tiers)
        returns (r: Result<nat>, ghost trace: seq<PairTrace>)
      requires Ready(schemas, rings) && this !in Objects(rings)
      requires before == Tiers(States(rings), cursors)
      modifies this, Objects(rings)
      ensures Ready(schemas, rings)
      ensures r.Ok? ==>
                && CoversAllPairs(schemas, trace)
                && Leads(schemas, before, trace, Tiers(States(rings), cursors))
                && r.value == Operations(trace) && saved == cursors
      ensures r.Err? <==> Stops(schemas, before, trace, States(rings))
      ensures r.Err? ==> saved == old(saved)
    {
      trace := [];
      var totalOperations := 0;
      for i := 0 to |schemas|
        invariant Ready(schemas, rings) && saved == old(saved)
        invariant Underway(schemas, before, trace, Tiers(States(rings), cursors), i, 0)
        invariant totalOperations == Operations(trace)
      {
        var operations;
        operations, trace := ConsolidateSchema(rings, i, before, trace);
        if operations.Err? {
          return Err, trace;
        }
        totalOperations := totalOperations + operations.value;
      }
      AllCovered(schemas, trace);
      CompleteNeverStops(schemas, before, trace, States(rings));
      saved := cursors;
      return Ok(totalOperations), trace;
    }
  }
}
