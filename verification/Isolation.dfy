/** Recording through the handles of some series and the value cells of the others. */
module Isolation {
  import opened Floats
  import opened RingModel
  import opened Schemas
  import opened Exports
  import opened Registry
  import opened Stores
  import Passes

  /** The cells of a series: its column in every tier of its schema. */
  ghost predicate SameCells(before: seq<seq<Ring>>, after: seq<seq<Ring>>, h: Handle) {
    && h.schema < |before| && |after| == |before| && |after[h.schema]| == |before[h.schema]|
    && forall t | 0 <= t < |before[h.schema]| ::
         && h.column < |before[h.schema][t].vals| && h.column < |after[h.schema][t].vals|
         && after[h.schema][t].vals[h.column] == before[h.schema][t].vals[h.column]
  }

  ghost predicate RingsHave(rings: seq<seq<Ring>>, h: Handle) {
    h.schema < |rings| && forall t | 0 <= t < |rings[h.schema]| :: h.column < |rings[h.schema][t].vals|
  }

  /** Every entry goes to a registered series other than `l`. */
  ghost predicate ToOthers(s: State, entries: seq<(Handle, Float)>, l: Key) {
    forall i | 0 <= i < |entries| :: IsOthers(s, entries[i].0, l)
  }

  ghost predicate IsOthers(s: State, h: Handle, l: Key) {
    exists k :: k in s.series && k != l && s.series[k].handle == h
  }

  /**
   In every registry that keeps its invariant, recording a batch for any series
   leaves every value cell of every other series alone, in every tier, also when
   the batch fails after some of its schemas were written.
   */
  lemma BatchIsolatesSeries(schemas: seq<SchemaConfig>, s: State, l: Key, before: seq<seq<Ring>>,
                            after: seq<seq<Ring>>, entries: seq<(Handle, Float)>, time: nat, done: set<nat>)
    requires Invariant(schemas, s) && l in s.series && ToOthers(s, entries, l)
    requires RingsHave(before, s.series[l].handle) && BatchRecorded(before, after, entries, time, done)
    ensures SameCells(before, after, s.series[l].handle)
  {
    var h := s.series[l].handle;
    forall i | 0 <= i < |entries| ensures !GoesTo(entries[i], h.schema, h.column) {
      assert IsOthers(s, entries[i].0, l);
      var k :| k in s.series && k != l && s.series[k].handle == entries[i].0;
      SeriesHaveOwnColumns(schemas, s, k, l);
    }
    if h.schema in done {
      ColumnKept(before[h.schema], after[h.schema], entries, h, time);
    }
  }

  lemma ColumnKept(before: seq<Ring>, after: seq<Ring>, entries: seq<(Handle, Float)>, h: Handle, time: nat)
    requires before != [] && |after| == |before| && after[1..] == before[1..] && !HasColumn(entries, h.schema, h.column)
    requires RingRecorded(before[0], after[0], entries, h.schema, time)
    requires forall t | 0 <= t < |before| :: h.column < |before[t].vals|
    ensures forall t | 0 <= t < |before| ::
              h.column < |after[t].vals| && after[t].vals[h.column] == before[t].vals[h.column]
  {
    assert after[0].vals[h.column] == before[0].vals[h.column];
    forall t | 1 <= t < |before| ensures after[t] == before[t] {
      assert after[1..][t - 1] == before[1..][t - 1];
    }
  }

  /** The same for a single sample. */
  lemma RecordIsolatesSeries(schemas: seq<SchemaConfig>, s: State, k: Key, l: Key, before: seq<seq<Ring>>,
                             value: Float, time: nat)
    requires Invariant(schemas, s) && k in s.series && l in s.series && k != l
    requires RingsHave(before, s.series[l].handle) && RingsHave(before, s.series[k].handle)
    requires var h := s.series[k].handle; before[h.schema] != [] && before[h.schema][0].Shaped()
    ensures var h := s.series[k].handle;
            var written := before[h.schema][0].Write(Batch(time, [(h.column, value)]));
            SameCells(before, before[h.schema := before[h.schema][0 := written]], s.series[l].handle)
  {
    var h := s.series[k].handle;
    var r, b := before[h.schema][0], Batch(time, [(h.column, value)]);
    SeriesHaveOwnColumns(schemas, s, k, l);
    Passes.SingleLookup(h.column, value, s.series[l].handle.column);
    if s.series[l].handle.schema == h.schema {
      assert r.Write(b).vals[s.series[l].handle.column] == r.vals[s.series[l].handle.column];
    }
  }
}
