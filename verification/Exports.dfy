/** Draining a ring through an export cursor. */
module Exports {
  import opened Wrappers
  import opened RingModel
  import opened RingBuffers

  /** Schema index, tier index, series column. */
  type SeriesKey = (nat, nat, nat)

  datatype Handle = Handle(schema: nat, id: nat, column: nat)

  datatype SeriesExport = SeriesExport(handle: Handle, points: seq<Point>)

  function CursorOf(cursors: map<SeriesKey, nat>, key: SeriesKey): Option<nat> {
    if key in cursors then Some(cursors[key]) else None
  }

  /** The points a drain returns when the series was last exported at `last`. */
  function DrainPoints(r: Ring, c: nat, last: Option<nat>): seq<Point>
    requires r.Shaped() && c < |r.vals|
  {
    if r.Oldest().None? || r.Newest().None? then []
    else
      var start := match last case Some(t) => t + 1 case None => r.Oldest().value;
      if start > r.Newest().value then [] else r.Read(c, start, r.Newest().value + 1)
  }

  function Advance(cursors: map<SeriesKey, nat>, key: SeriesKey, points: seq<Point>): map<SeriesKey, nat> {
    if points == [] then cursors else cursors[key := points[|points| - 1].0]
  }

  class ExportCursor {
    var cursors: map<SeriesKey, nat>

    constructor (cursors: map<SeriesKey, nat>)
      ensures this.cursors == cursors
    {
      this.cursors := cursors;
    }
  }

  method DrainSeries(ring: RingBuffer, schema: nat, tier: nat, column: nat, cursor: ExportCursor)
      returns (points: seq<Point>)
    requires ring.Valid() && column < ring.vals.Length0
    modifies cursor
    ensures points == DrainPoints(ring.State(), column, CursorOf(old(cursor.cursors), (schema, tier, column)))
    ensures cursor.cursors == Advance(old(cursor.cursors), (schema, tier, column), points)
  {
    var key := (schema, tier, column);
    var oldest := ring.OldestTimestamp();
    var newest := ring.NewestTimestamp();
    if oldest.None? || newest.None? {
      return [];
    }
    var start := if key in cursor.cursors then cursor.cursors[key] + 1 else oldest.value;
    if start > newest.value {
      return [];
    }
    var iter := ring.Read(column, start, newest.value + 1);
    points := iter.value.Collect();
    if points != [] {
      cursor.cursors := cursor.cursors[key := points[|points| - 1].0];
    }
  }

  // ------------------------------------------------------------ whole tiers

  datatype Drained = Drained(exports: seq<SeriesExport>, cursors: map<SeriesKey, nat>)

  ghost predicate HandlesFit(handles: seq<Handle>, schema: nat, columns: nat) {
    forall i | 0 <= i < |handles| :: handles[i].schema == schema ==> handles[i].column < columns
  }

  /** Draining the series of one schema and tier, one after the other. */
  function DrainAll(r: Ring, schema: nat, tier: nat, handles: seq<Handle>, cursors: map<SeriesKey, nat>): Drained
    requires r.Shaped() && HandlesFit(handles, schema, |r.vals|)
  {
    if handles == [] then Drained([], cursors)
    else
      var n := |handles| - 1;
      var d := DrainAll(r, schema, tier, handles[..n], cursors);
      var h := handles[n];
      if h.schema != schema then d
      else
        var key := (schema, tier, h.column);
        var points := DrainPoints(r, h.column, CursorOf(d.cursors, key));
        Drained(if points == [] then d.exports else d.exports + [SeriesExport(h, points)],
                Advance(d.cursors, key, points))
  }

  method DrainTier(ring: RingBuffer, schema: nat, tier: nat, handles: seq<Handle>, cursor: ExportCursor)
      returns (exports: seq<SeriesExport>)
    requires ring.Valid() && HandlesFit(handles, schema, ring.vals.Length0)
    modifies cursor
    ensures Drained(exports, cursor.cursors)
            == DrainAll(ring.State(), schema, tier, handles, old(cursor.cursors))
  {
    exports := [];
    for i := 0 to |handles|
      invariant Drained(exports, cursor.cursors)
                == DrainAll(ring.State(), schema, tier, handles[..i], old(cursor.cursors))
    {
      assert handles[..i + 1][..i] == handles[..i];
      var handle := handles[i];
      if handle.schema == schema {
        var points := DrainSeries(ring, schema, tier, handle.column, cursor);
        if points != [] {
          exports := exports + [SeriesExport(handle, points)];
        }
      }
    }
    assert handles[..|handles|] == handles;
  }

  // ------------------------------------------------------------ whole stores

  ghost predicate TierFits(rings: seq<seq<Ring>>, tier: nat, handles: seq<Handle>) {
    forall i: nat | i < |rings| && tier < |rings[i]| ::
      rings[i][tier].Shaped() && HandlesFit(handles, i, |rings[i][tier].vals|)
  }

  /** Draining one tier of the first `k` schemas; a schema without that tier is passed over. */
  ghost function DrainSchemas(rings: seq<seq<Ring>>, tier: nat, k: nat, handles: seq<Handle>,
                              cursors: map<SeriesKey, nat>): Drained
    requires k <= |rings| && TierFits(rings, tier, handles)
  {
    if k == 0 then Drained([], cursors)
    else
      var d := DrainSchemas(rings, tier, k - 1, handles, cursors);
      if tier >= |rings[k - 1]| then d
      else
        var e := DrainAll(rings[k - 1][tier], k - 1, tier, handles, d.cursors);
        Drained(d.exports + e.exports, e.cursors)
  }
}
