/**
 Delivery when every exported column stays in time order and every restart finds
 the cursor saved: at most once. One restart with something unsaved: only the unsaved
 deliveries can come back.
 */
module SavedDelivery {
  import opened RingModel
  import opened RingOrder
  import opened ColumnOrder
  import opened Exports
  import opened DrainReads
  import opened Delivery
  import Sequences

  // ---------------------------------------------------------------- drains

  /** Every stamp is covered by the cursor of its series. */
  ghost predicate Covered(stamps: seq<Stamp>, cursors: map<SeriesKey, nat>) {
    forall i | 0 <= i < |stamps| :: stamps[i].0 in cursors && stamps[i].1 <= cursors[stamps[i].0]
  }

  ghost predicate Ahead(before: map<SeriesKey, nat>, after: map<SeriesKey, nat>) {
    forall key | key in before :: key in after && before[key] <= after[key]
  }

  lemma AdvanceCovers(stamps: seq<Stamp>, cursors: map<SeriesKey, nat>, key: SeriesKey, points: seq<Point>)
    requires NoDuplicates(stamps) && Covered(stamps, cursors) && StrictlyIncreasing(points)
    requires forall i | 0 <= i < |points| && key in cursors :: cursors[key] < points[i].0
    ensures var all := stamps + PointStamps(key, points);
            NoDuplicates(all) && Covered(all, Advance(cursors, key, points))
    ensures Ahead(cursors, Advance(cursors, key, points))
  {
    var added := PointStamps(key, points);
    forall i, j | 0 <= i < |stamps| && 0 <= j < |added| ensures stamps[i] != added[j] {
      assert stamps[i].0 in cursors;
    }
    forall j | 0 <= j < |added| ensures points[j].0 <= points[|points| - 1].0 {
    }
  }

  ghost predicate DrainedNew(stamps: seq<Stamp>, cursors: map<SeriesKey, nat>, d: Drained) {
    NoDuplicates(stamps + Stamps(d.exports)) && Covered(stamps + Stamps(d.exports), d.cursors) && Ahead(cursors, d.cursors)
  }

  ghost predicate HandlesOrdered(r: Ring, schema: nat, handles: seq<Handle>)
    requires r.Shaped() && HandlesFit(handles, schema, |r.vals|)
  {
    forall j: nat | j < |handles| && handles[j].schema == schema :: OrderedIn(r, handles[j].column)
  }

  lemma {:induction false} DrainAllIsNew(stamps: seq<Stamp>, r: Ring, schema: nat, handles: seq<Handle>,
                                         cursors: map<SeriesKey, nat>)
    requires Placed(r) && HandlesFit(handles, schema, |r.vals|) && HandlesOrdered(r, schema, handles)
    requires NoDuplicates(stamps) && Covered(stamps, cursors)
    ensures DrainedNew(stamps, cursors, DrainAll(r, schema, 0, handles, cursors))
  {
    if handles == [] {
      assert stamps + [] == stamps;
    } else {
      var n := |handles| - 1;
      var h, d := handles[n], DrainAll(r, schema, 0, handles[..n], cursors);
      DrainAllIsNew(stamps, r, schema, handles[..n], cursors);
      if h.schema == schema {
        var key := (schema, 0, h.column);
        var points := DrainPoints(r, h.column, CursorOf(d.cursors, key));
        DrainIncreases(r, h.column, CursorOf(d.cursors, key));
        forall i | 0 <= i < |points| && key in d.cursors ensures d.cursors[key] < points[i].0 {
          DrainGoesForward(r, h.column, CursorOf(d.cursors, key), i);
        }
        AdvanceCovers(stamps + Stamps(d.exports), d.cursors, key, points);
        if points != [] {
          StampsAppend(d.exports, SeriesExport(h, points));
          Sequences.AppendAssoc(stamps, Stamps(d.exports), PointStamps(key, points));
        }
      }
    }
  }

  lemma DrainedJoins(stamps: seq<Stamp>, cursors: map<SeriesKey, nat>, d: Drained, e: Drained)
    requires DrainedNew(stamps, cursors, d) && DrainedNew(stamps + Stamps(d.exports), d.cursors, e)
    requires Stamps(d.exports + e.exports) == Stamps(d.exports) + Stamps(e.exports)
    ensures DrainedNew(stamps, cursors, Drained(d.exports + e.exports, e.cursors))
  {
    Sequences.AppendAssoc(stamps, Stamps(d.exports), Stamps(e.exports));
  }

  lemma DrainOneMore(stamps: seq<Stamp>, r: Ring, schema: nat, handles: seq<Handle>, cursors: map<SeriesKey, nat>,
                     d: Drained)
    requires Placed(r) && HandlesFit(handles, schema, |r.vals|) && HandlesOrdered(r, schema, handles)
    requires DrainedNew(stamps, cursors, d)
    ensures var e := DrainAll(r, schema, 0, handles, d.cursors);
            DrainedNew(stamps, cursors, Drained(d.exports + e.exports, e.cursors))
  {
    var e := DrainAll(r, schema, 0, handles, d.cursors);
    DrainAllIsNew(stamps + Stamps(d.exports), r, schema, handles, d.cursors);
    StampsConcat(d.exports, e.exports);
    DrainedJoins(stamps, cursors, d, e);
  }

  lemma {:induction false} DrainStoreIsNew(stamps: seq<Stamp>, rings: seq<Ring>, k: nat, handles: seq<Handle>,
                                           cursors: map<SeriesKey, nat>)
    requires k <= |rings| && RingsFit(rings, handles) && (forall i: nat | i < |rings| :: Placed(rings[i]))
    requires ColumnsOrdered(rings, handles)
    requires NoDuplicates(stamps) && Covered(stamps, cursors)
    ensures DrainedNew(stamps, cursors, DrainStore(rings, k, handles, cursors))
  {
    if k == 0 {
      assert stamps + [] == stamps;
    } else {
      DrainStoreIsNew(stamps, rings, k - 1, handles, cursors);
      DrainOneMore(stamps, rings[k - 1], k - 1, handles, cursors, DrainStore(rings, k - 1, handles, cursors));
    }
  }

  // ------------------------------------------------------- runs kept in order

  /** Every exported column is in time order. */
  ghost predicate ColumnsOrdered(rings: seq<Ring>, handles: seq<Handle>)
    requires RingsFit(rings, handles)
  {
    forall i: nat, j: nat | i < |rings| && j < |handles| && handles[j].schema == i :: OrderedIn(rings[i], handles[j].column)
  }

  lemma StartIsOrdered(s: Node)
    requires IsStart(s)
    ensures ColumnsOrdered(s.rings, s.handles)
  {
  }

  /** The order depends on the cells and the cursor alone, so it survives any restart. */
  lemma ReopenKeepsColumn(r: Ring, c: nat)
    requires r.Shaped() && c < |r.vals| && OrderedIn(r, c)
    ensures OrderedIn(r.Reopened(), c)
  {
    var o := r.Reopened();
    forall x: nat, y: nat | Shown(o, c, x) && Shown(o, c, y) && Rank(o, x) < Rank(o, y) ensures o.ts[x] < o.ts[y] {
      assert Shown(r, c, x) && Shown(r, c, y) && Rank(r, x) < Rank(r, y);
    }
  }

  lemma EventKeepsColumns(s: Node, event: Event)
    requires Sound(s) && ColumnsOrdered(s.rings, s.handles) && Possible(s, event) && KeepsColumns(s, event)
    ensures ColumnsOrdered(Happen(s, event).rings, s.handles)
  {
    var rings := Happen(s, event).rings;
    forall i: nat, j: nat | i < |rings| && j < |s.handles| && s.handles[j].schema == i
      ensures OrderedIn(rings[i], s.handles[j].column)
    {
      if event.Restart? {
        ReopenKeepsColumn(s.rings[i], s.handles[j].column);
      } else if event.Record? && event.schema == i {
        WriteKeepsColumnIff(s.rings[i], event.batch, s.handles[j].column);
      }
    }
  }

  /** What is delivered lies before the cursor, and what was delivered by the last save before the saved one. */
  ghost predicate Inv(s: Node) {
    && Sound(s) && ColumnsOrdered(s.rings, s.handles) && NoDuplicates(s.delivered) && Covered(s.delivered, s.cursors)
    && s.savedCount <= |s.delivered| && Covered(s.delivered[..s.savedCount], s.saved)
  }

  lemma AheadCovers(stamps: seq<Stamp>, before: map<SeriesKey, nat>, after: map<SeriesKey, nat>)
    requires Covered(stamps, before) && Ahead(before, after)
    ensures Covered(stamps, after)
  {
  }

  lemma TickKeepsInv(s: Node, push: Push)
    requires Inv(s)
    ensures Inv(Happen(s, Tick(push)))
  {
    var d, s' := DrainNow(s), Happen(s, Tick(push));
    DrainStoreIsNew(s.delivered, s.rings, |s.rings|, s.handles, s.cursors);
    AheadCovers(s.delivered, s.cursors, d.cursors);
    if push.PushedNotSaved? && d.exports != [] {
      assert s'.delivered[..s.savedCount] == s.delivered[..s.savedCount];
    }
    if push.PushedAndSaved? && d.exports != [] {
      assert s'.delivered[..s'.savedCount] == s'.delivered;
    }
  }

  lemma EventKeepsInv(s: Node, event: Event)
    requires Inv(s) && Allows(SavedRestarts, s, event)
    ensures Inv(Happen(s, event))
  {
    EventKeepsSound(s, event);
    EventKeepsColumns(s, event);
    match event {
      case Record(_, _) =>
      case Tick(push) => TickKeepsInv(s, push);
      case Restart => assert s.delivered[..s.savedCount] == s.delivered;
    }
  }

  /**
   At most once: over any run whose writes suit every exported column, with ticks
   that succeed, fail or lose their save, and restarts when nothing is unsaved,
   no sample is delivered twice.
   */
  lemma {:induction false} DeliveryIsAtMostOnce(start: Node, events: seq<Event>, s: Node)
    requires IsStart(start) && Reaches(SavedRestarts, start, events, s)
    ensures Inv(s) && NoDuplicates(s.delivered)
    decreases |events|
  {
    if events == [] {
      StartIsSound(s);
      StartIsOrdered(s);
    } else {
      var mid :| Via(SavedRestarts, start, events, mid, s);
      DeliveryIsAtMostOnce(start, events[..|events| - 1], mid);
      EventKeepsInv(mid, events[|events| - 1]);
    }
  }

  /**
   The first restart with something unsaved, after such a run: the next
   successful push delivers a sample again exactly when one delivered since the
   last save is left where the restart reaches it after the saved cursor.
   */
  lemma OnlyUnsavedRepeats(start: Node, events: seq<Event>, s: Node, push: Push)
    requires IsStart(start) && Reaches(SavedRestarts, start, events, s) && NodeOk(s) && !push.PushFailed?
    ensures !NoDuplicates(Happen(Happen(s, Restart), Tick(push)).delivered) <==>
            exists i: nat | s.savedCount <= i < |s.delivered| :: ReturnsAfterRestart(s, i)
  {
    DeliveryIsAtMostOnce(start, events, s);
    EventKeepsSound(s, Restart);
    PushRepeatsIff(Happen(s, Restart), push);
    RestartOwesIff(s);
    OnlyUnsavedReturns(s);
  }

  lemma OnlyUnsavedReturns(s: Node)
    requires Inv(s)
    ensures (exists i: nat :: ReturnsAfterRestart(s, i)) <==>
            exists i: nat | s.savedCount <= i < |s.delivered| :: ReturnsAfterRestart(s, i)
  {
    forall i: nat | ReturnsAfterRestart(s, i) ensures s.savedCount <= i < |s.delivered| {
      if i < s.savedCount {
        SavedNeverReturns(s, i);
      }
    }
  }

  lemma SavedNeverReturns(s: Node, i: nat)
    requires Inv(s) && i < s.savedCount
    ensures !ReturnsAfterRestart(s, i)
  {
    assert s.delivered[..s.savedCount][i] == s.delivered[i];
  }
}
