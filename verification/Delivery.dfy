/**
 The export loop of the VMM as a state machine: writes at any times, ticks that
 drain every series and push the result, failed pushes, lost cursor saves and
 restarts. These lemmas say what a tick drains and when a sample is delivered twice.
 */
module Delivery {
  import opened Wrappers
  import opened RingModel
  import opened RingRuns
  import opened RingOrder
  import opened ColumnOrder
  import opened Exports
  import opened DrainReads
  import Sequences

  /** A delivered sample: the series and its timestamp. */
  type Stamp = (SeriesKey, nat)

  datatype Push = PushFailed | PushedAndSaved | PushedNotSaved

  datatype Event = Record(schema: nat, batch: Batch) | Tick(push: Push) | Restart

  /**
   `rings` are the finest rings of the schemas. `delivered` lists what was pushed
   successfully and `lost` what failed pushes had drained; the first `savedCount`
   deliveries came no later than the last save of the cursor.
   */
  datatype Node = Node(rings: seq<Ring>, handles: seq<Handle>, cursors: map<SeriesKey, nat>,
                       saved: map<SeriesKey, nat>, delivered: seq<Stamp>, lost: seq<Stamp>, savedCount: nat)

  ghost predicate NodeOk(s: Node) {
    RingsFit(s.rings, s.handles) && OwnColumns(s.handles)
  }

  /** No two handles name the same series, as the registry sees to. */
  ghost predicate OwnColumns(handles: seq<Handle>) {
    forall i, j | 0 <= i < j < |handles| :: handles[i].schema == handles[j].schema ==> handles[i].column != handles[j].column
  }

  /** Every handle names a column of its schema's ring. */
  ghost predicate RingsFit(rings: seq<Ring>, handles: seq<Handle>) {
    && (forall i: nat | i < |rings| :: rings[i].Shaped())
    && forall i: nat | i < |rings| :: HandlesFit(handles, i, |rings[i].vals|)
  }

  /** A store with one tier a schema. */
  function Singles(rings: seq<Ring>): (rows: seq<seq<Ring>>)
    ensures |rows| == |rings| && forall i | 0 <= i < |rings| :: rows[i] == [rings[i]]
  {
    seq(|rings|, i requires 0 <= i < |rings| => [rings[i]])
  }

  /** Draining tier 0 of the first `k` schemas. */
  ghost function DrainStore(rings: seq<Ring>, k: nat, handles: seq<Handle>, cursors: map<SeriesKey, nat>): Drained
    requires k <= |rings| && RingsFit(rings, handles)
  {
    DrainSchemas(Singles(rings), 0, k, handles, cursors)
  }

  lemma DrainStoreStep(rings: seq<Ring>, k: nat, handles: seq<Handle>, cursors: map<SeriesKey, nat>)
    requires 0 < k <= |rings| && RingsFit(rings, handles)
    ensures var d := DrainStore(rings, k - 1, handles, cursors);
            var e := DrainAll(rings[k - 1], k - 1, 0, handles, d.cursors);
            DrainStore(rings, k, handles, cursors) == Drained(d.exports + e.exports, e.cursors)
  {
  }

  /** The finest ring of each schema. */
  function Finest(rings: seq<seq<Ring>>): (r: seq<Ring>)
    requires forall i | 0 <= i < |rings| :: rings[i] != []
    ensures |r| == |rings|
  {
    seq(|rings|, i requires 0 <= i < |rings| && rings[i] != [] => rings[i][0])
  }

  /** This is what `Store.Drain` computes at tier 0 of a store whose schemas all have tiers. */
  lemma {:induction false} DrainStoreIsTierZero(rings: seq<seq<Ring>>, k: nat, handles: seq<Handle>,
                                                cursors: map<SeriesKey, nat>)
    requires (forall i | 0 <= i < |rings| :: rings[i] != []) && k <= |rings|
    requires TierFits(rings, 0, handles) && RingsFit(Finest(rings), handles)
    ensures DrainSchemas(rings, 0, k, handles, cursors) == DrainStore(Finest(rings), k, handles, cursors)
  {
    if k > 0 {
      DrainStoreIsTierZero(rings, k - 1, handles, cursors);
      DrainStoreStep(Finest(rings), k, handles, cursors);
    }
  }

  function PointStamps(key: SeriesKey, points: seq<Point>): (stamps: seq<Stamp>)
    ensures |stamps| == |points|
  {
    seq(|points|, i requires 0 <= i < |points| => (key, points[i].0))
  }

  function Stamps(exports: seq<SeriesExport>): seq<Stamp> {
    if exports == [] then []
    else
      var e := exports[|exports| - 1];
      Stamps(exports[..|exports| - 1]) + PointStamps((e.handle.schema, 0, e.handle.column), e.points)
  }

  /** Writes are accepted by their ring; ticks and restarts may come at any point. */
  ghost predicate Possible(s: Node, event: Event)
    requires NodeOk(s)
  {
    event.Record? ==> event.schema < |s.rings| && Writable(event.batch, |s.rings[event.schema].vals|)
  }

  /** What a drain of all series yields now. */
  ghost function DrainNow(s: Node): Drained
    requires NodeOk(s)
  {
    DrainStore(s.rings, |s.rings|, s.handles, s.cursors)
  }

  ghost function Happen(s: Node, event: Event): (s': Node)
    requires NodeOk(s) && (event.Record? ==> event.schema < |s.rings|)
    ensures NodeOk(s')
  {
    match event
    case Record(i, b) => s.(rings := s.rings[i := s.rings[i].Write(b)])
    case Tick(push) =>
      var d := DrainNow(s);
      if d.exports == [] then s.(cursors := d.cursors)
      else
        (match push
         case PushFailed => s.(cursors := d.cursors, lost := s.lost + Stamps(d.exports))
         case PushedAndSaved =>
           s.(cursors := d.cursors, saved := d.cursors, delivered := s.delivered + Stamps(d.exports),
              savedCount := |s.delivered + Stamps(d.exports)|)
         case PushedNotSaved =>
           s.(cursors := d.cursors, delivered := s.delivered + Stamps(d.exports)))
    case Restart =>
      s.(rings := seq(|s.rings|, i requires 0 <= i < |s.rings| && s.rings[i].Shaped() => s.rings[i].Reopened()),
         cursors := s.saved)
  }

  /**
   Which runs to look at: all; those that keep every exported column in time
   order and restart only with nothing unsaved; those that never push a due
   delivery; those that never restart; of these, those in which no tick that
   drains something fails to push it.
   */
  datatype Rule = AnyRun | SavedRestarts | CleanPushes | NoRestarts | NoLosses

  ghost predicate HasSeries(handles: seq<Handle>, schema: nat, c: nat) {
    exists i :: 0 <= i < |handles| && handles[i].schema == schema && handles[i].column == c
  }

  /** A write suits every exported column of its ring. */
  ghost predicate KeepsColumns(s: Node, event: Event)
    requires NodeOk(s) && Possible(s, event)
  {
    event.Record? ==>
      forall c: nat | HasSeries(s.handles, event.schema, c) ::
        c < |s.rings[event.schema].vals| && SuitsColumn(s.rings[event.schema], event.batch, c)
  }

  ghost predicate Allows(rule: Rule, s: Node, event: Event)
    requires NodeOk(s)
  {
    && Possible(s, event)
    && match rule
       case AnyRun => true
       case SavedRestarts => KeepsColumns(s, event) && (event.Restart? ==> s.savedCount == |s.delivered|)
       case CleanPushes => event.Tick? && !event.push.PushFailed? ==> !DueTwice(s)
       case NoRestarts => !event.Restart?
       case NoLosses => !event.Restart? && (event == Tick(PushFailed) ==> DrainNow(s).exports == [])
  }

  ghost predicate Reaches(rule: Rule, s: Node, events: seq<Event>, s': Node)
    requires NodeOk(s)
    decreases |events|
  {
    if events == [] then s' == s
    else exists mid :: Via(rule, s, events, mid, s')
  }

  ghost predicate Via(rule: Rule, s: Node, events: seq<Event>, mid: Node, s': Node)
    requires NodeOk(s) && events != []
    decreases |events|, 0
  {
    var n := |events| - 1;
    Reaches(rule, s, events[..n], mid) && NodeOk(mid) && Allows(rule, mid, events[n]) && s' == Happen(mid, events[n])
  }

  ghost predicate IsStart(s: Node) {
    && NodeOk(s) && (forall i | 0 <= i < |s.rings| :: IsBlank(s.rings[i]))
    && s.cursors == map[] && s.saved == map[] && s.delivered == [] && s.lost == [] && s.savedCount == 0
  }

  // ------------------------------------------------------- what is drained

  /** The sample's series is exported, and the next drain of it returns the sample. */
  ghost predicate DueIn(r: Ring, schema: nat, handles: seq<Handle>, cursors: map<SeriesKey, nat>, c: nat, t: nat)
    requires r.Shaped()
  {
    HasSeries(handles, schema, c) && Due(r, c, CursorOf(cursors, (schema, 0, c)), t)
  }

  ghost predicate DueNow(s: Node, stamp: Stamp)
    requires NodeOk(s)
  {
    && stamp.0.0 < |s.rings| && stamp.0.1 == 0
    && DueIn(s.rings[stamp.0.0], stamp.0.0, s.handles, s.cursors, stamp.0.2, stamp.1)
  }

  /** Some sample that was delivered is due again. */
  ghost predicate DueTwice(s: Node)
    requires NodeOk(s)
  {
    exists i :: 0 <= i < |s.delivered| && DueNow(s, s.delivered[i])
  }

  /** Every ring is one that writes and reopens can produce. */
  ghost predicate Sound(s: Node) {
    NodeOk(s) && forall i: nat | i < |s.rings| :: Placed(s.rings[i])
  }

  lemma HasSeriesSplits(handles: seq<Handle>, schema: nat, c: nat)
    requires handles != []
    ensures var n := |handles| - 1;
            HasSeries(handles, schema, c) <==>
            HasSeries(handles[..n], schema, c) || (handles[n].schema == schema && handles[n].column == c)
  {
    var n := |handles| - 1;
    if HasSeries(handles[..n], schema, c) {
      var i :| 0 <= i < n && handles[..n][i].schema == schema && handles[..n][i].column == c;
      assert handles[i].schema == schema;
    }
    if i :| 0 <= i < n && handles[i].schema == schema && handles[i].column == c {
      assert handles[..n][i].schema == schema;
    }
  }

  lemma PointStampsIff(key: SeriesKey, points: seq<Point>, stamp: Stamp)
    ensures stamp in PointStamps(key, points) <==> stamp.0 == key && Shows(points, stamp.1)
  {
    var stamps := PointStamps(key, points);
    if stamp.0 == key && Shows(points, stamp.1) {
      var i :| 0 <= i < |points| && points[i].0 == stamp.1;
      assert stamps[i] == stamp;
    }
  }

  /** The handles before the last name other series. */
  lemma LastIsNew(handles: seq<Handle>)
    requires handles != [] && OwnColumns(handles)
    ensures var n := |handles| - 1;
            OwnColumns(handles[..n]) && !HasSeries(handles[..n], handles[n].schema, handles[n].column)
  {
  }

  /** What draining the handles of a schema does for one of its columns. */
  ghost predicate ColumnDrained(r: Ring, schema: nat, handles: seq<Handle>, cursors: map<SeriesKey, nat>, d: Drained,
                                c: nat)
    requires r.Shaped()
  {
    var key := (schema, 0, c);
    && (forall t: nat :: (key, t) in Stamps(d.exports) <==> DueIn(r, schema, handles, cursors, c, t))
    && (!HasSeries(handles, schema, c) ==> CursorOf(d.cursors, key) == CursorOf(cursors, key))
  }

  lemma {:induction false} DrainAllColumn(r: Ring, schema: nat, handles: seq<Handle>, cursors: map<SeriesKey, nat>, c: nat)
    requires Placed(r) && HandlesFit(handles, schema, |r.vals|) && OwnColumns(handles)
    ensures ColumnDrained(r, schema, handles, cursors, DrainAll(r, schema, 0, handles, cursors), c)
  {
    if handles != [] {
      var n := |handles| - 1;
      LastIsNew(handles);
      DrainAllColumn(r, schema, handles[..n], cursors, c);
      HasSeriesSplits(handles, schema, c);
      if handles[n].schema == schema {
        OneMoreHandle(r, schema, handles, cursors, DrainAll(r, schema, 0, handles[..n], cursors), c);
      }
    }
  }

  lemma OneMoreHandle(r: Ring, schema: nat, handles: seq<Handle>, cursors: map<SeriesKey, nat>, d: Drained, c: nat)
    requires Placed(r) && handles != [] && HandlesFit(handles, schema, |r.vals|) && OwnColumns(handles)
    requires handles[|handles| - 1].schema == schema
    requires ColumnDrained(r, schema, handles[..|handles| - 1], cursors, d, c)
    ensures var h := handles[|handles| - 1];
            var key := (schema, 0, h.column);
            var points := DrainPoints(r, h.column, CursorOf(d.cursors, key));
            var exports := if points == [] then d.exports else d.exports + [SeriesExport(h, points)];
            ColumnDrained(r, schema, handles, cursors, Drained(exports, Advance(d.cursors, key, points)), c)
  {
    var h := handles[|handles| - 1];
    var key := (schema, 0, h.column);
    var points := DrainPoints(r, h.column, CursorOf(d.cursors, key));
    var exports := if points == [] then d.exports else d.exports + [SeriesExport(h, points)];
    HasSeriesSplits(handles, schema, c);
    LastIsNew(handles);
    forall t: nat
      ensures ((schema, 0, c), t) in Stamps(exports) <==> DueIn(r, schema, handles, cursors, c, t)
    {
      StampsAppend(d.exports, SeriesExport(h, points));
      PointStampsIff(key, points, ((schema, 0, c), t));
      DrainShowsDue(r, h.column, CursorOf(d.cursors, key), t);
    }
  }

  /** Draining one schema leaves the series of the others alone. */
  lemma {:induction false} DrainAllElsewhere(r: Ring, schema: nat, handles: seq<Handle>, cursors: map<SeriesKey, nat>,
                                             key: SeriesKey)
    requires r.Shaped() && HandlesFit(handles, schema, |r.vals|) && (key.0 != schema || key.1 != 0)
    ensures var d := DrainAll(r, schema, 0, handles, cursors);
            CursorOf(d.cursors, key) == CursorOf(cursors, key) && forall t: nat :: (key, t) !in Stamps(d.exports)
  {
    if handles != [] {
      var n := |handles| - 1;
      var h, d := handles[n], DrainAll(r, schema, 0, handles[..n], cursors);
      DrainAllElsewhere(r, schema, handles[..n], cursors, key);
      if h.schema == schema {
        var points := DrainPoints(r, h.column, CursorOf(d.cursors, (schema, 0, h.column)));
        StampsAppend(d.exports, SeriesExport(h, points));
        forall t: nat ensures (key, t) !in PointStamps((schema, 0, h.column), points) {
          PointStampsIff((schema, 0, h.column), points, (key, t));
        }
      }
    }
  }

  ghost predicate PlacedRings(rings: seq<Ring>, handles: seq<Handle>) {
    OwnColumns(handles) && forall i: nat | i < |rings| :: Placed(rings[i])
  }

  /** A drain of the first `k` schemas, seen from one series. */
  ghost predicate SeriesDrained(rings: seq<Ring>, k: nat, handles: seq<Handle>, cursors: map<SeriesKey, nat>, d: Drained,
                                key: SeriesKey)
    requires k <= |rings| && forall i: nat | i < |rings| :: rings[i].Shaped()
  {
    if key.0 < k && key.1 == 0 then ColumnDrained(rings[key.0], key.0, handles, cursors, d, key.2)
    else CursorOf(d.cursors, key) == CursorOf(cursors, key) && forall t: nat :: (key, t) !in Stamps(d.exports)
  }

  lemma {:induction false} DrainStoreSeries(rings: seq<Ring>, k: nat, handles: seq<Handle>, cursors: map<SeriesKey, nat>,
                                            key: SeriesKey)
    requires k <= |rings| && RingsFit(rings, handles) && PlacedRings(rings, handles)
    ensures SeriesDrained(rings, k, handles, cursors, DrainStore(rings, k, handles, cursors), key)
  {
    if k > 0 {
      DrainStoreSeries(rings, k - 1, handles, cursors, key);
      DrainStoreStep(rings, k, handles, cursors);
      OneMoreSchema(rings, k, handles, cursors, DrainStore(rings, k - 1, handles, cursors), key);
    }
  }

  lemma OneMoreSchema(rings: seq<Ring>, k: nat, handles: seq<Handle>, cursors: map<SeriesKey, nat>, d: Drained,
                      key: SeriesKey)
    requires 0 < k <= |rings| && RingsFit(rings, handles) && PlacedRings(rings, handles)
    requires SeriesDrained(rings, k - 1, handles, cursors, d, key)
    ensures var e := DrainAll(rings[k - 1], k - 1, 0, handles, d.cursors);
            SeriesDrained(rings, k, handles, cursors, Drained(d.exports + e.exports, e.cursors), key)
  {
    var e := DrainAll(rings[k - 1], k - 1, 0, handles, d.cursors);
    if key.0 == k - 1 && key.1 == 0 {
      DrainAllColumn(rings[k - 1], k - 1, handles, d.cursors, key.2);
      NewColumn(rings[k - 1], k - 1, handles, cursors, d, e, key.2);
    } else {
      DrainAllElsewhere(rings[k - 1], k - 1, handles, d.cursors, key);
      SameStamps(d, e, key);
    }
  }

  lemma SameStamps(d: Drained, e: Drained, key: SeriesKey)
    requires forall t: nat :: (key, t) !in Stamps(e.exports)
    ensures forall t: nat :: (key, t) in Stamps(d.exports + e.exports) <==> (key, t) in Stamps(d.exports)
  {
    StampsConcat(d.exports, e.exports);
  }

  lemma NewColumn(r: Ring, schema: nat, handles: seq<Handle>, cursors: map<SeriesKey, nat>, d: Drained, e: Drained, c: nat)
    requires r.Shaped() && ColumnDrained(r, schema, handles, d.cursors, e, c)
    requires CursorOf(d.cursors, (schema, 0, c)) == CursorOf(cursors, (schema, 0, c))
    requires forall t: nat :: ((schema, 0, c), t) !in Stamps(d.exports)
    ensures ColumnDrained(r, schema, handles, cursors, Drained(d.exports + e.exports, e.cursors), c)
  {
    StampsConcat(d.exports, e.exports);
  }

  /**
   A tick drains exactly the due samples: those of exported series in a visible
   slot, after the series' cursor, and not after the ring's newest write.
   */
  lemma DrainedIffDue(s: Node, stamp: Stamp)
    requires Sound(s)
    ensures stamp in Stamps(DrainNow(s).exports) <==> DueNow(s, stamp)
  {
    DrainStoreSeries(s.rings, |s.rings|, s.handles, s.cursors, stamp.0);
  }

  // ---------------------------------------------------------- duplicates

  ghost predicate NoDuplicates(stamps: seq<Stamp>) {
    forall i, j | 0 <= i < j < |stamps| :: stamps[i] != stamps[j]
  }

  lemma StampsAppend(exports: seq<SeriesExport>, e: SeriesExport)
    ensures Stamps(exports + [e]) == Stamps(exports) + PointStamps((e.handle.schema, 0, e.handle.column), e.points)
  {
    assert (exports + [e])[..|exports|] == exports;
  }

  lemma {:induction false} StampsConcat(x: seq<SeriesExport>, y: seq<SeriesExport>)
    ensures Stamps(x + y) == Stamps(x) + Stamps(y)
  {
    if y == [] {
      assert x + y == x;
    } else {
      var init, e := y[..|y| - 1], y[|y| - 1];
      StampsConcat(x, init);
      StampsConcatStep(x, init, e);
      Sequences.LastSplit(y);
    }
  }

  lemma StampsConcatStep(x: seq<SeriesExport>, y: seq<SeriesExport>, e: SeriesExport)
    requires Stamps(x + y) == Stamps(x) + Stamps(y)
    ensures Stamps(x + (y + [e])) == Stamps(x) + Stamps(y + [e])
  {
    StampsAppend(x + y, e);
    StampsAppend(y, e);
    Sequences.AppendAssoc(x, y, [e]);
    Sequences.AppendAssoc(Stamps(x), Stamps(y), PointStamps((e.handle.schema, 0, e.handle.column), e.points));
  }

  lemma DuplicatesJoin(x: seq<Stamp>, y: seq<Stamp>)
    ensures NoDuplicates(x + y) <==> NoDuplicates(x) && NoDuplicates(y) && forall stamp | stamp in x :: stamp !in y
  {
    var all := x + y;
    if NoDuplicates(all) {
      forall i, j | 0 <= i < j < |x| ensures x[i] != x[j] { assert all[i] != all[j]; }
      forall i, j | 0 <= i < j < |y| ensures y[i] != y[j] { assert all[|x| + i] != all[|x| + j]; }
      forall stamp | stamp in x ensures stamp !in y {
        var i :| 0 <= i < |x| && x[i] == stamp;
        forall j | 0 <= j < |y| ensures y[j] != stamp { assert all[i] != all[|x| + j]; }
      }
    } else {
      var i, j :| 0 <= i < j < |all| && all[i] == all[j];
      assert i < |x| <= j ==> x[i] in x && y[j - |x|] in y;
    }
  }

  lemma {:induction false} DrainAllDiffers(r: Ring, schema: nat, handles: seq<Handle>, cursors: map<SeriesKey, nat>)
    requires Placed(r) && HandlesFit(handles, schema, |r.vals|) && OwnColumns(handles)
    ensures NoDuplicates(Stamps(DrainAll(r, schema, 0, handles, cursors).exports))
  {
    if handles != [] {
      var n := |handles| - 1;
      LastIsNew(handles);
      DrainAllDiffers(r, schema, handles[..n], cursors);
      if handles[n].schema == schema {
        DrainAllColumn(r, schema, handles[..n], cursors, handles[n].column);
        OneMoreDiffers(r, handles[n], cursors, DrainAll(r, schema, 0, handles[..n], cursors));
      }
    }
  }

  lemma OneMoreDiffers(r: Ring, h: Handle, cursors: map<SeriesKey, nat>, d: Drained)
    requires Placed(r) && h.column < |r.vals| && NoDuplicates(Stamps(d.exports))
    requires forall t: nat :: ((h.schema, 0, h.column), t) !in Stamps(d.exports)
    ensures var points := DrainPoints(r, h.column, CursorOf(d.cursors, (h.schema, 0, h.column)));
            NoDuplicates(Stamps(d.exports + [SeriesExport(h, points)]))
  {
    var key := (h.schema, 0, h.column);
    var points := DrainPoints(r, h.column, CursorOf(d.cursors, key));
    DrainTimesDiffer(r, h.column, CursorOf(d.cursors, key));
    StampsAppend(d.exports, SeriesExport(h, points));
    DuplicatesJoin(Stamps(d.exports), PointStamps(key, points));
  }

  lemma {:induction false} DrainStoreDiffers(rings: seq<Ring>, k: nat, handles: seq<Handle>, cursors: map<SeriesKey, nat>)
    requires k <= |rings| && RingsFit(rings, handles) && PlacedRings(rings, handles)
    ensures NoDuplicates(Stamps(DrainStore(rings, k, handles, cursors).exports))
  {
    if k > 0 {
      var d := DrainStore(rings, k - 1, handles, cursors);
      DrainStoreDiffers(rings, k - 1, handles, cursors);
      DrainStoreStep(rings, k, handles, cursors);
      DrainAllDiffers(rings[k - 1], k - 1, handles, d.cursors);
      StampsConcat(d.exports, DrainAll(rings[k - 1], k - 1, 0, handles, d.cursors).exports);
      forall stamp | stamp in Stamps(d.exports)
        ensures stamp !in Stamps(DrainAll(rings[k - 1], k - 1, 0, handles, d.cursors).exports)
      {
        assert stamp == (stamp.0, stamp.1);
        DrainStoreSeries(rings, k - 1, handles, cursors, stamp.0);
        DrainAllElsewhere(rings[k - 1], k - 1, handles, d.cursors, stamp.0);
      }
      DuplicatesJoin(Stamps(d.exports), Stamps(DrainAll(rings[k - 1], k - 1, 0, handles, d.cursors).exports));
    }
  }

  /** One tick drains no sample twice. */
  lemma NewStampsDiffer(s: Node)
    requires Sound(s)
    ensures NoDuplicates(Stamps(DrainNow(s).exports))
  {
    DrainStoreDiffers(s.rings, |s.rings|, s.handles, s.cursors);
  }

  /**
   Any successful push, in any state whose rings writes and reopens can produce:
   what was delivered stays free of duplicates exactly when none of it is due.
   */
  lemma PushRepeatsIff(s: Node, push: Push)
    requires Sound(s) && !push.PushFailed?
    ensures NoDuplicates(Happen(s, Tick(push)).delivered) <==> NoDuplicates(s.delivered) && !DueTwice(s)
  {
    var added := Stamps(DrainNow(s).exports);
    NewStampsDiffer(s);
    DuplicatesJoin(s.delivered, added);
    forall stamp ensures stamp in added <==> DueNow(s, stamp) {
      DrainedIffDue(s, stamp);
    }
    if DueTwice(s) {
      var i :| 0 <= i < |s.delivered| && DueNow(s, s.delivered[i]);
      assert s.delivered[i] in added;
    }
  }

  // ------------------------------------------------------------ whole runs

  lemma EventKeepsSound(s: Node, event: Event)
    requires Sound(s) && Possible(s, event)
    ensures Sound(Happen(s, event))
  {
    match event {
      case Record(i, b) => WriteKeepsPlaced(s.rings[i], b);
      case Tick(_) =>
      case Restart =>
        forall i: nat | i < |s.rings| ensures Placed(s.rings[i].Reopened()) {
          ReopenKeepsPlaced(s.rings[i]);
        }
    }
  }

  lemma StartIsSound(s: Node)
    requires IsStart(s)
    ensures Sound(s)
  {
    forall i: nat | i < |s.rings| ensures Placed(s.rings[i]) {
      BlankIsConsistent(s.rings[i].interval, |s.rings[i].ts|, |s.rings[i].vals|);
    }
  }

  lemma {:induction false} ReachableIsSound(rule: Rule, start: Node, events: seq<Event>, s: Node)
    requires IsStart(start) && Reaches(rule, start, events, s)
    ensures Sound(s)
    decreases |events|
  {
    if events == [] {
      StartIsSound(s);
    } else {
      var mid :| Via(rule, start, events, mid, s);
      ReachableIsSound(rule, start, events[..|events| - 1], mid);
      EventKeepsSound(mid, events[|events| - 1]);
    }
  }

  lemma EventRepeatsIff(s: Node, event: Event)
    requires Sound(s) && Possible(s, event)
    ensures NoDuplicates(Happen(s, event).delivered) <==>
            NoDuplicates(s.delivered) && Allows(CleanPushes, s, event)
  {
    if event.Tick? && !event.push.PushFailed? {
      PushRepeatsIff(s, event.push);
    }
  }

  /**
   When delivery is at most once, over any run of accepted writes in any time
   order, pushes that succeed, fail or lose their save, and restarts at any
   point: no sample is delivered twice exactly when no push finds a delivered
   sample due.
   */
  lemma {:induction false} AtMostOnceIff(start: Node, events: seq<Event>, s: Node)
    requires IsStart(start) && Reaches(AnyRun, start, events, s)
    ensures NoDuplicates(s.delivered) <==> Reaches(CleanPushes, start, events, s)
    decreases |events|
  {
    if events != [] {
      var n := |events| - 1;
      var mid :| Via(AnyRun, start, events, mid, s);
      AtMostOnceIff(start, events[..n], mid);
      ReachableIsSound(AnyRun, start, events[..n], mid);
      EventRepeatsIff(mid, events[n]);
      if NoDuplicates(s.delivered) {
        assert Via(CleanPushes, start, events, mid, s);
      }
      if Reaches(CleanPushes, start, events, s) {
        var mid' := LastEvent(CleanPushes, start, events, s);
        SameState(AnyRun, CleanPushes, start, events[..n], mid, mid');
      }
    }
  }

  lemma LastEvent(rule: Rule, start: Node, events: seq<Event>, s: Node) returns (mid: Node)
    requires NodeOk(start) && events != [] && Reaches(rule, start, events, s)
    ensures Via(rule, start, events, mid, s)
  {
    mid :| Via(rule, start, events, mid, s);
  }

  /** The events determine the state. */
  lemma {:induction false} SameState(rule: Rule, rule': Rule, start: Node, events: seq<Event>, x: Node, y: Node)
    requires NodeOk(start) && Reaches(rule, start, events, x) && Reaches(rule', start, events, y)
    ensures x == y
    decreases |events|
  {
    if events != [] {
      var n := |events| - 1;
      var a :| Via(rule, start, events, a, x);
      var b :| Via(rule', start, events, b, y);
      SameState(rule, rule', start, events[..n], a, b);
    }
  }

  // -------------------------------------------------------------- restarts

  /** A read of the reopened ring comes by this slot: the cells alone decide it. */
  ghost predicate Reached(r: Ring, s: nat)
    requires r.Shaped() && s < |r.ts|
  {
    r.ts[r.cursor] != 0 && (s <= r.cursor || r.ts[r.cursor + 1] != 0)
  }

  lemma ReachedIsVisible(r: Ring, s: nat)
    requires r.Shaped() && s < |r.ts|
    ensures Visible(r.Reopened(), s) <==> Reached(r, s)
  {
    NextSlot(r.cursor, |r.ts|);
  }

  /** The ring holds the sample where a reopen still reaches it, and it lies after the saved cursor. */
  ghost predicate Returns(r: Ring, c: nat, saved: Option<nat>, t: nat)
    requires r.Shaped()
  {
    && c < |r.vals| && InWindow(r.Reopened(), saved, t)
    && exists s: nat :: HeldAt(r, c, t, s) && Reached(r, s)
  }

  lemma ReturnsIffDue(r: Ring, c: nat, saved: Option<nat>, t: nat)
    requires r.Shaped()
    ensures Due(r.Reopened(), c, saved, t) <==> Returns(r, c, saved, t)
  {
    if c < |r.vals| {
      var o := r.Reopened();
      forall s: nat ensures VisibleAt(o, c, t, s) <==> HeldAt(r, c, t, s) && Reached(r, s) {
        if s < |r.ts| {
          ReachedIsVisible(r, s);
        }
      }
    }
  }

  /** A delivery that a restart makes due again. */
  ghost predicate ReturnsAfterRestart(s: Node, i: nat)
    requires NodeOk(s)
  {
    && i < |s.delivered|
    && var (key, t) := s.delivered[i];
       && key.0 < |s.rings| && key.1 == 0 && HasSeries(s.handles, key.0, key.2)
       && Returns(s.rings[key.0], key.2, CursorOf(s.saved, key), t)
  }

  /**
   A restart in any reachable state, whatever order its writes came in: the next
   successful push delivers nothing twice exactly when nothing was delivered twice
   before and no delivery is left where the restart reaches it after the saved cursor.
   */
  lemma RestartRepeatsIff(start: Node, events: seq<Event>, s: Node, push: Push)
    requires IsStart(start) && Reaches(AnyRun, start, events, s) && NodeOk(s) && !push.PushFailed?
    ensures NoDuplicates(Happen(Happen(s, Restart), Tick(push)).delivered) <==>
            NoDuplicates(s.delivered) && forall i: nat | i < |s.delivered| :: !ReturnsAfterRestart(s, i)
  {
    ReachableIsSound(AnyRun, start, events, s);
    EventKeepsSound(s, Restart);
    PushRepeatsIff(Happen(s, Restart), push);
    RestartOwesIff(s);
  }

  lemma RestartOwesIff(s: Node)
    requires NodeOk(s)
    ensures DueTwice(Happen(s, Restart)) <==> exists i: nat :: ReturnsAfterRestart(s, i)
  {
    var s' := Happen(s, Restart);
    forall i: nat | i < |s.delivered| ensures DueNow(s', s'.delivered[i]) <==> ReturnsAfterRestart(s, i) {
      var key := s.delivered[i].0;
      if key.0 < |s.rings| {
        ReturnsIffDue(s.rings[key.0], key.2, CursorOf(s.saved, key), s.delivered[i].1);
      }
    }
    if DueTwice(s') {
      var i :| 0 <= i < |s'.delivered| && DueNow(s', s'.delivered[i]);
      assert ReturnsAfterRestart(s, i);
    }
  }
}
