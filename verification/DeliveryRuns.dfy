/**
 What the export loop delivers over whole runs without a restart: for every
 series it drains what the exactly-once exporter of that series drains, and
 delivers all of it unless a push fails.
 */
module DeliveryRuns {
  import opened Wrappers
  import opened RingModel
  import opened SteadyRuns
  import Incremental
  import opened ColumnOrder
  import opened Exports
  import opened DrainReads
  import opened Delivery
  import ExportRuns
  import Sequences

  // ------------------------------------------------------ one series' share

  /** The times listed for a series, in order. */
  function TimesFor(stamps: seq<Stamp>, key: SeriesKey): seq<nat> {
    if stamps == [] then []
    else
      var last := stamps[|stamps| - 1];
      TimesFor(stamps[..|stamps| - 1], key) + (if last.0 == key then [last.1] else [])
  }

  function PointTimes(points: seq<Point>): (times: seq<nat>)
    ensures |times| == |points|
  {
    seq(|points|, i requires 0 <= i < |points| => points[i].0)
  }

  lemma TimesForAppend(stamps: seq<Stamp>, stamp: Stamp, key: SeriesKey)
    ensures TimesFor(stamps + [stamp], key) == TimesFor(stamps, key) + (if stamp.0 == key then [stamp.1] else [])
  {
    assert (stamps + [stamp])[..|stamps|] == stamps;
  }

  lemma {:induction false} TimesForConcat(x: seq<Stamp>, y: seq<Stamp>, key: SeriesKey)
    ensures TimesFor(x + y, key) == TimesFor(x, key) + TimesFor(y, key)
  {
    if y == [] {
      assert x + y == x;
    } else {
      var init, last := y[..|y| - 1], y[|y| - 1];
      TimesForConcat(x, init, key);
      TimesForConcatStep(x, init, last, key);
      Sequences.LastSplit(y);
    }
  }

  lemma TimesForConcatStep(x: seq<Stamp>, y: seq<Stamp>, last: Stamp, key: SeriesKey)
    requires TimesFor(x + y, key) == TimesFor(x, key) + TimesFor(y, key)
    ensures TimesFor(x + (y + [last]), key) == TimesFor(x, key) + TimesFor(y + [last], key)
  {
    TimesForAppend(x + y, last, key);
    TimesForAppend(y, last, key);
    Sequences.AppendAssoc(x, y, [last]);
    Sequences.AppendAssoc(TimesFor(x, key), TimesFor(y, key), if last.0 == key then [last.1] else []);
  }

  lemma {:induction false} TimesForPoints(key': SeriesKey, points: seq<Point>, key: SeriesKey)
    ensures TimesFor(PointStamps(key', points), key) == if key == key' then PointTimes(points) else []
  {
    if points != [] {
      var init, last := points[..|points| - 1], points[|points| - 1];
      TimesForPoints(key', init, key);
      TimesForOneMore(key', init, last, key);
      Sequences.LastSplit(points);
    }
  }

  lemma TimesForOneMore(key': SeriesKey, points: seq<Point>, last: Point, key: SeriesKey)
    requires TimesFor(PointStamps(key', points), key) == if key == key' then PointTimes(points) else []
    ensures TimesFor(PointStamps(key', points + [last]), key) == if key == key' then PointTimes(points + [last]) else []
  {
    StampsAndTimesAppend(key', points, last);
    TimesForAppend(PointStamps(key', points), (key', last.0), key);
  }

  lemma StampsAndTimesAppend(key: SeriesKey, points: seq<Point>, last: Point)
    ensures PointStamps(key, points + [last]) == PointStamps(key, points) + [(key, last.0)]
    ensures PointTimes(points + [last]) == PointTimes(points) + [last.0]
  {
  }

  lemma {:induction false} TimesForSomeone(stamps: seq<Stamp>, i: nat)
    requires i < |stamps|
    ensures TimesFor(stamps, stamps[i].0) != []
  {
    if i < |stamps| - 1 {
      TimesForSomeone(stamps[..|stamps| - 1], i);
    }
  }

  // ----------------------------------------------------- one series' drains

  /** The points a drain finds for a series, and the series' cursor afterwards. */
  ghost predicate SeriesShare(points: seq<Point>, cursors: map<SeriesKey, nat>, d: Drained, key: SeriesKey) {
    && TimesFor(Stamps(d.exports), key) == PointTimes(points)
    && CursorOf(d.cursors, key) == CursorOf(Advance(cursors, key, points), key)
  }

  ghost function ColumnPoints(r: Ring, schema: nat, handles: seq<Handle>, cursors: map<SeriesKey, nat>, c: nat): seq<Point>
    requires r.Shaped() && HandlesFit(handles, schema, |r.vals|)
  {
    if HasSeries(handles, schema, c) then
      var i :| 0 <= i < |handles| && handles[i].schema == schema && handles[i].column == c;
      assert c < |r.vals|;
      DrainPoints(r, c, CursorOf(cursors, (schema, 0, c)))
    else []
  }

  lemma {:induction false} DrainAllShare(r: Ring, schema: nat, handles: seq<Handle>, cursors: map<SeriesKey, nat>, c: nat)
    requires Placed(r) && HandlesFit(handles, schema, |r.vals|) && OwnColumns(handles)
    ensures SeriesShare(ColumnPoints(r, schema, handles, cursors, c), cursors,
                        DrainAll(r, schema, 0, handles, cursors), (schema, 0, c))
  {
    if handles != [] {
      var n := |handles| - 1;
      LastIsNew(handles);
      DrainAllShare(r, schema, handles[..n], cursors, c);
      DrainAllColumn(r, schema, handles[..n], cursors, c);
      HasSeriesSplits(handles, schema, c);
      if handles[n].schema == schema {
        OneMoreShare(r, schema, handles, cursors, DrainAll(r, schema, 0, handles[..n], cursors), c);
      }
    }
  }

  lemma OneMoreShare(r: Ring, schema: nat, handles: seq<Handle>, cursors: map<SeriesKey, nat>, d: Drained, c: nat)
    requires Placed(r) && handles != [] && HandlesFit(handles, schema, |r.vals|) && OwnColumns(handles)
    requires handles[|handles| - 1].schema == schema
    requires ColumnDrained(r, schema, handles[..|handles| - 1], cursors, d, c)
    requires SeriesShare(ColumnPoints(r, schema, handles[..|handles| - 1], cursors, c), cursors, d, (schema, 0, c))
    ensures var h := handles[|handles| - 1];
            var key := (schema, 0, h.column);
            var points := DrainPoints(r, h.column, CursorOf(d.cursors, key));
            var exports := if points == [] then d.exports else d.exports + [SeriesExport(h, points)];
            SeriesShare(ColumnPoints(r, schema, handles, cursors, c), cursors,
                        Drained(exports, Advance(d.cursors, key, points)), (schema, 0, c))
  {
    var h := handles[|handles| - 1];
    var key := (schema, 0, h.column);
    var points := DrainPoints(r, h.column, CursorOf(d.cursors, key));
    HasSeriesSplits(handles, schema, c);
    StampsAppend(d.exports, SeriesExport(h, points));
    TimesForConcat(Stamps(d.exports), PointStamps(key, points), (schema, 0, c));
    TimesForPoints(key, points, (schema, 0, c));
    LastIsNew(handles);
  }

  lemma {:induction false} NobodysTimes(stamps: seq<Stamp>, key: SeriesKey)
    requires forall t: nat :: (key, t) !in stamps
    ensures TimesFor(stamps, key) == []
  {
    if stamps != [] {
      var init, last := stamps[..|stamps| - 1], stamps[|stamps| - 1];
      forall t: nat ensures (key, t) !in init {
        assert (key, t) in init ==> (key, t) in stamps;
      }
      NobodysTimes(init, key);
      assert last in stamps;
      assert last == (last.0, last.1);
    }
  }

  /** What a drain of the first `k` schemas finds for a series. */
  ghost function StorePoints(rings: seq<Ring>, k: nat, handles: seq<Handle>, cursors: map<SeriesKey, nat>,
                             key: SeriesKey): seq<Point>
    requires k <= |rings| && RingsFit(rings, handles)
  {
    if key.0 < k && key.1 == 0 then ColumnPoints(rings[key.0], key.0, handles, cursors, key.2) else []
  }

  lemma {:induction false} DrainStoreShare(rings: seq<Ring>, k: nat, handles: seq<Handle>, cursors: map<SeriesKey, nat>,
                                           key: SeriesKey)
    requires k <= |rings| && RingsFit(rings, handles) && PlacedRings(rings, handles)
    ensures SeriesShare(StorePoints(rings, k, handles, cursors, key), cursors,
                        DrainStore(rings, k, handles, cursors), key)
  {
    if k > 0 {
      DrainStoreShare(rings, k - 1, handles, cursors, key);
      DrainStoreShareStep(rings, k, handles, cursors, key);
    }
  }

  lemma DrainStoreShareStep(rings: seq<Ring>, k: nat, handles: seq<Handle>, cursors: map<SeriesKey, nat>, key: SeriesKey)
    requires 0 < k <= |rings| && RingsFit(rings, handles) && PlacedRings(rings, handles)
    requires SeriesShare(StorePoints(rings, k - 1, handles, cursors, key), cursors,
                         DrainStore(rings, k - 1, handles, cursors), key)
    ensures SeriesShare(StorePoints(rings, k, handles, cursors, key), cursors,
                        DrainStore(rings, k, handles, cursors), key)
  {
    DrainStoreSeries(rings, k - 1, handles, cursors, key);
    DrainStoreStep(rings, k, handles, cursors);
    OneMoreSchemaShare(rings, k, handles, cursors, DrainStore(rings, k - 1, handles, cursors), key);
  }

  lemma OneMoreSchemaShare(rings: seq<Ring>, k: nat, handles: seq<Handle>, cursors: map<SeriesKey, nat>, d: Drained,
                           key: SeriesKey)
    requires 0 < k <= |rings| && RingsFit(rings, handles) && PlacedRings(rings, handles)
    requires SeriesShare(StorePoints(rings, k - 1, handles, cursors, key), cursors, d, key)
    requires SeriesDrained(rings, k - 1, handles, cursors, d, key)
    ensures var e := DrainAll(rings[k - 1], k - 1, 0, handles, d.cursors);
            SeriesShare(StorePoints(rings, k, handles, cursors, key), cursors,
                        Drained(d.exports + e.exports, e.cursors), key)
  {
    var e := DrainAll(rings[k - 1], k - 1, 0, handles, d.cursors);
    if key.0 == k - 1 && key.1 == 0 {
      DrainAllShare(rings[k - 1], k - 1, handles, d.cursors, key.2);
      SameColumnPoints(rings[k - 1], k - 1, handles, cursors, d.cursors, key.2);
      LaterShare(StorePoints(rings, k, handles, cursors, key), cursors, d, e, key);
    } else {
      DrainAllElsewhere(rings[k - 1], k - 1, handles, d.cursors, key);
      NobodysTimes(Stamps(e.exports), key);
      EarlierShare(StorePoints(rings, k, handles, cursors, key), cursors, d, e, key);
    }
  }

  /** What a drain finds for a series depends on no other series' cursor. */
  lemma SameColumnPoints(r: Ring, schema: nat, handles: seq<Handle>, x: map<SeriesKey, nat>, y: map<SeriesKey, nat>, c: nat)
    requires r.Shaped() && HandlesFit(handles, schema, |r.vals|)
    requires CursorOf(x, (schema, 0, c)) == CursorOf(y, (schema, 0, c))
    ensures ColumnPoints(r, schema, handles, x, c) == ColumnPoints(r, schema, handles, y, c)
  {
  }

  lemma LaterShare(points: seq<Point>, cursors: map<SeriesKey, nat>, d: Drained, e: Drained, key: SeriesKey)
    requires SeriesShare([], cursors, d, key) && SeriesShare(points, d.cursors, e, key)
    ensures SeriesShare(points, cursors, Drained(d.exports + e.exports, e.cursors), key)
  {
    StampsConcat(d.exports, e.exports);
    TimesForConcat(Stamps(d.exports), Stamps(e.exports), key);
    assert [] + PointTimes(points) == PointTimes(points);
  }

  lemma EarlierShare(points: seq<Point>, cursors: map<SeriesKey, nat>, d: Drained, e: Drained, key: SeriesKey)
    requires SeriesShare(points, cursors, d, key)
    requires TimesFor(Stamps(e.exports), key) == [] && CursorOf(e.cursors, key) == CursorOf(d.cursors, key)
    ensures SeriesShare(points, cursors, Drained(d.exports + e.exports, e.cursors), key)
  {
    StampsConcat(d.exports, e.exports);
    TimesForConcat(Stamps(d.exports), Stamps(e.exports), key);
    assert PointTimes(points) + [] == PointTimes(points);
  }

  // ------------------------------------------------------------ simulation

  /** A run, seen from one ring: its writes and the drains. */
  function StepsOf(events: seq<Event>, i: nat): seq<ExportRuns.ExportStep> {
    if events == [] then []
    else
      StepsOf(events[..|events| - 1], i) + match events[|events| - 1] {
        case Record(j, b) => if j == i then [ExportRuns.Write(b)] else []
        case Tick(_) => [ExportRuns.Drain]
        case Restart => []
      }
  }

  ghost predicate SeriesOk(s: Node, key: SeriesKey) {
    NodeOk(s) && key.0 < |s.rings| && key.1 == 0 && key.2 < |s.rings[key.0].vals|
  }

  /** The exactly-once exporter of a series, over the same run. */
  ghost function ExporterOf(start: Node, events: seq<Event>, key: SeriesKey): (e: ExportRuns.Exporter)
    requires SeriesOk(start, key)
    ensures ExportRuns.Ready(e, key.2)
  {
    ExportRuns.PerformAll(ExportRuns.Exporter(start.rings[key.0], None, [], [], []), key.2, StepsOf(events, key.0))
  }

  /** The node agrees with the exporter about the series. */
  ghost predicate Agrees(s: Node, e: ExportRuns.Exporter, key: SeriesKey) {
    && SeriesOk(s, key) && s.rings[key.0] == e.ring && CursorOf(s.cursors, key) == e.cursor
    && SharesOut(TimesFor(s.delivered, key), TimesFor(s.lost, key), PointTimes(e.out))
    && (s.lost == [] ==> TimesFor(s.delivered, key) == PointTimes(e.out))
  }

  /** What a tick finds for a series is what its exporter drains. */
  lemma TickShare(s: Node, e: ExportRuns.Exporter, key: SeriesKey) returns (points: seq<Point>)
    requires Sound(s) && SeriesOk(s, key) && HasSeries(s.handles, key.0, key.2)
    requires s.rings[key.0] == e.ring && CursorOf(s.cursors, key) == e.cursor
    ensures points == DrainPoints(e.ring, key.2, e.cursor) && SeriesShare(points, s.cursors, DrainNow(s), key)
    ensures DrainNow(s).exports == [] ==> points == []
    ensures DrainNow(s).exports != [] ==> Stamps(DrainNow(s).exports) != []
  {
    points := StorePoints(s.rings, |s.rings|, s.handles, s.cursors, key);
    DrainStoreShare(s.rings, |s.rings|, s.handles, s.cursors, key);
    ExportsAreStamped(s.rings, |s.rings|, s.handles, s.cursors);
  }

  lemma TickAgrees(s: Node, push: Push, e: ExportRuns.Exporter, key: SeriesKey)
    requires Sound(s) && Agrees(s, e, key) && HasSeries(s.handles, key.0, key.2)
    ensures Agrees(Happen(s, Tick(push)), ExportRuns.Perform(e, key.2, ExportRuns.Drain), key)
  {
    var points := TickShare(s, e, key);
    TimesAgree(s.delivered, s.lost, Stamps(DrainNow(s).exports), e.out, points, key);
  }

  /** What a drain adds to the deliveries or to the losses of a series, and to its exporter's output. */
  lemma TimesAgree(delivered: seq<Stamp>, lost: seq<Stamp>, stamps: seq<Stamp>, out: seq<Point>, points: seq<Point>,
                   key: SeriesKey)
    requires TimesFor(stamps, key) == PointTimes(points)
    requires SharesOut(TimesFor(delivered, key), TimesFor(lost, key), PointTimes(out))
    requires lost == [] ==> TimesFor(delivered, key) == PointTimes(out)
    ensures SharesOut(TimesFor(delivered + stamps, key), TimesFor(lost, key), PointTimes(out + points))
    ensures SharesOut(TimesFor(delivered, key), TimesFor(lost + stamps, key), PointTimes(out + points))
    ensures lost == [] ==> TimesFor(delivered + stamps, key) == PointTimes(out + points)
    ensures points == [] ==> out + points == out
  {
    TimesForConcat(delivered, stamps, key);
    TimesForConcat(lost, stamps, key);
    PointTimesConcat(out, points);
    OneMoreShared(TimesFor(delivered, key), TimesFor(lost, key), PointTimes(out), PointTimes(points));
  }

  lemma PointTimesConcat(x: seq<Point>, y: seq<Point>)
    ensures PointTimes(x + y) == PointTimes(x) + PointTimes(y)
  {
  }

  /** `x` and `y` together hold the times of `all`, each as often. */
  ghost predicate SharesOut(x: seq<nat>, y: seq<nat>, all: seq<nat>) {
    multiset(x) + multiset(y) == multiset(all)
  }

  lemma OneMoreShared(x: seq<nat>, y: seq<nat>, all: seq<nat>, more: seq<nat>)
    requires SharesOut(x, y, all)
    ensures SharesOut(x + more, y, all + more) && SharesOut(x, y + more, all + more)
  {
  }

  ghost predicate HavePoints(exports: seq<SeriesExport>) {
    forall i | 0 <= i < |exports| :: exports[i].points != []
  }

  lemma StampsAtLeast(exports: seq<SeriesExport>)
    requires HavePoints(exports)
    ensures exports != [] ==> Stamps(exports) != []
  {
    if exports != [] {
      var e := exports[|exports| - 1];
      assert |PointStamps((e.handle.schema, 0, e.handle.column), e.points)| > 0;
    }
  }

  lemma {:induction false} DrainAllExportsPoints(r: Ring, schema: nat, handles: seq<Handle>, cursors: map<SeriesKey, nat>)
    requires r.Shaped() && HandlesFit(handles, schema, |r.vals|)
    ensures HavePoints(DrainAll(r, schema, 0, handles, cursors).exports)
  {
    if handles != [] {
      var n := |handles| - 1;
      DrainAllExportsPoints(r, schema, handles[..n], cursors);
      var d, h := DrainAll(r, schema, 0, handles[..n], cursors), handles[n];
      if h.schema == schema {
        var points := DrainPoints(r, h.column, CursorOf(d.cursors, (schema, 0, h.column)));
        assert points != [] ==> HavePoints(d.exports + [SeriesExport(h, points)]);
      }
    }
  }

  lemma {:induction false} DrainStoreExportsPoints(rings: seq<Ring>, k: nat, handles: seq<Handle>,
                                                   cursors: map<SeriesKey, nat>)
    requires k <= |rings| && RingsFit(rings, handles)
    ensures HavePoints(DrainStore(rings, k, handles, cursors).exports)
  {
    if k > 0 {
      DrainStoreExportsPoints(rings, k - 1, handles, cursors);
      DrainStoreStep(rings, k, handles, cursors);
      DrainAllExportsPoints(rings[k - 1], k - 1, handles, DrainStore(rings, k - 1, handles, cursors).cursors);
    }
  }

  /** A drain that exports something has a sample to show. */
  lemma ExportsAreStamped(rings: seq<Ring>, k: nat, handles: seq<Handle>, cursors: map<SeriesKey, nat>)
    requires k <= |rings| && RingsFit(rings, handles)
    ensures var d := DrainStore(rings, k, handles, cursors); d.exports != [] ==> Stamps(d.exports) != []
  {
    DrainStoreExportsPoints(rings, k, handles, cursors);
    StampsAtLeast(DrainStore(rings, k, handles, cursors).exports);
  }

  /** A run without a restart drains for each exported series what its exporter drains. */
  lemma {:induction false} RunAgrees(start: Node, events: seq<Event>, s: Node, key: SeriesKey)
    requires IsStart(start) && Reaches(NoRestarts, start, events, s)
    requires SeriesOk(start, key) && HasSeries(start.handles, key.0, key.2)
    ensures Agrees(s, ExporterOf(start, events, key), key) && s.handles == start.handles
    decreases |events|
  {
    if events != [] {
      var n := |events| - 1;
      var mid := LastEvent(NoRestarts, start, events, s);
      RunAgrees(start, events[..n], mid, key);
      ReachableIsSound(NoRestarts, start, events[..n], mid);
      OneMoreStep(start, events, key);
      EventAgrees(mid, events[n], ExporterOf(start, events[..n], key), key);
    }
  }

  /** What an event of a run is to one series. */
  ghost function PerformEvent(e: ExportRuns.Exporter, event: Event, key: SeriesKey): ExportRuns.Exporter
    requires ExportRuns.Ready(e, key.2)
  {
    match event
    case Record(j, b) => if j == key.0 then ExportRuns.Perform(e, key.2, ExportRuns.Write(b)) else e
    case Tick(_) => ExportRuns.Perform(e, key.2, ExportRuns.Drain)
    case Restart => e
  }

  lemma EventAgrees(s: Node, event: Event, e: ExportRuns.Exporter, key: SeriesKey)
    requires Sound(s) && Allows(NoRestarts, s, event) && ExportRuns.Ready(e, key.2)
    requires Agrees(s, e, key) && HasSeries(s.handles, key.0, key.2)
    ensures Agrees(Happen(s, event), PerformEvent(e, event, key), key)
  {
    if event.Tick? {
      TickAgrees(s, event.push, e, key);
    }
  }

  lemma OneMoreStep(start: Node, events: seq<Event>, key: SeriesKey)
    requires SeriesOk(start, key) && events != []
    ensures var n := |events| - 1;
            var e := ExporterOf(start, events[..n], key);
            ExporterOf(start, events, key) == PerformEvent(e, events[n], key)
  {
    var n := |events| - 1;
    var init, steps := StepsOf(events[..n], key.0), StepsOf(events, key.0);
    if |steps| > |init| {
      assert steps[..|steps| - 1] == init;
    } else {
      assert init + [] == init;
    }
  }

  // --------------------------------------------------------------- theorem

  lemma {:induction false} NothingLostIff(start: Node, events: seq<Event>, s: Node)
    requires IsStart(start) && Reaches(NoRestarts, start, events, s)
    ensures s.lost == [] <==> Reaches(NoLosses, start, events, s)
    decreases |events|
  {
    if events != [] {
      var n := |events| - 1;
      var mid := LastEvent(NoRestarts, start, events, s);
      NothingLostIff(start, events[..n], mid);
      ExportsAreStamped(mid.rings, |mid.rings|, mid.handles, mid.cursors);
      if s.lost == [] {
        assert Via(NoLosses, start, events, mid, s);
      }
      if Reaches(NoLosses, start, events, s) {
        var mid' := LastEvent(NoLosses, start, events, s);
        SameState(NoRestarts, NoLosses, start, events[..n], mid, mid');
      }
    }
  }

  /** A series that is exported, written once a bucket, and drained before anything is overwritten. */
  ghost predicate Timely(start: Node, events: seq<Event>, h: Handle)
    requires SeriesOk(start, (h.schema, 0, h.column))
  {
    var e, blank := ExporterOf(start, events, (h.schema, 0, h.column)), start.rings[h.schema];
    Steady(blank, e.log, h.column) && ExportRuns.DrainedInTime(e.marks, |blank.ts|)
  }

  ghost predicate AllTimely(start: Node, events: seq<Event>)
    requires NodeOk(start)
  {
    forall i | 0 <= i < |start.handles| && start.handles[i].schema < |start.rings| ::
      Timely(start, events, start.handles[i])
  }

  /** The series was delivered in full: the times delivered are those of its log up to the last tick. */
  ghost predicate DeliveredInFull(start: Node, events: seq<Event>, s: Node, h: Handle)
    requires SeriesOk(start, (h.schema, 0, h.column))
  {
    var e := ExporterOf(start, events, (h.schema, 0, h.column));
    && Incremental.LastCut(e.marks) <= |e.log|
    && TimesFor(s.delivered, (h.schema, 0, h.column))
       == PointTimes(Incremental.AllPoints(e.log[..Incremental.LastCut(e.marks)], h.column))
  }

  ghost predicate AllDelivered(start: Node, events: seq<Event>, s: Node)
    requires NodeOk(start)
  {
    forall i | 0 <= i < |start.handles| && start.handles[i].schema < |start.rings| ::
      DeliveredInFull(start, events, s, start.handles[i])
  }

  lemma TimelyExporter(start: Node, events: seq<Event>, h: Handle)
    requires IsStart(start) && SeriesOk(start, (h.schema, 0, h.column)) && Timely(start, events, h)
    ensures var e := ExporterOf(start, events, (h.schema, 0, h.column));
            && Incremental.LastCut(e.marks) <= |e.log|
            && e.out == Incremental.AllPoints(e.log[..Incremental.LastCut(e.marks)], h.column)
  {
    var e0 := ExportRuns.Exporter(start.rings[h.schema], None, [], [], []);
    ExportRuns.TimelyExportIsComplete(e0, start.rings[h.schema], h.column, StepsOf(events, h.schema));
  }

  lemma HandleIsSeries(start: Node, i: nat)
    requires NodeOk(start) && i < |start.handles| && start.handles[i].schema < |start.rings|
    ensures SeriesOk(start, (start.handles[i].schema, 0, start.handles[i].column))
    ensures HasSeries(start.handles, start.handles[i].schema, start.handles[i].column)
  {
  }

  /** A lost sample belongs to some exported series, which then lacks it. */
  lemma LossShows(start: Node, events: seq<Event>, s: Node)
    requires IsStart(start) && Reaches(NoRestarts, start, events, s) && AllTimely(start, events) && s.lost != []
    ensures !AllDelivered(start, events, s)
  {
    var stamp := s.lost[0];
    LostIsExported(start, events, s, 0);
    var i :| 0 <= i < |start.handles| && start.handles[i].schema == stamp.0.0 && start.handles[i].column == stamp.0.2;
    HandleIsSeries(start, i);
    RunAgrees(start, events, s, stamp.0);
    TimelyExporter(start, events, start.handles[i]);
    TimesForSomeone(s.lost, 0);
    ShortOfAll(TimesFor(s.delivered, stamp.0), TimesFor(s.lost, stamp.0), PointTimes(ExporterOf(start, events, stamp.0).out));
    assert !DeliveredInFull(start, events, s, start.handles[i]);
  }

  lemma ShortOfAll(x: seq<nat>, y: seq<nat>, all: seq<nat>)
    requires SharesOut(x, y, all) && y != []
    ensures x != all
  {
    assert |multiset(x) + multiset(y)| == |multiset(all)|;
  }

  /** The sample's series is exported. */
  ghost predicate Exported(s: Node, stamp: Stamp) {
    stamp.0.0 < |s.rings| && stamp.0.1 == 0 && HasSeries(s.handles, stamp.0.0, stamp.0.2)
  }

  lemma {:induction false} LostIsExported(start: Node, events: seq<Event>, s: Node, j: nat)
    requires IsStart(start) && Reaches(NoRestarts, start, events, s) && j < |s.lost|
    ensures Exported(start, s.lost[j])
    decreases |events|
  {
    var n := |events| - 1;
    var mid := LastEvent(NoRestarts, start, events, s);
    ReachableIsSound(NoRestarts, start, events[..n], mid);
    SameShape(NoRestarts, start, events[..n], mid);
    if j < |mid.lost| {
      LostIsExported(start, events[..n], mid, j);
    }
    NewlyLostIsExported(mid, events[n], j);
  }

  lemma NewlyLostIsExported(s: Node, event: Event, j: nat)
    requires Sound(s) && Allows(NoRestarts, s, event) && j < |Happen(s, event).lost|
    ensures if j < |s.lost| then Happen(s, event).lost[j] == s.lost[j] else Exported(s, Happen(s, event).lost[j])
  {
    if j >= |s.lost| {
      var stamp := Happen(s, event).lost[j];
      assert stamp in Stamps(DrainNow(s).exports);
      DrainedIffDue(s, stamp);
    }
  }

  lemma {:induction false} SameShape(rule: Rule, start: Node, events: seq<Event>, s: Node)
    requires NodeOk(start) && Reaches(rule, start, events, s)
    ensures s.handles == start.handles && |s.rings| == |start.rings|
    decreases |events|
  {
    if events != [] {
      var mid := LastEvent(rule, start, events, s);
      SameShape(rule, start, events[..|events| - 1], mid);
    }
  }

  /**
   What a failed push costs. Over any run without a restart, with every exported
   series written once a bucket and drained in time: every series is delivered
   in full, up to the last tick, exactly when no tick that drained something
   failed to push it.
   */
  lemma DeliveredInFullIff(start: Node, events: seq<Event>, s: Node)
    requires IsStart(start) && Reaches(NoRestarts, start, events, s) && AllTimely(start, events)
    ensures AllDelivered(start, events, s) <==> Reaches(NoLosses, start, events, s)
  {
    NothingLostIff(start, events, s);
    if s.lost == [] {
      forall i | 0 <= i < |start.handles| && start.handles[i].schema < |start.rings|
        ensures DeliveredInFull(start, events, s, start.handles[i])
      {
        HandleIsSeries(start, i);
        RunAgrees(start, events, s, (start.handles[i].schema, 0, start.handles[i].column));
        TimelyExporter(start, events, start.handles[i]);
      }
    } else {
      LossShows(start, events, s);
    }
  }

  // ------------------------------------------------ what the cursor has passed

  ghost predicate Passed(s: Node, stamp: Stamp) {
    match CursorOf(s.cursors, stamp.0)
    case Some(x) => stamp.1 <= x
    case None => false
  }

  lemma TickKeepsPassed(s: Node, push: Push, stamp: Stamp)
    requires Sound(s) && Passed(s, stamp)
    ensures Passed(Happen(s, Tick(push)), stamp) && stamp !in Stamps(DrainNow(s).exports)
  {
    var key := stamp.0;
    DrainedIffDue(s, stamp);
    DrainStoreShare(s.rings, |s.rings|, s.handles, s.cursors, key);
    var points := StorePoints(s.rings, |s.rings|, s.handles, s.cursors, key);
    if points != [] {
      DrainGoesForward(s.rings[key.0], key.2, CursorOf(s.cursors, key), |points| - 1);
    }
  }

  /**
   A sample at or before its series' cursor that was not delivered (its push
   failed, or it came late) stays undelivered in every later run, whatever is
   written, as long as nothing restarts.
   */
  lemma {:induction false} PassedIsNeverDelivered(s: Node, events: seq<Event>, s': Node, stamp: Stamp)
    requires Sound(s) && Passed(s, stamp) && stamp !in s.delivered
    requires Reaches(NoRestarts, s, events, s')
    ensures Sound(s') && Passed(s', stamp) && stamp !in s'.delivered
    decreases |events|
  {
    if events != [] {
      var n := |events| - 1;
      var mid := LastEvent(NoRestarts, s, events, s');
      PassedIsNeverDelivered(s, events[..n], mid, stamp);
      EventKeepsSound(mid, events[n]);
      if events[n].Tick? {
        TickKeepsPassed(mid, events[n].push, stamp);
      }
    }
  }
}
