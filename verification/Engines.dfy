/** The two loops of a consolidation pass: collecting points into windows, and writing the aggregates. */
module Engines {
  import opened Wrappers
  import opened Floats
  import opened RingModel
  import opened RingBuffers
  import opened Schemas
  import opened Passes
  import Sequences

  /** The values collected per window start and column. */
  type Windows = map<nat, map<nat, seq<Float>>>

  function AddPoint(windows: Windows, w: nat, c: nat, v: Float): Windows {
    var data := if w in windows then windows[w] else map[];
    windows[w := data[c := (if c in data then data[c] else []) + [v]]]
  }

  ghost predicate HasCell(windows: Windows, w: nat, c: nat) {
    w in windows && c in windows[w]
  }

  /** Columns below `done` are grouped completely, column `done` up to `seen`. */
  ghost predicate Grouped(windows: Windows, src: Ring, pair: TierPair, last: nat, done: nat, seen: seq<Point>)
    requires src.Shaped() && pair.destInterval > 0 && pair.maxSeries <= |src.vals|
  {
    forall w: nat, c: nat ::
      && (HasCell(windows, w, c) <==> CellValues(src, pair, last, done, seen, w, c) != [])
      && (HasCell(windows, w, c) ==> windows[w][c] == CellValues(src, pair, last, done, seen, w, c))
  }

  ghost function CellValues(src: Ring, pair: TierPair, last: nat, done: nat, seen: seq<Point>, w: nat, c: nat): seq<Float>
    requires src.Shaped() && pair.destInterval > 0 && pair.maxSeries <= |src.vals|
  {
    if c < done && c < pair.maxSeries then StartValues(PassRead(src, pair, last, c), pair.destInterval, w)
    else if c == done then StartValues(seen, pair.destInterval, w)
    else []
  }

  lemma AddPointGroups(windows: Windows, src: Ring, pair: TierPair, last: nat, done: nat, seen: seq<Point>, p: Point)
    requires src.Shaped() && pair.destInterval > 0 && pair.maxSeries <= |src.vals|
    requires Grouped(windows, src, pair, last, done, seen)
    ensures Grouped(AddPoint(windows, p.0 / pair.destInterval * pair.destInterval, done, p.1),
                    src, pair, last, done, seen + [p])
  {
    var w0 := p.0 / pair.destInterval * pair.destInterval;
    var after := AddPoint(windows, w0, done, p.1);
    forall w: nat, c: nat
      ensures HasCell(after, w, c) <==> CellValues(src, pair, last, done, seen + [p], w, c) != []
      ensures HasCell(after, w, c) ==> after[w][c] == CellValues(src, pair, last, done, seen + [p], w, c)
    {
      StartValuesAppend(seen, p, pair.destInterval, w);
      assert HasCell(windows, w, c) <==> CellValues(src, pair, last, done, seen, w, c) != [];
    }
  }

  lemma NextColumnGroups(windows: Windows, src: Ring, pair: TierPair, last: nat, done: nat)
    requires src.Shaped() && pair.destInterval > 0 && pair.maxSeries <= |src.vals| && done < pair.maxSeries
    requires Grouped(windows, src, pair, last, done, PassRead(src, pair, last, done))
    ensures Grouped(windows, src, pair, last, done + 1, [])
  {
    forall w: nat, c: nat
      ensures CellValues(src, pair, last, done, PassRead(src, pair, last, done), w, c)
              == CellValues(src, pair, last, done + 1, [], w, c)
    {
    }
  }

  /** Adds one point to the window it falls in. */
  method GroupPoint(before: Windows, point: Point, ghost src: Ring, pair: TierPair, ghost last: nat, column: nat,
                    ghost seen: seq<Point>) returns (windows: Windows)
    requires src.Shaped() && pair.destInterval > 0 && pair.maxSeries <= |src.vals|
    requires Grouped(before, src, pair, last, column, seen)
    ensures Grouped(windows, src, pair, last, column, seen + [point])
  {
    var (timestamp, value) := point;
    var windowStart := timestamp / pair.destInterval * pair.destInterval;
    AddPointGroups(before, src, pair, last, column, seen, point);
    windows := AddPoint(before, windowStart, column, value);
  }

  /** Adds the points of one column to the windows they fall in. */
  method GroupColumn(points: seq<Point>, ghost src: Ring, pair: TierPair, ghost last: nat,
                     column: nat, before: Windows) returns (windows: Windows)
    requires src.Shaped() && pair.destInterval > 0 && pair.maxSeries <= |src.vals| && column < pair.maxSeries
    requires points == PassRead(src, pair, last, column)
    requires Grouped(before, src, pair, last, column, [])
    ensures Grouped(windows, src, pair, last, column + 1, [])
  {
    windows := before;
    for i := 0 to |points|
      invariant Grouped(windows, src, pair, last, column, points[..i])
    {
      Sequences.TakeNext(points, i);
      windows := GroupPoint(windows, points[i], src, pair, last, column, points[..i]);
    }
    Sequences.TakeAll(points);
    NextColumnGroups(windows, src, pair, last, column);
  }

  /** Reads the new source points of every column and groups them into windows. */
  method CollectWindows(source: RingBuffer, pair: TierPair, start: nat, end: nat, ghost last: nat)
      returns (windows: Windows)
    requires source.Valid() && pair.destInterval > 0 && pair.maxSeries <= source.vals.Length0
    requires start == PassStart(source.State(), pair, last) && end == PassEnd(source.State()) && start < end
    ensures Grouped(windows, source.State(), pair, last, pair.maxSeries, [])
  {
    windows := map[];
    for column := 0 to pair.maxSeries
      invariant Grouped(windows, source.State(), pair, last, column, [])
    {
      var iter := source.Read(column, start, end);
      var points := iter.value.Collect();
      windows := GroupColumn(points, source.State(), pair, last, column, windows);
    }
  }

  // ------------------------------------------------------- writing windows

  /** `order` lists, once each, exactly the cells that are no longer pending; none has window start 0. */
  ghost predicate Written(windows: Windows, order: seq<Target>, pending: set<nat>, current: nat, columns: set<nat>) {
    && (forall i, j | 0 <= i < j < |order| :: order[i] != order[j])
    && (forall i | 0 <= i < |order| :: order[i].0 != 0)
    && (forall w: nat, c: nat ::
          (w, c) in order <==>
          HasCell(windows, w, c) && w !in pending && (w == current ==> c !in columns))
  }

  ghost predicate WritesSoFar(dst: Ring, before: Ring, src: Ring, pair: TierPair, last: nat, order: seq<Target>) {
    && before.Shaped() && src.Shaped() && pair.destInterval > 0
    && TargetsIn(order, |src.vals|) && dst == Run(before, PassLog(src, pair, last, order))
  }

  lemma OneMoreWrite(before: Ring, src: Ring, pair: TierPair, last: nat, order: seq<Target>, t: Target)
    requires before.Shaped() && src.Shaped() && pair.destInterval > 0
    requires TargetsIn(order, |src.vals|) && t.1 < |src.vals|
    ensures Run(before, PassLog(src, pair, last, order + [t]))
            == Run(before, PassLog(src, pair, last, order))
               .Write(Batch(t.0, [(t.1, TargetValue(src, pair, last, t))]))
  {
    var log := PassLog(src, pair, last, order + [t]);
    assert log[..|order|] == PassLog(src, pair, last, order);
  }

  lemma OneMoreWritten(windows: Windows, order: seq<Target>, pending: set<nat>, w: nat, columns: set<nat>, c: nat)
    requires Written(windows, order, pending, w, columns) && HasCell(windows, w, c)
    requires w !in pending && c in columns && w != 0
    ensures Written(windows, order + [(w, c)], pending, w, columns - {c})
  {
    assert (w, c) !in order;
    forall x: nat, y: nat
      ensures (x, y) in order + [(w, c)] <==>
              HasCell(windows, x, y) && x !in pending && (x == w ==> y !in columns - {c})
    {
      assert (x, y) in order + [(w, c)] <==> (x, y) in order || (x, y) == (w, c);
    }
  }

  lemma GroupedTarget(windows: Windows, src: Ring, pair: TierPair, last: nat, w: nat, c: nat)
    requires src.Shaped() && pair.destInterval > 0 && pair.maxSeries <= |src.vals|
    requires Grouped(windows, src, pair, last, pair.maxSeries, []) && HasNews(src, pair, last)
    ensures HasCell(windows, w, c) <==> IsTarget(src, pair, last, (w, c))
    ensures HasCell(windows, w, c) ==> windows[w][c] == StartValues(PassRead(src, pair, last, c), pair.destInterval, w)
  {
    assert HasCell(windows, w, c) <==> CellValues(src, pair, last, pair.maxSeries, [], w, c) != [];
  }

  lemma AllWritten(windows: Windows, src: Ring, pair: TierPair, last: nat, order: seq<Target>)
    requires src.Shaped() && pair.destInterval > 0 && pair.maxSeries <= |src.vals|
    requires Grouped(windows, src, pair, last, pair.maxSeries, []) && HasNews(src, pair, last)
    requires Written(windows, order, {}, 0, {})
    ensures Enumerates(src, pair, last, order) && !MeetsWindowZero(src, pair, last)
  {
    forall t: Target ensures t in order <==> IsTarget(src, pair, last, t) {
      GroupedTarget(windows, src, pair, last, t.0, t.1);
      assert (t.0, t.1) == t;
    }
    forall c | 0 <= c < pair.maxSeries ensures !IsTarget(src, pair, last, (0, c)) {
      GroupedTarget(windows, src, pair, last, 0, c);
    }
  }

  /** Aggregates the values of one cell and writes the result. */
  method WriteCell(dest: RingBuffer, values: seq<Float>, pair: TierPair, ghost src: Ring, ghost last: nat,
                   target: Target, ghost before: Ring, ghost done: seq<Target>) returns (r: Result<()>)
    requires src.Shaped() && pair.destInterval > 0 && pair.maxSeries <= |src.vals|
    requires IsTarget(src, pair, last, target) && dest.Valid() && pair.maxSeries <= dest.vals.Length0
    requires values == StartValues(PassRead(src, pair, last, target.1), pair.destInterval, target.0)
    requires WritesSoFar(dest.State(), before, src, pair, last, done)
    modifies dest.Repr()
    ensures dest.Valid() && (r.Ok? <==> target.0 != 0)
    ensures WritesSoFar(dest.State(), before, src, pair, last, if r.Ok? then done + [target] else done)
  {
    var consolidated := Apply(pair.f, values);
    ApplyIsFinite(pair.f, values);
    OneMoreWrite(before, src, pair, last, done, target);
    r := dest.Write(target.1, consolidated, target.0);
  }

  /** Writes the aggregates of one window, column by column in hash-map order. */
  method WriteWindow(dest: RingBuffer, windows: Windows, pair: TierPair, ghost src: Ring, ghost last: nat,
                     w: nat, ghost pending: set<nat>, ghost before: Ring, ghost done: seq<Target>)
      returns (r: Result<nat>, ghost order: seq<Target>)
    requires src.Shaped() && pair.destInterval > 0 && pair.maxSeries <= |src.vals|
    requires Grouped(windows, src, pair, last, pair.maxSeries, []) && HasNews(src, pair, last)
    requires w in windows && w !in pending && Written(windows, done, pending + {w}, 0, {})
    requires dest.Valid() && pair.maxSeries <= dest.vals.Length0
    requires WritesSoFar(dest.State(), before, src, pair, last, done)
    modifies dest.Repr()
    ensures dest.Valid() && WritesSoFar(dest.State(), before, src, pair, last, order)
    ensures r.Ok? ==> Written(windows, order, pending, 0, {}) && |order| == |done| + r.value
    ensures r.Err? ==> MeetsWindowZero(src, pair, last)
  {
    order := done;
    var operations := 0;
    var columns := windows[w].Keys;
    while columns != {}
      invariant columns <= windows[w].Keys
      invariant Written(windows, order, pending, w, columns) && |order| == |done| + operations
      invariant dest.Valid() && WritesSoFar(dest.State(), before, src, pair, last, order)
      decreases columns
    {
      var column :| column in columns;
      GroupedTarget(windows, src, pair, last, w, column);
      var written := WriteCell(dest, windows[w][column], pair, src, last, (w, column), before, order);
      if written.Err? {
        return Err, order;
      }
      OneMoreWritten(windows, order, pending, w, columns, column);
      order := order + [(w, column)];
      operations := operations + 1;
      columns := columns - {column};
    }
    return Ok(operations), order;
  }

  /** Writes every window, in hash-map order; `order` records the order taken. */
  method WriteWindows(dest: RingBuffer, windows: Windows, pair: TierPair, ghost src: Ring, ghost last: nat)
      returns (r: Result<nat>, ghost order: seq<Target>)
    requires src.Shaped() && pair.destInterval > 0 && pair.maxSeries <= |src.vals|
    requires Grouped(windows, src, pair, last, pair.maxSeries, []) && HasNews(src, pair, last)
    requires dest.Valid() && pair.maxSeries <= dest.vals.Length0
    modifies dest.Repr()
    ensures dest.Valid() && WritesSoFar(dest.State(), old(dest.State()), src, pair, last, order)
    ensures r.Ok? ==> Enumerates(src, pair, last, order) && r.value == |order|
    ensures r.Ok? <==> !MeetsWindowZero(src, pair, last)
  {
    order := [];
    ghost var before := dest.State();
    var operations := 0;
    var remaining := windows.Keys;
    while remaining != {}
      invariant remaining <= windows.Keys
      invariant Written(windows, order, remaining, 0, {}) && |order| == operations
      invariant dest.Valid() && WritesSoFar(dest.State(), before, src, pair, last, order)
      decreases remaining
    {
      var w :| w in remaining;
      assert remaining - {w} + {w} == remaining;
      var written, order' := WriteWindow(dest, windows, pair, src, last, w, remaining - {w}, before, order);
      order := order';
      if written.Err? {
        return Err, order;
      }
      operations := operations + written.value;
      remaining := remaining - {w};
    }
    AllWritten(windows, src, pair, last, order);
    return Ok(operations), order;
  }
}
