/**
 One consolidation pass from a source ring to the ring of the next coarser tier.
 The windows of a pass are written in the iteration order of a hash map, so the
 order is an argument here, and what does not depend on it is proved for every order.
 */
module Passes {
  import opened Wrappers
  import opened Floats
  import opened RingModel
  import opened RingRuns
  import opened Schemas
  import opened Downsampling
  import Cyclic

  datatype TierPair = TierPair(sourceInterval: nat, destInterval: nat, f: ConsolidationFn, maxSeries: nat)

  /** A destination cell: window start and series column. */
  type Target = (nat, nat)

  ghost predicate PairFits(src: Ring, dst: Ring, pair: TierPair) {
    && src.Shaped() && dst.Shaped() && pair.sourceInterval > 0 && pair.destInterval > 0
    && pair.maxSeries <= |src.vals| && pair.maxSeries <= |dst.vals|
  }

  /** First timestamp a pass reads; a cursor at 0 means that nothing was processed yet. */
  function PassStart(src: Ring, pair: TierPair, last: nat): nat
    requires src.Shaped()
  {
    if last == 0 then
      match src.Oldest()
      case None => 0
      case Some(t) => t
    else last + pair.sourceInterval
  }

  function PassEnd(src: Ring): nat
    requires src.Shaped()
  {
    match src.Newest()
    case None => 0
    case Some(t) => t + 1
  }

  predicate HasNews(src: Ring, pair: TierPair, last: nat)
    requires src.Shaped()
  {
    PassStart(src, pair, last) < PassEnd(src)
  }

  /** The values, in order, of the points whose window starts at `w`. */
  function StartValues(points: seq<Point>, width: nat, w: nat): seq<Float>
    requires width > 0
  {
    if w % width == 0 then WindowValues(points, width, w / width) else []
  }

  lemma StartValuesAppend(points: seq<Point>, p: Point, width: nat, w: nat)
    requires width > 0
    ensures StartValues(points + [p], width, w)
            == StartValues(points, width, w) + (if p.0 / width * width == w then [p.1] else [])
  {
    AppendPoint(points, p, width, w / width);
    Cyclic.DivModUnique(p.0 / width * width, p.0 / width, 0, width);
  }

  /** What a pass reads for a column. */
  function PassRead(src: Ring, pair: TierPair, last: nat, c: nat): seq<Point>
    requires src.Shaped() && c < |src.vals|
  {
    src.Read(c, PassStart(src, pair, last), PassEnd(src))
  }

  ghost predicate IsTarget(src: Ring, pair: TierPair, last: nat, t: Target)
    requires src.Shaped() && pair.destInterval > 0 && pair.maxSeries <= |src.vals|
  {
    && t.1 < pair.maxSeries && HasNews(src, pair, last)
    && StartValues(PassRead(src, pair, last, t.1), pair.destInterval, t.0) != []
  }

  /** `order` lists every target of the pass once. */
  ghost predicate Enumerates(src: Ring, pair: TierPair, last: nat, order: seq<Target>)
    requires src.Shaped() && pair.destInterval > 0 && pair.maxSeries <= |src.vals|
  {
    && (forall i, j | 0 <= i < j < |order| :: order[i] != order[j])
    && (forall t: Target :: t in order <==> IsTarget(src, pair, last, t))
  }

  function TargetValue(src: Ring, pair: TierPair, last: nat, t: Target): Float
    requires src.Shaped() && pair.destInterval > 0 && t.1 < |src.vals|
  {
    Apply(pair.f, StartValues(PassRead(src, pair, last, t.1), pair.destInterval, t.0))
  }

  ghost predicate TargetsIn(order: seq<Target>, columns: nat) {
    forall i | 0 <= i < |order| :: order[i].1 < columns
  }

  /** The writes a pass makes in the destination ring. */
  ghost function PassLog(src: Ring, pair: TierPair, last: nat, order: seq<Target>): (log: seq<Batch>)
    requires src.Shaped() && pair.destInterval > 0 && TargetsIn(order, |src.vals|)
    ensures |log| == |order|
  {
    seq(|order|, i requires 0 <= i < |order| =>
      Batch(order[i].0, [(order[i].1, TargetValue(src, pair, last, order[i]))]))
  }

  datatype Outcome = Outcome(dst: Ring, last: nat, operations: nat)

  /** A pass that meets no error. */
  ghost function Pass(src: Ring, dst: Ring, pair: TierPair, last: nat, order: seq<Target>): Outcome
    requires PairFits(src, dst, pair) && TargetsIn(order, |src.vals|)
  {
    if !HasNews(src, pair, last) then Outcome(dst, last, 0)
    else Outcome(Run(dst, PassLog(src, pair, last, order)),
                 if order != [] then PassEnd(src) - 1 else last,
                 |order|)
  }

  /** The destination rejects timestamp 0, so a pass fails exactly when it meets the window that starts there. */
  ghost predicate MeetsWindowZero(src: Ring, pair: TierPair, last: nat)
    requires src.Shaped() && pair.destInterval > 0 && pair.maxSeries <= |src.vals|
  {
    exists c :: 0 <= c < pair.maxSeries && IsTarget(src, pair, last, (0, c))
  }

  // ----------------------------------------------------------- single passes

  lemma EnumeratedInColumns(src: Ring, pair: TierPair, last: nat, order: seq<Target>)
    requires src.Shaped() && pair.destInterval > 0 && pair.maxSeries <= |src.vals|
    requires Enumerates(src, pair, last, order)
    ensures TargetsIn(order, pair.maxSeries)
  {
    forall i | 0 <= i < |order| ensures order[i].1 < pair.maxSeries {
      assert order[i] in order;
    }
  }

  /** A pass never writes an infinite value, and it writes only at window starts it has points for. */
  lemma PassLogIsWritable(src: Ring, pair: TierPair, last: nat, order: seq<Target>, columns: nat)
    requires src.Shaped() && pair.destInterval > 0 && pair.maxSeries <= |src.vals| && pair.maxSeries <= columns
    requires Enumerates(src, pair, last, order) && !MeetsWindowZero(src, pair, last)
    ensures TargetsIn(order, |src.vals|) && WritableRun(PassLog(src, pair, last, order), columns)
  {
    EnumeratedInColumns(src, pair, last, order);
    forall i | 0 <= i < |order| ensures Writable(PassLog(src, pair, last, order)[i], columns) {
      assert order[i] in order;
      ApplyIsFinite(pair.f, StartValues(PassRead(src, pair, last, order[i].1), pair.destInterval, order[i].0));
    }
  }

  /** Targets in different windows land in different destination slots. */
  ghost predicate SlotsApart(dst: Ring, order: seq<Target>)
    requires dst.Shaped()
  {
    forall i, j | 0 <= i < |order| && 0 <= j < |order| ::
      dst.SlotOf(order[i].0) == dst.SlotOf(order[j].0) ==> order[i].0 == order[j].0
  }

  lemma SingleLookup(c: nat, v: Float, c': nat)
    ensures Lookup([(c, v)], c') == if c == c' then Some(v) else None
  {
    assert [(c, v)][..0] == [];
  }

  /** The slot of a window that gets a write shows that window afterwards; other slots keep their timestamp. */
  lemma PassTimes(src: Ring, dst: Ring, pair: TierPair, last: nat, order: seq<Target>, s: nat)
    requires PairFits(src, dst, pair) && TargetsIn(order, |src.vals|) && s < |dst.ts| && SlotsApart(dst, order)
    ensures var r := Run(dst, PassLog(src, pair, last, order));
            && (forall i | 0 <= i < |order| && dst.SlotOf(order[i].0) == s :: r.ts[s] == order[i].0)
            && ((forall i | 0 <= i < |order| :: dst.SlotOf(order[i].0) != s) ==> r.ts[s] == dst.ts[s])
  {
    var log := PassLog(src, pair, last, order);
    SlotHoldsLastWrite(dst, log, s);
    if i :| 0 <= i < |order| && dst.SlotOf(order[i].0) == s {
      var j := LastHit(dst, log, s, i);
      assert LastInSlot(dst, log, s, j);
    }
  }

  /** The last batch in a slot that some batch lands in. */
  lemma {:induction false} LastHit(r: Ring, log: seq<Batch>, s: nat, i: nat) returns (j: nat)
    requires r.Shaped() && i < |log| && r.SlotOf(log[i].time) == s
    ensures LastInSlot(r, log, s, j)
    decreases |log| - i
  {
    if k :| i < k < |log| && r.SlotOf(log[k].time) == s {
      j := LastHit(r, log, s, k);
    } else {
      j := i;
    }
  }

  /** A target's cell holds its aggregate afterwards; the other cells keep their value. */
  lemma PassValues(src: Ring, dst: Ring, pair: TierPair, last: nat, order: seq<Target>, s: nat, c: nat)
    requires PairFits(src, dst, pair) && TargetsIn(order, |src.vals|) && SlotsApart(dst, order)
    requires forall i, j | 0 <= i < j < |order| :: order[i] != order[j]
    requires s < |dst.ts| && c < |dst.vals|
    ensures var r := Run(dst, PassLog(src, pair, last, order));
            && (forall i | 0 <= i < |order| && dst.SlotOf(order[i].0) == s && order[i].1 == c ::
                  r.vals[c][s] == TargetValue(src, pair, last, order[i]))
            && ((forall i | 0 <= i < |order| :: dst.SlotOf(order[i].0) != s || order[i].1 != c) ==>
                  r.vals[c][s] == dst.vals[c][s])
  {
    var log := PassLog(src, pair, last, order);
    CellHoldsLastWrite(dst, log, s, c);
    forall i | 0 <= i < |order|
      ensures WritesCell(dst, log[i], s, c) <==> dst.SlotOf(order[i].0) == s && order[i].1 == c
      ensures WritesCell(dst, log[i], s, c) ==>
                Lookup(log[i].entries, c).value == TargetValue(src, pair, last, order[i])
    {
      SingleLookup(order[i].1, TargetValue(src, pair, last, order[i]), c);
    }
    forall i | 0 <= i < |order| && dst.SlotOf(order[i].0) == s && order[i].1 == c
      ensures LastInCell(dst, log, s, c, i)
    {
      forall j | i < j < |log| ensures !WritesCell(dst, log[j], s, c) {
        assert order[j] != order[i];
      }
    }
  }

  // -------------------------------------------------------------- confluence

  /** Cursor and wrap flag aside, two rings hold the same. */
  ghost predicate SameContents(x: Ring, y: Ring) {
    x.ts == y.ts && x.vals == y.vals && x.interval == y.interval
  }

  lemma SameMembers(x: seq<Target>, y: seq<Target>, i: nat) returns (j: nat)
    requires (forall t :: t in x <==> t in y) && i < |x|
    ensures j < |y| && y[j] == x[i]
  {
    assert x[i] in y;
    j :| 0 <= j < |y| && y[j] == x[i];
  }

  lemma SameMembersApart(dst: Ring, x: seq<Target>, y: seq<Target>)
    requires dst.Shaped() && SlotsApart(dst, x) && (forall t :: t in x <==> t in y)
    ensures SlotsApart(dst, y)
  {
    forall i, j | 0 <= i < |y| && 0 <= j < |y| && dst.SlotOf(y[i].0) == dst.SlotOf(y[j].0)
      ensures y[i].0 == y[j].0
    {
      var a := SameMembers(y, x, i);
      var b := SameMembers(y, x, j);
    }
  }

  /**
   Whatever order the hash map yields its windows in, if they fall in distinct
   destination slots the pass leaves the same timestamps and values behind.
   */
  lemma OrderDoesNotMatter(src: Ring, dst: Ring, pair: TierPair, last: nat, x: seq<Target>, y: seq<Target>)
    requires PairFits(src, dst, pair)
    requires Enumerates(src, pair, last, x) && Enumerates(src, pair, last, y) && SlotsApart(dst, x)
    ensures TargetsIn(x, |src.vals|) && TargetsIn(y, |src.vals|)
    ensures var p, q := Pass(src, dst, pair, last, x), Pass(src, dst, pair, last, y);
            SameContents(p.dst, q.dst) && p.last == q.last
  {
    EnumeratedInColumns(src, pair, last, x);
    EnumeratedInColumns(src, pair, last, y);
    SameMembersApart(dst, x, y);
    if x != [] { assert x[0] in y; }
    if y != [] { assert y[0] in x; }
    var p, q := Run(dst, PassLog(src, pair, last, x)), Run(dst, PassLog(src, pair, last, y));
    forall s | 0 <= s < |dst.ts| ensures p.ts[s] == q.ts[s] {
      SameTimes(src, dst, pair, last, x, y, s);
    }
    forall c, s | 0 <= c < |dst.vals| && 0 <= s < |dst.ts| ensures p.vals[c][s] == q.vals[c][s] {
      SameValues(src, dst, pair, last, x, y, s, c);
    }
    forall c | 0 <= c < |dst.vals| ensures p.vals[c] == q.vals[c] {
    }
  }

  lemma SameTimes(src: Ring, dst: Ring, pair: TierPair, last: nat, x: seq<Target>, y: seq<Target>, s: nat)
    requires PairFits(src, dst, pair) && TargetsIn(x, |src.vals|) && TargetsIn(y, |src.vals|)
    requires SlotsApart(dst, x) && SlotsApart(dst, y) && (forall t :: t in x <==> t in y) && s < |dst.ts|
    ensures Run(dst, PassLog(src, pair, last, x)).ts[s] == Run(dst, PassLog(src, pair, last, y)).ts[s]
  {
    PassTimes(src, dst, pair, last, x, s);
    PassTimes(src, dst, pair, last, y, s);
    if i :| 0 <= i < |x| && dst.SlotOf(x[i].0) == s {
      var j := SameMembers(x, y, i);
    } else {
      forall j | 0 <= j < |y| ensures dst.SlotOf(y[j].0) != s {
        var i := SameMembers(y, x, j);
      }
    }
  }

  lemma SameValues(src: Ring, dst: Ring, pair: TierPair, last: nat, x: seq<Target>, y: seq<Target>, s: nat, c: nat)
    requires PairFits(src, dst, pair)
    requires Enumerates(src, pair, last, x) && Enumerates(src, pair, last, y)
    requires TargetsIn(x, |src.vals|) && TargetsIn(y, |src.vals|)
    requires SlotsApart(dst, x) && SlotsApart(dst, y) && s < |dst.ts| && c < |dst.vals|
    ensures Run(dst, PassLog(src, pair, last, x)).vals[c][s] == Run(dst, PassLog(src, pair, last, y)).vals[c][s]
  {
    PassValues(src, dst, pair, last, x, s, c);
    PassValues(src, dst, pair, last, y, s, c);
    if i :| 0 <= i < |x| && dst.SlotOf(x[i].0) == s && x[i].1 == c {
      var j := SameMembers(x, y, i);
    } else {
      forall j | 0 <= j < |y| ensures dst.SlotOf(y[j].0) != s || y[j].1 != c {
        var i := SameMembers(y, x, j);
      }
    }
  }

  /** Rings with the same contents return the same points for every read. */
  lemma SameContentsSamePoints(x: Ring, y: Ring, c: nat, start: nat, end: nat)
    requires Consistent(x) && Consistent(y) && SameContents(x, y) && c < |x.vals|
    ensures forall p :: p in x.Read(c, start, end) <==> p in y.Read(c, start, end)
  {
    forall p ensures p in x.Read(c, start, end) <==> p in y.Read(c, start, end) {
      ReadPoints(x, c, start, end, p);
      ReadPoints(y, c, start, end, p);
      if p in x.Read(c, start, end) {
        var s: nat :| 0 <= s < |x.ts| && x.Qualifies(c, start, end, s) && p == x.Cell(c, s);
        assert y.Qualifies(c, start, end, s) && p == y.Cell(c, s);
      }
      if p in y.Read(c, start, end) {
        var s: nat :| 0 <= s < |y.ts| && y.Qualifies(c, start, end, s) && p == y.Cell(c, s);
        assert x.Qualifies(c, start, end, s) && p == x.Cell(c, s);
      }
    }
  }

  /** So no read of the destination can tell the orders apart by the points it returns. */
  lemma OrderDoesNotShowInReads(src: Ring, dst: Ring, pair: TierPair, last: nat, x: seq<Target>, y: seq<Target>,
                                c: nat, start: nat, end: nat)
    requires PairFits(src, dst, pair) && Consistent(dst) && c < |dst.vals|
    requires Enumerates(src, pair, last, x) && Enumerates(src, pair, last, y) && SlotsApart(dst, x)
    requires !MeetsWindowZero(src, pair, last)
    ensures TargetsIn(x, |src.vals|) && TargetsIn(y, |src.vals|)
    ensures var p, q := Pass(src, dst, pair, last, x).dst, Pass(src, dst, pair, last, y).dst;
            forall point :: point in p.Read(c, start, end) <==> point in q.Read(c, start, end)
  {
    OrderDoesNotMatter(src, dst, pair, last, x, y);
    PassLogIsWritable(src, pair, last, x, |dst.vals|);
    PassLogIsWritable(src, pair, last, y, |dst.vals|);
    RunKeepsConsistent(dst, PassLog(src, pair, last, x));
    RunKeepsConsistent(dst, PassLog(src, pair, last, y));
    SameContentsSamePoints(Pass(src, dst, pair, last, x).dst, Pass(src, dst, pair, last, y).dst, c, start, end);
  }

  /** What the order does show in: the destination's newest timestamp is the window written last. */
  lemma OrderShowsInNewest(src: Ring, dst: Ring, pair: TierPair, last: nat, order: seq<Target>)
    requires PairFits(src, dst, pair) && Enumerates(src, pair, last, order) && order != []
    requires !MeetsWindowZero(src, pair, last)
    ensures TargetsIn(order, |src.vals|)
    ensures Pass(src, dst, pair, last, order).dst.Newest() == Some(order[|order| - 1].0)
  {
    PassLogIsWritable(src, pair, last, order, |dst.vals|);
    assert order[0] in order;
    var log := PassLog(src, pair, last, order);
    CursorIsLastWrite(Run(dst, log[..|log| - 1]), log[|log| - 1]);
    assert Writable(log[|log| - 1], |dst.vals|);
  }
}
