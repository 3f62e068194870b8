/**
 One pass of a cascade in the terms of the schema: which tiers' intervals and
 which function it uses, where it starts, and what it leaves in the next tier.
 */
module CascadePasses {
  import opened Floats
  import opened RingModel
  import opened Schemas
  import opened Passes
  import opened Cascades

  /** A duration as the rings use it: nanoseconds cut off at 64 bits. */
  function Nanos(duration: nat): nat {
    duration % 0x1_0000_0000_0000_0000
  }

  /** Where the pass over pair `(i, k)` starts to read: one source interval after the cursor, or at the oldest sample. */
  function StartOf(s: SchemaConfig, t: Tiers, i: nat, k: nat): nat
    requires i < |t.rings| && k < |t.rings[i]| && k < |s.tiers| && t.rings[i][k].Shaped()
  {
    if (i, k, k + 1) in t.cursors && t.cursors[(i, k, k + 1)] != 0
    then t.cursors[(i, k, k + 1)] + Nanos(s.tiers[k].interval)
    else match t.rings[i][k].Oldest() case Some(oldest) => oldest case None => 0
  }

  /** The values of the points whose window of this width starts at `w`, in order. */
  function InWindow(points: seq<Point>, width: nat, w: nat): seq<Float>
    requires width > 0
  {
    if points == [] then []
    else (if points[0].0 - points[0].0 % width == w then [points[0].1] else []) + InWindow(points[1..], width, w)
  }

  lemma {:induction false} InWindowAppend(points: seq<Point>, p: Point, width: nat, w: nat)
    requires width > 0
    ensures InWindow(points + [p], width, w)
            == InWindow(points, width, w) + (if p.0 - p.0 % width == w then [p.1] else [])
  {
    if points == [] {
      assert [] + [p] == [p] && [p][1..] == [];
    } else {
      assert (points + [p])[1..] == points[1..] + [p];
      InWindowAppend(points[1..], p, width, w);
      Joined(if points[0].0 - points[0].0 % width == w then [points[0].1] else [], InWindow(points[1..], width, w),
             if p.0 - p.0 % width == w then [p.1] else []);
    }
  }

  lemma Joined(a: seq<Float>, b: seq<Float>, c: seq<Float>)
    ensures (a + b) + c == a + (b + c)
  {
  }

  lemma WindowStartOf(t: nat, width: nat)
    requires width > 0
    ensures t / width * width == t - t % width
  {
  }

  lemma {:induction false} InWindowIsStartValues(points: seq<Point>, width: nat, w: nat)
    requires width > 0
    ensures InWindow(points, width, w) == StartValues(points, width, w)
  {
    if points != [] {
      var init, p := points[..|points| - 1], points[|points| - 1];
      assert points == init + [p];
      InWindowIsStartValues(init, width, w);
      InWindowAppend(init, p, width, w);
      StartValuesAppend(init, p, width, w);
      WindowStartOf(p.0, width);
    }
  }

  /** The new values of series `c` in the window that starts at `w`. */
  function NewValues(s: SchemaConfig, t: Tiers, i: nat, k: nat, w: nat, c: nat): seq<Float>
    requires i < |t.rings| && k < |t.rings[i]| && k + 1 < |s.tiers| && t.rings[i][k].Shaped()
    requires c < |t.rings[i][k].vals| && Nanos(s.tiers[k + 1].interval) > 0
  {
    match t.rings[i][k].Newest()
    case None => []
    case Some(newest) =>
      var start := StartOf(s, t, i, k);
      if start > newest then []
      else InWindow(t.rings[i][k].Read(c, start, newest + 1), Nanos(s.tiers[k + 1].interval), w)
  }

  lemma TargetIffNew(schemas: seq<SchemaConfig>, t: Tiers, i: nat, k: nat, order: seq<Target>, w: nat, c: nat)
    requires CanPass(schemas, t, i, k, order) && c < schemas[i].maxSeries
    ensures (w, c) in order <==> NewValues(schemas[i], t, i, k, w, c) != []
    ensures (w, c) in order ==>
              TargetValue(t.rings[i][k], PairOf(schemas[i], k), LastProcessed(t.cursors, i, k), (w, c))
              == Apply(schemas[i].tiers[k + 1].consolidationFn.value, NewValues(schemas[i], t, i, k, w, c))
  {
    var src, pair, last := t.rings[i][k], PairOf(schemas[i], k), LastProcessed(t.cursors, i, k);
    assert PassStart(src, pair, last) == StartOf(schemas[i], t, i, k);
    if src.Newest().Some? && PassStart(src, pair, last) <= src.Newest().value {
      InWindowIsStartValues(PassRead(src, pair, last, c), pair.destInterval, w);
    }
  }

  /** Windows with new values land in slots of their own. */
  ghost predicate OwnSlots(s: SchemaConfig, t: Tiers, i: nat, k: nat)
    requires i < |t.rings| && k + 1 < |t.rings[i]| && k + 1 < |s.tiers|
    requires t.rings[i][k].Shaped() && t.rings[i][k + 1].Shaped()
    requires s.maxSeries <= |t.rings[i][k].vals| && Nanos(s.tiers[k + 1].interval) > 0
  {
    forall v: nat, c: nat, w: nat, d: nat | HasNew(s, t, i, k, v, c) && HasNew(s, t, i, k, w, d) ::
      t.rings[i][k + 1].SlotOf(v) == t.rings[i][k + 1].SlotOf(w) ==> v == w
  }

  ghost predicate HasNew(s: SchemaConfig, t: Tiers, i: nat, k: nat, w: nat, c: nat)
    requires i < |t.rings| && k < |t.rings[i]| && k + 1 < |s.tiers| && t.rings[i][k].Shaped()
    requires s.maxSeries <= |t.rings[i][k].vals| && Nanos(s.tiers[k + 1].interval) > 0
  {
    c < s.maxSeries && NewValues(s, t, i, k, w, c) != []
  }

  /** Nothing but the destination ring and the pair's own cursor changed. */
  ghost predicate OnlyPairChanged(t: Tiers, t': Tiers, i: nat, k: nat) {
    && |t'.rings| == |t.rings| && i < |t.rings| && k + 1 < |t.rings[i]| && |t'.rings[i]| == |t.rings[i]|
    && (forall j | 0 <= j < |t.rings| && j != i :: t'.rings[j] == t.rings[j])
    && (forall m | 0 <= m < |t.rings[i]| && m != k + 1 :: t'.rings[i][m] == t.rings[i][m])
    && (forall key | key != (i, k, k + 1) :: (key in t'.cursors <==> key in t.cursors)
                                             && (key in t.cursors ==> t'.cursors[key] == t.cursors[key]))
  }

  /** The slot of the window has its start, and for the series its aggregate. */
  ghost predicate HoldsAggregate(s: SchemaConfig, t: Tiers, t': Tiers, i: nat, k: nat, w: nat, c: nat)
    requires OnlyPairChanged(t, t', i, k) && k + 1 < |s.tiers| && s.tiers[k + 1].consolidationFn.Some?
    requires t.rings[i][k].Shaped() && t'.rings[i][k + 1].Shaped() && Nanos(s.tiers[k + 1].interval) > 0
    requires c < |t.rings[i][k].vals| && c < |t'.rings[i][k + 1].vals|
  {
    var dst := t'.rings[i][k + 1];
    && dst.ts[dst.SlotOf(w)] == w
    && dst.vals[c][dst.SlotOf(w)] == Apply(s.tiers[k + 1].consolidationFn.value, NewValues(s, t, i, k, w, c))
  }

  /** Some window of this slot, in which series `c` has new values. */
  ghost predicate Touched(s: SchemaConfig, t: Tiers, i: nat, k: nat, slot: nat, c: nat)
    requires i < |t.rings| && k + 1 < |t.rings[i]| && k + 1 < |s.tiers|
    requires t.rings[i][k].Shaped() && t.rings[i][k + 1].Shaped()
    requires s.maxSeries <= |t.rings[i][k].vals| && Nanos(s.tiers[k + 1].interval) > 0
  {
    exists w: nat :: HasNew(s, t, i, k, w, c) && t.rings[i][k + 1].SlotOf(w) == slot
  }

  /** Slots without a new window keep their timestamp, cells without new values their value. */
  ghost predicate CellsKept(s: SchemaConfig, t: Tiers, t': Tiers, i: nat, k: nat)
    requires OnlyPairChanged(t, t', i, k) && k + 1 < |s.tiers| && t.rings[i][k].Shaped() && t.rings[i][k + 1].Shaped()
    requires s.maxSeries <= |t.rings[i][k].vals| && Nanos(s.tiers[k + 1].interval) > 0
  {
    var before, after := t.rings[i][k + 1], t'.rings[i][k + 1];
    && after.Shaped() && after.interval == before.interval && |after.ts| == |before.ts| && |after.vals| == |before.vals|
    && (forall slot: nat | slot < |before.ts| && !(exists c: nat :: Touched(s, t, i, k, slot, c)) ::
          after.ts[slot] == before.ts[slot])
    && (forall slot: nat, c: nat | slot < |before.ts| && c < |before.vals| && !Touched(s, t, i, k, slot, c) ::
          after.vals[c][slot] == before.vals[c][slot])
  }

  lemma TargetsAreNew(schemas: seq<SchemaConfig>, t: Tiers, i: nat, k: nat, order: seq<Target>)
    requires CanPass(schemas, t, i, k, order) && OwnSlots(schemas[i], t, i, k)
    ensures TargetsIn(order, schemas[i].maxSeries) && SlotsApart(t.rings[i][k + 1], order)
  {
    EnumeratedInColumns(t.rings[i][k], PairOf(schemas[i], k), LastProcessed(t.cursors, i, k), order);
    forall j | 0 <= j < |order| ensures HasNew(schemas[i], t, i, k, order[j].0, order[j].1) {
      assert (order[j].0, order[j].1) == order[j] && order[j] in order;
      TargetIffNew(schemas, t, i, k, order, order[j].0, order[j].1);
    }
  }

  /**
   A pass in the terms of the schema. It reads, of each series, what the source
   tier holds from one source interval after the pair's cursor up to the newest
   sample; it leaves in each window of the destination's interval, in which there
   is something new, the aggregate by the destination's function; and it moves
   the cursor to the newest sample if there was anything new at all. Every other
   cell, ring and cursor stays.
   */
  lemma PairPassMeans(schemas: seq<SchemaConfig>, t: Tiers, i: nat, k: nat, order: seq<Target>)
    requires CanPass(schemas, t, i, k, order) && OwnSlots(schemas[i], t, i, k)
    ensures var t' := PairPass(schemas, t, i, k, order);
            && OnlyPairChanged(t, t', i, k)
            && (forall w: nat, c: nat | HasNew(schemas[i], t, i, k, w, c) :: HoldsAggregate(schemas[i], t, t', i, k, w, c))
            && CellsKept(schemas[i], t, t', i, k)
            && (i, k, k + 1) in t'.cursors
            && t'.cursors[(i, k, k + 1)]
               == if exists w: nat, c: nat :: HasNew(schemas[i], t, i, k, w, c) then t.rings[i][k].Newest().value
                  else if (i, k, k + 1) in t.cursors then t.cursors[(i, k, k + 1)] else 0
  {
    var src, dst, pair, last := t.rings[i][k], t.rings[i][k + 1], PairOf(schemas[i], k), LastProcessed(t.cursors, i, k);
    var t' := PairPass(schemas, t, i, k, order);
    TargetsAreNew(schemas, t, i, k, order);
    forall w: nat, c: nat | HasNew(schemas[i], t, i, k, w, c) ensures HoldsAggregate(schemas[i], t, t', i, k, w, c) {
      NewIsHeld(schemas, t, i, k, order, w, c);
    }
    RestIsKept(schemas, t, i, k, order);
    NewnessMovesCursor(schemas, t, i, k, order);
  }

  lemma NewIsHeld(schemas: seq<SchemaConfig>, t: Tiers, i: nat, k: nat, order: seq<Target>, w: nat, c: nat)
    requires CanPass(schemas, t, i, k, order) && OwnSlots(schemas[i], t, i, k) && HasNew(schemas[i], t, i, k, w, c)
    ensures OnlyPairChanged(t, PairPass(schemas, t, i, k, order), i, k)
    ensures HoldsAggregate(schemas[i], t, PairPass(schemas, t, i, k, order), i, k, w, c)
  {
    var src, dst, pair, last := t.rings[i][k], t.rings[i][k + 1], PairOf(schemas[i], k), LastProcessed(t.cursors, i, k);
    TargetsAreNew(schemas, t, i, k, order);
    TargetIffNew(schemas, t, i, k, order, w, c);
    var j :| 0 <= j < |order| && order[j] == (w, c);
    PassTimes(src, dst, pair, last, order, dst.SlotOf(w));
    PassValues(src, dst, pair, last, order, dst.SlotOf(w), c);
  }

  lemma TargetTouches(schemas: seq<SchemaConfig>, t: Tiers, i: nat, k: nat, order: seq<Target>, j: nat)
    requires CanPass(schemas, t, i, k, order) && OwnSlots(schemas[i], t, i, k) && j < |order|
    ensures Touched(schemas[i], t, i, k, t.rings[i][k + 1].SlotOf(order[j].0), order[j].1)
  {
    TargetsAreNew(schemas, t, i, k, order);
    assert (order[j].0, order[j].1) == order[j] && order[j] in order;
    TargetIffNew(schemas, t, i, k, order, order[j].0, order[j].1);
    assert HasNew(schemas[i], t, i, k, order[j].0, order[j].1);
  }

  lemma RestIsKept(schemas: seq<SchemaConfig>, t: Tiers, i: nat, k: nat, order: seq<Target>)
    requires CanPass(schemas, t, i, k, order) && OwnSlots(schemas[i], t, i, k)
    ensures OnlyPairChanged(t, PairPass(schemas, t, i, k, order), i, k)
    ensures CellsKept(schemas[i], t, PairPass(schemas, t, i, k, order), i, k)
  {
    var src, dst, pair, last := t.rings[i][k], t.rings[i][k + 1], PairOf(schemas[i], k), LastProcessed(t.cursors, i, k);
    var after := PairPass(schemas, t, i, k, order).rings[i][k + 1];
    TargetsAreNew(schemas, t, i, k, order);
    forall slot: nat | slot < |dst.ts| && !(exists c: nat :: Touched(schemas[i], t, i, k, slot, c))
      ensures after.ts[slot] == dst.ts[slot]
    {
      forall j | 0 <= j < |order| ensures dst.SlotOf(order[j].0) != slot {
        TargetTouches(schemas, t, i, k, order, j);
      }
      PassTimes(src, dst, pair, last, order, slot);
    }
    forall slot: nat, c: nat | slot < |dst.ts| && c < |dst.vals| && !Touched(schemas[i], t, i, k, slot, c)
      ensures after.vals[c][slot] == dst.vals[c][slot]
    {
      forall j | 0 <= j < |order| ensures dst.SlotOf(order[j].0) != slot || order[j].1 != c {
        TargetTouches(schemas, t, i, k, order, j);
      }
      PassValues(src, dst, pair, last, order, slot, c);
    }
  }

  lemma NewnessMovesCursor(schemas: seq<SchemaConfig>, t: Tiers, i: nat, k: nat, order: seq<Target>)
    requires CanPass(schemas, t, i, k, order) && OwnSlots(schemas[i], t, i, k)
    ensures order != [] <==> exists w: nat, c: nat :: HasNew(schemas[i], t, i, k, w, c)
    ensures order != [] ==> HasNews(t.rings[i][k], PairOf(schemas[i], k), LastProcessed(t.cursors, i, k))
  {
    TargetsAreNew(schemas, t, i, k, order);
    if order != [] {
      assert (order[0].0, order[0].1) == order[0] && order[0] in order;
      TargetIffNew(schemas, t, i, k, order, order[0].0, order[0].1);
      assert HasNew(schemas[i], t, i, k, order[0].0, order[0].1);
    }
    if w: nat, c: nat :| HasNew(schemas[i], t, i, k, w, c) {
      TargetIffNew(schemas, t, i, k, order, w, c);
    }
  }

  // ---------------------------------------------------------- whole cascades

  /** A complete cascade passes each two adjacent tiers of each schema, and none twice. */
  lemma EveryPairOnce(schemas: seq<SchemaConfig>, trace: seq<PairTrace>, i: nat, k: nat)
    requires CoversAllPairs(schemas, trace) && i < |schemas| && k + 1 < |schemas[i].tiers|
    ensures exists j :: 0 <= j < |trace| && trace[j].schema == i && trace[j].tier == k
    ensures forall a, b | 0 <= a < b < |trace| :: (trace[a].schema, trace[a].tier) != (trace[b].schema, trace[b].tier)
  {
    assert Visits(trace, i, k);
  }

  /**
   A successful cascade leaves nothing to do: in every two adjacent tiers of every
   schema no series has a value after the pair's cursor.
   */
  lemma CascadeLeavesNothingNew(schemas: seq<SchemaConfig>, t: Tiers, trace: seq<PairTrace>, t': Tiers, i: nat, k: nat,
                                w: nat, c: nat)
    requires CoversAllPairs(schemas, trace) && Leads(schemas, t, trace, t')
    requires i < |schemas| && k + 1 < |schemas[i].tiers| && c < schemas[i].maxSeries
    ensures TiersFit(schemas, t') && NewValues(schemas[i], t', i, k, w, c) == []
  {
    CascadeMakesQuiet(schemas, t, trace, t');
    assert HasPair(schemas, i, k) && Quiet(schemas, t', i, k);
    var src, pair, last := t'.rings[i][k], PairOf(schemas[i], k), LastProcessed(t'.cursors, i, k);
    assert !IsTarget(src, pair, last, (w, c));
    if src.Newest().Some? && PassStart(src, pair, last) <= src.Newest().value {
      InWindowIsStartValues(PassRead(src, pair, last, c), pair.destInterval, w);
    }
  }
}
