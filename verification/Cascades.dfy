/**
 The cascade over all schemas and adjacent tiers as a function of the rings and
 cursors, and what holds of it for every choice of window orders.
 */
module Cascades {
  import opened RingModel
  import opened Schemas
  import opened Passes

  // -------------------------------------------------------- cursor progress

  /** One pass of a tier pair: the source as the pass finds it, and the targets it writes. */
  datatype Visit = Visit(src: Ring, order: seq<Target>)

  ghost predicate VisitsFit(visits: seq<Visit>, pair: TierPair) {
    && pair.sourceInterval > 0 && pair.destInterval > 0
    && forall i | 0 <= i < |visits| ::
         visits[i].src.Shaped() && pair.maxSeries <= |visits[i].src.vals|
  }

  /** The cursor after a pass that writes the targets of `order`. */
  function CursorAfter(src: Ring, pair: TierPair, last: nat, order: seq<Target>): nat
    requires src.Shaped()
  {
    if HasNews(src, pair, last) && order != [] then PassEnd(src) - 1 else last
  }

  /** The cursor before pass `i`. */
  ghost function CursorBefore(visits: seq<Visit>, pair: TierPair, i: nat): nat
    requires VisitsFit(visits, pair) && i <= |visits|
  {
    if i == 0 then 0
    else CursorAfter(visits[i - 1].src, pair, CursorBefore(visits, pair, i - 1), visits[i - 1].order)
  }

  ghost predicate Writes(visits: seq<Visit>, pair: TierPair, i: nat)
    requires VisitsFit(visits, pair) && i < |visits|
  {
    && visits[i].order != []
    && Enumerates(visits[i].src, pair, CursorBefore(visits, pair, i), visits[i].order)
  }

  /** A pass that writes has news, and moves the cursor from before to the newest timestamp it read. */
  lemma WritingPassAdvances(visits: seq<Visit>, pair: TierPair, i: nat)
    requires VisitsFit(visits, pair) && i < |visits| && Writes(visits, pair, i)
    ensures var before, after := CursorBefore(visits, pair, i), CursorBefore(visits, pair, i + 1);
            && before < after && after == PassEnd(visits[i].src) - 1
            && PassStart(visits[i].src, pair, before) <= after
            && (before != 0 ==> before < PassStart(visits[i].src, pair, before))
  {
    assert visits[i].order[0] in visits[i].order;
  }

  lemma {:induction false} CursorNeverGoesBack(visits: seq<Visit>, pair: TierPair, i: nat, j: nat)
    requires VisitsFit(visits, pair) && i <= j <= |visits|
    ensures CursorBefore(visits, pair, i) <= CursorBefore(visits, pair, j)
  {
    if i < j {
      CursorNeverGoesBack(visits, pair, i, j - 1);
      var last := CursorBefore(visits, pair, j - 1);
      assert CursorAfter(visits[j - 1].src, pair, last, visits[j - 1].order) >= last by {
        if HasNews(visits[j - 1].src, pair, last) && last != 0 {
          assert PassStart(visits[j - 1].src, pair, last) == last + pair.sourceInterval;
        }
      }
    }
  }

  /**
   Over any history of passes, whatever the source ring holds at each, the
   timestamps read by a later writing pass all lie after those of an earlier one.
   */
  lemma NoTimestampReadTwice(visits: seq<Visit>, pair: TierPair, i: nat, j: nat, c: nat, d: nat, p: Point, q: Point)
    requires VisitsFit(visits, pair) && i < j < |visits| && Writes(visits, pair, i) && Writes(visits, pair, j)
    requires c < pair.maxSeries && d < pair.maxSeries
    requires p in PassRead(visits[i].src, pair, CursorBefore(visits, pair, i), c)
    requires q in PassRead(visits[j].src, pair, CursorBefore(visits, pair, j), d)
    ensures p.0 < q.0
  {
    WritingPassAdvances(visits, pair, i);
    WritingPassAdvances(visits, pair, j);
    CursorNeverGoesBack(visits, pair, i + 1, j);
    ReadStaysInRange(visits[i].src, c, PassStart(visits[i].src, pair, CursorBefore(visits, pair, i)),
                     PassEnd(visits[i].src), p);
    ReadStaysInRange(visits[j].src, d, PassStart(visits[j].src, pair, CursorBefore(visits, pair, j)),
                     PassEnd(visits[j].src), q);
  }

  lemma ReadStaysInRange(r: Ring, c: nat, start: nat, end: nat, p: Point)
    requires r.Shaped() && c < |r.vals| && p in r.Read(c, start, end)
    ensures start <= p.0 < end
  {
    ScanStaysInRange(r, c, start, end, r.FirstSlot(), r.VisitCount(), p);
  }

  lemma {:induction false} ScanStaysInRange(r: Ring, c: nat, start: nat, end: nat, slot: nat, count: nat, p: Point)
    requires r.Shaped() && c < |r.vals| && slot < |r.ts| && p in r.Scan(c, start, end, slot, count)
    ensures start <= p.0 < end
    decreases count
  {
    if count != 0 && p in r.Scan(c, start, end, (slot + 1) % |r.ts|, count - 1) {
      ScanStaysInRange(r, c, start, end, (slot + 1) % |r.ts|, count - 1, p);
    }
  }

  // ---------------------------------------------------------------- cascade

  /** Schema index, source tier index, destination tier index. */
  type CursorKey = (nat, nat, nat)

  datatype Tiers = Tiers(rings: seq<seq<Ring>>, cursors: map<CursorKey, nat>)

  function KeyOf(i: nat, k: nat): CursorKey {
    (i, k, k + 1)
  }

  function LastProcessed(cursors: map<CursorKey, nat>, i: nat, k: nat): nat {
    if KeyOf(i, k) in cursors then cursors[KeyOf(i, k)] else 0
  }

  /** The tier pair from tier `k` of schema `s` to the next. */
  function PairOf(s: SchemaConfig, k: nat): TierPair
    requires k + 1 < |s.tiers| && s.tiers[k + 1].consolidationFn.Some?
  {
    TierPair(s.tiers[k].IntervalNanos(), s.tiers[k + 1].IntervalNanos(),
             s.tiers[k + 1].consolidationFn.value, s.maxSeries)
  }

  ghost predicate SchemaFits(s: SchemaConfig, rings: seq<Ring>) {
    && |rings| == |s.tiers|
    && forall k | 0 <= k < |rings| ::
         rings[k].Shaped() && s.tiers[k].IntervalNanos() > 0 && s.maxSeries <= |rings[k].vals|
  }

  ghost predicate TiersFit(schemas: seq<SchemaConfig>, t: Tiers) {
    |t.rings| == |schemas| && forall i | 0 <= i < |schemas| :: SchemaFits(schemas[i], t.rings[i])
  }

  predicate HasPair(schemas: seq<SchemaConfig>, i: nat, k: nat) {
    i < |schemas| && k + 1 < |schemas[i].tiers|
  }

  /** Pair `(i, k)` can be consolidated by writing the targets of `order`. */
  ghost predicate CanPass(schemas: seq<SchemaConfig>, t: Tiers, i: nat, k: nat, order: seq<Target>) {
    && TiersFit(schemas, t) && HasPair(schemas, i, k) && schemas[i].tiers[k + 1].consolidationFn.Some?
    && var pair, last := PairOf(schemas[i], k), LastProcessed(t.cursors, i, k);
       && Enumerates(t.rings[i][k], pair, last, order)
       && !MeetsWindowZero(t.rings[i][k], pair, last)
  }

  ghost function PairPass(schemas: seq<SchemaConfig>, t: Tiers, i: nat, k: nat, order: seq<Target>): (t': Tiers)
    requires CanPass(schemas, t, i, k, order)
    ensures TiersFit(schemas, t')
  {
    var pair, last := PairOf(schemas[i], k), LastProcessed(t.cursors, i, k);
    EnumeratedInColumns(t.rings[i][k], pair, last, order);
    var o := Pass(t.rings[i][k], t.rings[i][k + 1], pair, last, order);
    Tiers(t.rings[i := t.rings[i][k + 1 := o.dst]], t.cursors[KeyOf(i, k) := o.last])
  }

  datatype PairTrace = PairTrace(schema: nat, tier: nat, order: seq<Target>)

  /** `t'` is what the passes of `trace`, in order, make of `t`. */
  ghost predicate Leads(schemas: seq<SchemaConfig>, t: Tiers, trace: seq<PairTrace>, t': Tiers)
    decreases |trace|
  {
    if trace == [] then t' == t
    else exists mid :: LeadsVia(schemas, t, trace, mid, t')
  }

  ghost predicate LeadsVia(schemas: seq<SchemaConfig>, t: Tiers, trace: seq<PairTrace>, mid: Tiers, t': Tiers)
    requires trace != []
    decreases |trace|, 0
  {
    var p := trace[|trace| - 1];
    && Leads(schemas, t, trace[..|trace| - 1], mid)
    && CanPass(schemas, mid, p.schema, p.tier, p.order)
    && t' == PairPass(schemas, mid, p.schema, p.tier, p.order)
  }

  /** Comes earlier in the cascade: schema by schema, finer tiers first. */
  predicate Earlier(i: nat, k: nat, i': nat, k': nat) {
    i < i' || (i == i' && k < k')
  }

  /** The trace visits every tier pair of every schema once, in cascade order. */
  ghost predicate CoversAllPairs(schemas: seq<SchemaConfig>, trace: seq<PairTrace>) {
    && (forall i, j | 0 <= i < j < |trace| ::
          Earlier(trace[i].schema, trace[i].tier, trace[j].schema, trace[j].tier))
    && (forall i, k | HasPair(schemas, i, k) :: Visits(trace, i, k))
  }

  /** The trace has visited, in order, exactly the pairs that come before `(i, k)`. */
  ghost predicate CoveredBelow(schemas: seq<SchemaConfig>, trace: seq<PairTrace>, i: nat, k: nat) {
    && (forall a, b | 0 <= a < b < |trace| ::
          Earlier(trace[a].schema, trace[a].tier, trace[b].schema, trace[b].tier))
    && (forall a | 0 <= a < |trace| :: Earlier(trace[a].schema, trace[a].tier, i, k))
    && (forall x, y | HasPair(schemas, x, y) && Earlier(x, y, i, k) :: Visits(trace, x, y))
  }

  ghost predicate Visits(trace: seq<PairTrace>, x: nat, y: nat) {
    exists j :: 0 <= j < |trace| && trace[j].schema == x && trace[j].tier == y
  }

  // --------------------------------------------------------------- failures

  /** Pair `(i, k)` cannot be consolidated: it has no function, or a window that starts at 0. */
  ghost predicate Blocked(schemas: seq<SchemaConfig>, t: Tiers, i: nat, k: nat) {
    && TiersFit(schemas, t) && HasPair(schemas, i, k)
    && (schemas[i].tiers[k + 1].consolidationFn.None?
        || MeetsWindowZero(t.rings[i][k], PairOf(schemas[i], k), LastProcessed(t.cursors, i, k)))
  }

  ghost predicate OnlyRingDiffers(before: seq<seq<Ring>>, after: seq<seq<Ring>>, i: nat, k: nat) {
    && |after| == |before| && i < |before| && |after[i]| == |before[i]| && k < |before[i]|
    && after == before[i := before[i][k := after[i][k]]]
  }

  /**
   The passes of `trace`, all pairs before `(i, k)`, led to `mid`, where `(i, k)`
   is blocked. Its destination may hold some of the windows; all other rings are
   those of `mid`.
   */
  ghost predicate StopsAt(schemas: seq<SchemaConfig>, before: Tiers, trace: seq<PairTrace>, after: seq<seq<Ring>>,
                          mid: Tiers, i: nat, k: nat)
  {
    && CoveredBelow(schemas, trace, i, k) && Leads(schemas, before, trace, mid)
    && Blocked(schemas, mid, i, k) && OnlyRingDiffers(mid.rings, after, i, k + 1)
  }

  ghost predicate Stops(schemas: seq<SchemaConfig>, before: Tiers, trace: seq<PairTrace>, after: seq<seq<Ring>>) {
    exists mid, i: nat, k: nat :: StopsAt(schemas, before, trace, after, mid, i, k)
  }

  lemma CompleteNeverStops(schemas: seq<SchemaConfig>, before: Tiers, trace: seq<PairTrace>, after: seq<seq<Ring>>)
    requires CoversAllPairs(schemas, trace)
    ensures !Stops(schemas, before, trace, after)
  {
    forall i: nat, k: nat | CoveredBelow(schemas, trace, i, k) ensures !Visits(trace, i, k) {
    }
  }

  lemma NoRingDiffers(rings: seq<seq<Ring>>, i: nat, k: nat)
    requires i < |rings| && k < |rings[i]|
    ensures OnlyRingDiffers(rings, rings, i, k)
  {
    assert rings[i][k := rings[i][k]] == rings[i];
  }

  function Operations(trace: seq<PairTrace>): nat {
    if trace == [] then 0 else Operations(trace[..|trace| - 1]) + |trace[|trace| - 1].order|
  }

  // ------------------------------------------------------------ idempotence

  /** The pair has a cursor and nothing new to consolidate. */
  ghost predicate Quiet(schemas: seq<SchemaConfig>, t: Tiers, i: nat, k: nat) {
    && TiersFit(schemas, t) && HasPair(schemas, i, k) && schemas[i].tiers[k + 1].consolidationFn.Some?
    && KeyOf(i, k) in t.cursors
    && forall target :: !IsTarget(t.rings[i][k], PairOf(schemas[i], k), t.cursors[KeyOf(i, k)], target)
  }

  lemma PassMakesQuiet(schemas: seq<SchemaConfig>, t: Tiers, i: nat, k: nat, order: seq<Target>)
    requires CanPass(schemas, t, i, k, order)
    ensures Quiet(schemas, PairPass(schemas, t, i, k, order), i, k)
  {
    var t', last := PairPass(schemas, t, i, k, order), LastProcessed(t.cursors, i, k);
    var src, pair := t.rings[i][k], PairOf(schemas[i], k);
    assert t'.rings[i][k] == src;
    if order != [] {
      assert order[0] in order;
      assert !HasNews(src, pair, t'.cursors[KeyOf(i, k)]);
    } else {
      assert t'.cursors[KeyOf(i, k)] == last;
      forall target ensures !IsTarget(src, pair, last, target) {
        assert target !in order;
      }
    }
  }

  lemma LaterPassKeepsQuiet(schemas: seq<SchemaConfig>, t: Tiers, i: nat, k: nat, i': nat, k': nat, order: seq<Target>)
    requires Quiet(schemas, t, i, k) && CanPass(schemas, t, i', k', order) && Earlier(i, k, i', k')
    ensures Quiet(schemas, PairPass(schemas, t, i', k', order), i, k)
  {
    var t' := PairPass(schemas, t, i', k', order);
    assert t'.rings[i][k] == t.rings[i][k];
    assert KeyOf(i, k) != KeyOf(i', k');
  }

  lemma {:induction false} TraceMakesQuiet(schemas: seq<SchemaConfig>, t: Tiers, trace: seq<PairTrace>, t': Tiers, j: nat)
    requires Leads(schemas, t, trace, t') && j < |trace|
    requires forall i, j | 0 <= i < j < |trace| ::
               Earlier(trace[i].schema, trace[i].tier, trace[j].schema, trace[j].tier)
    ensures Quiet(schemas, t', trace[j].schema, trace[j].tier)
    decreases |trace|
  {
    var n := |trace| - 1;
    var mid :| LeadsVia(schemas, t, trace, mid, t');
    var p := trace[n];
    if j == n {
      PassMakesQuiet(schemas, mid, p.schema, p.tier, p.order);
    } else {
      TraceMakesQuiet(schemas, t, trace[..n], mid, j);
      LaterPassKeepsQuiet(schemas, mid, trace[j].schema, trace[j].tier, p.schema, p.tier, p.order);
    }
  }

  lemma NothingToWrite(src: Ring, pair: TierPair, last: nat, order: seq<Target>)
    requires src.Shaped() && pair.destInterval > 0 && pair.maxSeries <= |src.vals|
    requires Enumerates(src, pair, last, order) && forall target :: !IsTarget(src, pair, last, target)
    ensures order == []
  {
    if order != [] {
      FirstIsMember(order);
    }
  }

  lemma FirstIsMember(order: seq<Target>)
    requires order != []
    ensures order[0] in order
  {
  }

  lemma QuietIsNotBlocked(schemas: seq<SchemaConfig>, t: Tiers, i: nat, k: nat)
    requires Quiet(schemas, t, i, k)
    ensures !Blocked(schemas, t, i, k)
  {
  }

  lemma QuietPassChangesNothing(schemas: seq<SchemaConfig>, t: Tiers, i: nat, k: nat, order: seq<Target>)
    requires Quiet(schemas, t, i, k) && CanPass(schemas, t, i, k, order)
    ensures order == [] && PairPass(schemas, t, i, k, order) == t
  {
    NothingToWrite(t.rings[i][k], PairOf(schemas[i], k), t.cursors[KeyOf(i, k)], order);
    assert PairPass(schemas, t, i, k, order).rings[i] == t.rings[i];
  }

  lemma {:induction false} QuietTraceChangesNothing(schemas: seq<SchemaConfig>, t: Tiers, trace: seq<PairTrace>, t': Tiers)
    requires Leads(schemas, t, trace, t')
    requires forall i, k | HasPair(schemas, i, k) :: Quiet(schemas, t, i, k)
    ensures t' == t && Operations(trace) == 0
    decreases |trace|
  {
    if trace != [] {
      var n := |trace| - 1;
      var mid :| LeadsVia(schemas, t, trace, mid, t');
      QuietTraceChangesNothing(schemas, t, trace[..n], mid);
      QuietPassChangesNothing(schemas, t, trace[n].schema, trace[n].tier, trace[n].order);
    }
  }

  lemma CascadeMakesQuiet(schemas: seq<SchemaConfig>, t: Tiers, trace: seq<PairTrace>, t': Tiers)
    requires CoversAllPairs(schemas, trace) && Leads(schemas, t, trace, t')
    ensures forall i, k | HasPair(schemas, i, k) :: Quiet(schemas, t', i, k)
  {
    forall i, k | HasPair(schemas, i, k) ensures Quiet(schemas, t', i, k) {
      assert Visits(trace, i, k);
      var j: nat :| j < |trace| && trace[j].schema == i && trace[j].tier == k;
      TraceMakesQuiet(schemas, t, trace, t', j);
    }
  }

  /**
   A cascade right after a successful cascade does nothing: for any number of
   schemas and tiers, any rings and cursors to begin with and any window orders
   in either, it meets no error, performs no operation and leaves every ring and
   cursor as it was.
   */
  lemma CascadeIsIdempotent(schemas: seq<SchemaConfig>, t: Tiers, first: seq<PairTrace>, t1: Tiers,
                            second: seq<PairTrace>)
    requires CoversAllPairs(schemas, first) && Leads(schemas, t, first, t1)
    ensures forall after :: !Stops(schemas, t1, second, after)
    ensures forall t2 | Leads(schemas, t1, second, t2) :: t2 == t1 && Operations(second) == 0
  {
    CascadeMakesQuiet(schemas, t, first, t1);
    forall t2 | Leads(schemas, t1, second, t2) ensures t2 == t1 && Operations(second) == 0 {
      QuietTraceChangesNothing(schemas, t1, second, t2);
    }
    forall after ensures !Stops(schemas, t1, second, after) {
      if Stops(schemas, t1, second, after) {
        var mid, i: nat, k: nat :| StopsAt(schemas, t1, second, after, mid, i, k);
        QuietTraceChangesNothing(schemas, t1, second, mid);
        QuietIsNotBlocked(schemas, t1, i, k);
      }
    }
  }
}
