/**
 Runs in which delivery goes wrong. A restart between a push and the save of its
 cursor delivers a sample twice, and so does a write that comes late, without any
 restart. A failed push loses a sample until the next restart.
 */
module Redelivery {
  import opened Wrappers
  import opened Floats
  import opened RingModel
  import opened Exports
  import opened DrainReads
  import opened Delivery
  import opened DeliveryRuns
  import opened SplitWindows

  lemma OneMoreEvent(rule: Rule, start: Node, events: seq<Event>, mid: Node, event: Event) returns (s: Node)
    requires IsStart(start) && Reaches(rule, start, events, mid) && NodeOk(mid) && Allows(rule, mid, event)
    ensures s == Happen(mid, event) && Reaches(rule, start, events + [event], s) && Sound(s)
  {
    s := Happen(mid, event);
    assert (events + [event])[..|events|] == events;
    assert Via(rule, start, events + [event], mid, s);
    ReachableIsSound(rule, start, events + [event], s);
  }

  lemma TickDelivers(s: Node, push: Push, stamp: Stamp)
    requires Sound(s) && DueNow(s, stamp) && !push.PushFailed?
    ensures stamp in Happen(s, Tick(push)).delivered
  {
    DrainedIffDue(s, stamp);
  }

  lemma DeliveredAndDue(s: Node, stamp: Stamp)
    requires Sound(s) && stamp in s.delivered && DueNow(s, stamp)
    ensures !NoDuplicates(Happen(s, Tick(PushedAndSaved)).delivered)
  {
    var i :| 0 <= i < |s.delivered| && s.delivered[i] == stamp;
    assert DueNow(s, s.delivered[i]);
    PushRepeatsIff(s, PushedAndSaved);
  }

  lemma FourEvents(a: Event, b: Event, c: Event, d: Event)
    ensures [a] + [b] + [c] + [d] == [a, b, c, d]
  {
  }

  // ------------------------------------------------------ one sample, at 2

  ghost const STAMP: Stamp := ((0, 0, 0), 2)

  ghost function Fresh(): (s: Node)
    ensures IsStart(s)
  {
    Node([Blank(1, 4, 1)], [Handle(0, 0, 0)], map[], map[], [], [], 0)
  }

  lemma SampleIsDue(s: Node)
    requires NodeOk(s) && s.rings == [SRC1] && s.handles == Fresh().handles && s.cursors == map[]
    ensures DueNow(s, STAMP)
  {
    SourceReads();
    assert VisibleAt(SRC1, 0, 2, 2);
    assert s.handles[0] == Handle(0, 0, 0);
  }

  lemma Recorded(rule: Rule) returns (s: Node)
    requires rule == AnyRun || rule == NoRestarts
    ensures Reaches(rule, Fresh(), [Record(0, One(2))], s) && s == Fresh().(rings := [SRC1])
    ensures Sound(s) && DueNow(s, STAMP)
  {
    SourceWrites();
    assert One(2).entries[..0] == [];
    s := OneMoreEvent(rule, Fresh(), [], Fresh(), Record(0, One(2)));
    assert [] + [Record(0, One(2))] == [Record(0, One(2))];
    SampleIsDue(s);
  }

  lemma Restarted(s: Node)
    requires NodeOk(s) && s.rings == [SRC1] && s.handles == Fresh().handles && s.saved == map[]
    ensures DueNow(Happen(s, Restart), STAMP)
  {
    assert Happen(s, Restart).rings == [SRC1];
    SampleIsDue(Happen(s, Restart));
  }

  lemma Unsaved() returns (s: Node)
    ensures Reaches(AnyRun, Fresh(), [Record(0, One(2))] + [Tick(PushedNotSaved)], s) && Sound(s)
    ensures STAMP in s.delivered && s.rings == [SRC1] && s.handles == Fresh().handles && s.saved == map[]
  {
    var before := Recorded(AnyRun);
    TickDelivers(before, PushedNotSaved, STAMP);
    s := OneMoreEvent(AnyRun, Fresh(), [Record(0, One(2))], before, Tick(PushedNotSaved));
  }

  /** At-most-once delivery, as documented, fails for this run: the cursor of the first push is not saved. */
  lemma RedeliveryCounterexample() returns (s: Node)
    ensures Reaches(AnyRun, Fresh(), [Record(0, One(2)), Tick(PushedNotSaved), Restart, Tick(PushedAndSaved)], s)
    ensures !NoDuplicates(s.delivered)
  {
    var events := [Record(0, One(2))];
    var s2 := Unsaved();
    Restarted(s2);
    var s3 := OneMoreEvent(AnyRun, Fresh(), events + [Tick(PushedNotSaved)], s2, Restart);
    DeliveredAndDue(s3, STAMP);
    s := OneMoreEvent(AnyRun, Fresh(), events + [Tick(PushedNotSaved)] + [Restart], s3, Tick(PushedAndSaved));
    FourEvents(Record(0, One(2)), Tick(PushedNotSaved), Restart, Tick(PushedAndSaved));
  }

  /** The sample is not delivered in any later run without a restart, but it is after a restart now. */
  ghost predicate LostUntilRestart(s: Node, stamp: Stamp) {
    && Sound(s) && stamp in s.lost
    && (forall events, s' :: Reaches(NoRestarts, s, events, s') ==> stamp !in s'.delivered)
    && stamp in Happen(Happen(s, Restart), Tick(PushedAndSaved)).delivered
  }

  /**
   One failed push: whatever happens later, short of a restart, never delivers the
   sample; a restart while no cursor was saved brings it back.
   */
  lemma LossCounterexample() returns (s: Node)
    ensures Reaches(NoRestarts, Fresh(), [Record(0, One(2)), Tick(PushFailed)], s) && LostUntilRestart(s, STAMP)
  {
    var before := Recorded(NoRestarts);
    DrainedIffDue(before, STAMP);
    s := OneMoreEvent(NoRestarts, Fresh(), [Record(0, One(2))], before, Tick(PushFailed));
    assert [Record(0, One(2))] + [Tick(PushFailed)] == [Record(0, One(2)), Tick(PushFailed)];
    SampleIsPassed(before);
    forall events, s' | Reaches(NoRestarts, s, events, s') ensures STAMP !in s'.delivered {
      PassedIsNeverDelivered(s, events, s', STAMP);
    }
    Restarted(s);
    EventKeepsSound(s, Restart);
    TickDelivers(Happen(s, Restart), PushedAndSaved, STAMP);
  }

  lemma SampleIsPassed(s: Node)
    requires s == Fresh().(rings := [SRC1]) && Sound(s)
    ensures Passed(Happen(s, Tick(PushFailed)), STAMP)
  {
    assert s.handles[0] == Handle(0, 0, 0);
    DrainStoreShare(s.rings, 1, s.handles, s.cursors, (0, 0, 0));
    SourceReads();
    assert DrainPoints(SRC1, 0, None) == [(2, ONE)];
  }

  // --------------------------------------------------- late, and no restart

  function Other(time: nat): Batch {
    Batch(time, [(1, ONE)])
  }

  /** Two series share the ring; the last write is to the other one. */
  ghost const LATE: Ring := Ring(1, [0, 6, 12, 3, 9], [[NaN, ONE, NaN, ONE, ONE], [NaN, NaN, ONE, NaN, NaN]], 2, true)

  ghost const WRITES: seq<Event> := [Record(0, One(3)), Record(0, One(9)), Record(0, One(6)), Record(0, Other(12))]

  ghost const NINE: Stamp := ((0, 0, 0), 9)

  ghost function Pair(): (s: Node)
    ensures IsStart(s)
  {
    Node([Blank(1, 5, 2)], [Handle(0, 0, 0), Handle(0, 1, 1)], map[], map[], [], [], 0)
  }

  lemma LateWrites(r0: Ring, r1: Ring, r2: Ring, r3: Ring)
    requires r0 == Blank(1, 5, 2) && r1 == r0.Write(One(3)) && r2 == r1.Write(One(9)) && r3 == r2.Write(One(6))
    ensures r3.Write(Other(12)) == LATE
  {
    assert One(3).entries[..0] == [] && One(9).entries[..0] == [] && One(6).entries[..0] == [];
    assert Other(12).entries[..0] == [];
    assert r1.ts == [0, 0, 0, 3, 0] && r1.cursor == 3 && !r1.wrapped;
    assert r2.ts == [0, 0, 0, 3, 9] && r2.cursor == 4 && !r2.wrapped;
    assert r3.ts == [0, 6, 0, 3, 9] && r3.cursor == 1 && r3.wrapped;
    assert r1.vals[0] == [NaN, NaN, NaN, ONE, NaN] && r1.vals[1] == [NaN, NaN, NaN, NaN, NaN];
    assert r2.vals[0] == [NaN, NaN, NaN, ONE, ONE] && r2.vals[1] == [NaN, NaN, NaN, NaN, NaN];
    assert r3.vals[0] == [NaN, ONE, NaN, ONE, ONE] && r3.vals[1] == [NaN, NaN, NaN, NaN, NaN];
    var w := r3.Write(Other(12));
    assert w.vals[0] == LATE.vals[0] && w.vals[1] == LATE.vals[1];
  }

  /** The first drain leaves the cursor at 6, the last point read, with 9 still after it. */
  lemma LateDrains()
    ensures DrainPoints(LATE, 0, None) == [(3, ONE), (9, ONE), (6, ONE)]
    ensures DrainPoints(LATE, 0, Some(6)) == [(9, ONE)]
  {
    LateScan(3);
    LateScan(7);
    assert LATE.FirstUsed(3, 5) == Some(3);
  }

  lemma LateScan(start: nat)
    requires start == 3 || start == 7
    ensures LATE.Read(0, start, 13) == if start == 3 then [(3, ONE), (9, ONE), (6, ONE)] else [(9, ONE)]
  {
    assert LATE.Scan(0, start, 13, 2, 1) == [];
    assert LATE.Scan(0, start, 13, 1, 2) == if start == 3 then [(6, ONE)] else [];
    assert LATE.Scan(0, start, 13, 0, 3) == if start == 3 then [(6, ONE)] else [];
    assert LATE.Scan(0, start, 13, 4, 4) == if start == 3 then [(9, ONE), (6, ONE)] else [(9, ONE)];
    assert LATE.Scan(0, start, 13, 3, 5) == if start == 3 then [(3, ONE), (9, ONE), (6, ONE)] else [(9, ONE)];
  }

  lemma LateRun() returns (s: Node)
    ensures Reaches(NoRestarts, Pair(), WRITES, s) && Sound(s) && s == Pair().(rings := [LATE])
  {
    var s0 := Pair();
    var s1 := OneMoreEvent(NoRestarts, s0, [], s0, WRITES[0]);
    assert [] + [WRITES[0]] == [WRITES[0]];
    var s2 := OneMoreEvent(NoRestarts, s0, [WRITES[0]], s1, WRITES[1]);
    var s3 := OneMoreEvent(NoRestarts, s0, [WRITES[0]] + [WRITES[1]], s2, WRITES[2]);
    s := OneMoreEvent(NoRestarts, s0, [WRITES[0]] + [WRITES[1]] + [WRITES[2]], s3, WRITES[3]);
    FourEvents(WRITES[0], WRITES[1], WRITES[2], WRITES[3]);
    LateWrites(s0.rings[0], s1.rings[0], s2.rings[0], s3.rings[0]);
    assert s.rings == [LATE];
  }

  lemma NineIsDue(s: Node)
    requires NodeOk(s) && s.rings == [LATE] && s.handles == Pair().handles
    requires CursorOf(s.cursors, (0, 0, 0)) == None || CursorOf(s.cursors, (0, 0, 0)) == Some(6)
    ensures DueNow(s, NINE)
  {
    assert s.handles[0] == Handle(0, 0, 0);
    assert VisibleAt(LATE, 0, 9, 4);
    assert LATE.FirstUsed(3, 5) == Some(3);
  }

  /**
   Two successful pushes with their cursors saved, no restart, and one sample
   delivered twice: the write at 6 comes late, so the first drain ends at 6 and
   the second returns 9 again.
   */
  lemma LateRedeliveryCounterexample() returns (s: Node)
    ensures Reaches(NoLosses, Pair(), WRITES + [Tick(PushedAndSaved)] + [Tick(PushedAndSaved)], s)
    ensures !NoDuplicates(s.delivered)
  {
    var s1 := LateRun();
    NineIsDue(s1);
    TickDelivers(s1, PushedAndSaved, NINE);
    NoLossYet(s1);
    var s2 := OneMoreEvent(NoLosses, Pair(), WRITES, s1, Tick(PushedAndSaved));
    DrainStoreShare(s1.rings, 1, s1.handles, s1.cursors, (0, 0, 0));
    LateDrains();
    assert s1.handles[0] == Handle(0, 0, 0);
    NineIsDue(s2);
    DeliveredAndDue(s2, NINE);
    s := OneMoreEvent(NoLosses, Pair(), WRITES + [Tick(PushedAndSaved)], s2, Tick(PushedAndSaved));
  }

  lemma NoLossYet(s: Node)
    requires Reaches(NoRestarts, Pair(), WRITES, s) && s.lost == []
    ensures Reaches(NoLosses, Pair(), WRITES, s)
  {
    NothingLostIff(Pair(), WRITES, s);
  }
}
