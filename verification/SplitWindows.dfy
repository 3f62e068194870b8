/** A run of four steps in which a window is split across two passes, and what that costs. */
module SplitWindows {
  import opened Wrappers
  import opened Floats
  import opened RingModel
  import opened Schemas
  import opened Downsampling
  import opened Passes
  import opened Incremental

  const ONE: Float := Finite(1.0)

  /** One sample per bucket, counted over windows of two. */
  ghost const COUNT_PAIR: TierPair := TierPair(1, 2, Count, 1)

  function One(time: nat): Batch {
    Batch(time, [(0, ONE)])
  }

  ghost const SRC1: Ring := Ring(1, [0, 0, 2, 0], [[NaN, NaN, ONE, NaN]], 2, false)
  ghost const SRC2: Ring := Ring(1, [0, 0, 2, 3], [[NaN, NaN, ONE, ONE]], 3, false)
  ghost const DST1: Ring := Ring(2, [0, 2, 0, 0], [[NaN, ONE, NaN, NaN]], 1, false)

  /** Record at 2, pass, record at 3, pass. */
  ghost const STEPS: seq<Step> := [Record(One(2)), Consolidate([(2, 0)]), Record(One(3)), Consolidate([(2, 0)])]

  ghost const START: Machine := Machine(Blank(1, 4, 1), Blank(2, 4, 1), 0, [], [])
  ghost const END: Machine := Machine(SRC2, DST1, 3, [One(2), One(3)], [1, 2])

  lemma SourceWrites()
    ensures Blank(1, 4, 1).Write(One(2)) == SRC1 && SRC1.Write(One(3)) == SRC2
  {
    assert One(2).entries[..0] == [];
    assert Blank(1, 4, 1).Write(One(2)).vals[0] == SRC1.vals[0];
    assert SRC1.Write(One(3)).vals[0] == SRC2.vals[0];
  }

  lemma SourceReads()
    ensures SRC1.Oldest() == Some(2) && SRC1.Newest() == Some(2) && SRC2.Newest() == Some(3)
    ensures SRC1.Read(0, 2, 3) == [(2, ONE)] && SRC2.Read(0, 3, 4) == [(3, ONE)]
  {
    assert SRC1.FirstUsed(2, 2) == Some(2);
    assert SRC1.FirstUsed(1, 3) == Some(2);
    assert SRC1.FirstUsed(0, 4) == Some(2);
    assert SRC1.Scan(0, 2, 3, 2, 1) == [(2, ONE)];
    assert SRC1.Scan(0, 2, 3, 1, 2) == [(2, ONE)];
    assert SRC1.Scan(0, 2, 3, 0, 3) == [(2, ONE)];
    assert SRC2.Scan(0, 3, 4, 3, 1) == [(3, ONE)];
    assert SRC2.Scan(0, 3, 4, 2, 2) == [(3, ONE)];
    assert SRC2.Scan(0, 3, 4, 1, 3) == [(3, ONE)];
    assert SRC2.Scan(0, 3, 4, 0, 4) == [(3, ONE)];
  }

  /** A pass that reads one point has one target. */
  lemma OnePointOneTarget(src: Ring, pair: TierPair, last: nat, t: nat, v: Float)
    requires src.Shaped() && pair.destInterval > 0 && pair.maxSeries == 1 && |src.vals| == 1
    requires HasNews(src, pair, last) && PassRead(src, pair, last, 0) == [(t, v)]
    ensures var w := t / pair.destInterval * pair.destInterval;
            && Enumerates(src, pair, last, [(w, 0)])
            && StartValues(PassRead(src, pair, last, 0), pair.destInterval, w) == [v]
  {
    var w := t / pair.destInterval * pair.destInterval;
    forall target: Target ensures target in [(w, 0)] <==> IsTarget(src, pair, last, target) {
      TargetOfOne(src, pair, last, t, v, target);
    }
    ValuesOfOne(t, v, pair.destInterval, w);
  }

  lemma TargetOfOne(src: Ring, pair: TierPair, last: nat, t: nat, v: Float, target: Target)
    requires src.Shaped() && pair.destInterval > 0 && pair.maxSeries == 1 && |src.vals| == 1
    requires HasNews(src, pair, last) && PassRead(src, pair, last, 0) == [(t, v)]
    ensures IsTarget(src, pair, last, target) <==> target == (t / pair.destInterval * pair.destInterval, 0)
  {
    ValuesOfOne(t, v, pair.destInterval, target.0);
  }

  lemma ValuesOfOne(t: nat, v: Float, width: nat, w: nat)
    requires width > 0
    ensures StartValues([(t, v)], width, w) == if w == t / width * width then [v] else []
  {
    assert [(t, v)] == [] + [(t, v)];
    StartValuesAppend([], (t, v), width, w);
  }

  lemma CountOfOne()
    ensures Apply(Count, [ONE]) == ONE
  {
    assert [ONE][..0] == [];
    assert FiniteValues([ONE]) == [1.0];
  }

  lemma CountOfTwo()
    ensures Apply(Count, [ONE, ONE]) == Finite(2.0)
  {
    FiniteListKeepsAll([ONE, ONE]);
  }

  lemma OneWindowPass(src: Ring, dst: Ring, last: nat, t: nat)
    requires PairFits(src, dst, COUNT_PAIR) && |src.vals| == 1
    requires HasNews(src, COUNT_PAIR, last) && PassRead(src, COUNT_PAIR, last, 0) == [(t, ONE)] && t / 2 == 1
    ensures Enumerates(src, COUNT_PAIR, last, [(2, 0)])
    ensures Pass(src, dst, COUNT_PAIR, last, [(2, 0)]) == Outcome(dst.Write(One(2)), PassEnd(src) - 1, 1)
  {
    OnePointOneTarget(src, COUNT_PAIR, last, t, ONE);
    CountOfOne();
    var log := PassLog(src, COUNT_PAIR, last, [(2, 0)]);
    assert log == [One(2)];
    assert log[..0] == [];
    assert Run(dst, log[..0]) == dst;
  }

  lemma DestinationWrites()
    ensures Blank(2, 4, 1).Write(One(2)) == DST1 && DST1.Write(One(2)) == DST1
  {
    assert One(2).entries[..0] == [];
    assert Blank(2, 4, 1).Write(One(2)).vals[0] == DST1.vals[0];
    assert DST1.Write(One(2)).vals[0] == DST1.vals[0];
  }

  lemma Step1() returns (m: Machine)
    ensures m == Machine(SRC1, Blank(2, 4, 1), 0, [One(2)], []) && Reaches(START, COUNT_PAIR, STEPS[..1], m)
  {
    SourceWrites();
    m := Machine(SRC1, Blank(2, 4, 1), 0, [One(2)], []);
    assert STEPS[..1] == [Record(One(2))] && STEPS[..1][..0] == [];
    assert [] + [One(2)] == [One(2)];
    assert Reaches(START, COUNT_PAIR, [], START);
    assert Do(START, COUNT_PAIR, Record(One(2))) == m;
    assert StepTo(START, COUNT_PAIR, STEPS[..1], START, m);
  }

  lemma Step2() returns (m: Machine)
    ensures m == Machine(SRC1, DST1, 2, [One(2)], [1]) && Reaches(START, COUNT_PAIR, STEPS[..2], m)
  {
    var before := Step1();
    SourceReads();
    DestinationWrites();
    OneWindowPass(SRC1, Blank(2, 4, 1), 0, 2);
    m := Machine(SRC1, DST1, 2, [One(2)], [1]);
    assert STEPS[..2][..1] == STEPS[..1];
    assert [] + [1] == [1];
    assert StepTo(START, COUNT_PAIR, STEPS[..2], before, m);
  }

  lemma Step3() returns (m: Machine)
    ensures m == Machine(SRC2, DST1, 2, [One(2), One(3)], [1]) && Reaches(START, COUNT_PAIR, STEPS[..3], m)
  {
    var before := Step2();
    SourceWrites();
    m := Machine(SRC2, DST1, 2, [One(2), One(3)], [1]);
    assert STEPS[..3][..2] == STEPS[..2];
    assert StepTo(START, COUNT_PAIR, STEPS[..3], before, m);
  }

  lemma Step4()
    ensures Reaches(START, COUNT_PAIR, STEPS, END)
  {
    var before := Step3();
    SourceReads();
    DestinationWrites();
    OneWindowPass(SRC2, DST1, 2, 3);
    assert STEPS[..|STEPS| - 1] == STEPS[..3];
    assert StepTo(START, COUNT_PAIR, STEPS, before, END);
  }

  lemma ValuesOfBoth()
    ensures LogValues([One(2), One(3)], 2, 2, 0) == [ONE, ONE]
  {
    var a, b := [One(2)], [One(2), One(3)];
    assert One(2).entries[..0] == [];
    assert b[..1] == a && a[..0] == [];
    assert AllPoints(a, 0) == [] + [(2, ONE)];
    assert AllPoints(b, 0) == AllPoints(a, 0) + [(3, ONE)];
    StartValuesAppend([], (2, ONE), 2, 2);
    StartValuesAppend(AllPoints(a, 0), (3, ONE), 2, 2);
  }

  lemma CellSaysOne()
    ensures END.dst.vals[0][END.dst.SlotOf(2)] == Finite(1.0)
  {
  }

  lemma OneShotSaysTwo(log: seq<Batch>)
    requires log == [One(2), One(3)]
    ensures OneShot(log, Count, 2, 2, 0) == Finite(2.0)
  {
    ValuesOfBoth();
    CountOfTwo();
  }

  /** Two samples were recorded and passed on, and the cell of their window says 1. */
  lemma SplitWindowCounterexample()
    ensures Reaches(START, COUNT_PAIR, STEPS, END)
    ensures END.dst.vals[0][END.dst.SlotOf(2)] == Finite(1.0)
    ensures OneShot(END.log, Count, 2, 2, 0) == Finite(2.0)
  {
    Step4();
    CellSaysOne();
    OneShotSaysTwo(END.log);
  }
}
