/**
 A run of four steps in which the third tier keeps a stale Last. The second
 cascade rewrites a window of the middle tier, but the cursor of the second pair
 has passed it and the middle tier has nothing newer, so it is not read again.
 */
module StaleTiers {
  import opened Wrappers
  import opened Floats
  import opened RingModel
  import opened Schemas
  import opened Passes
  import opened Incremental
  import opened MergedLogs
  import opened PassSummaries
  import opened ThreeTiers
  import Downsampling
  import SplitWindows

  const ONE: Float := Finite(1.0)
  const TWO: Float := Finite(2.0)

  ghost const FINE: TierPair := TierPair(1, 2, Last, 1)
  ghost const COARSE: TierPair := TierPair(2, 4, Last, 1)

  function Single(time: nat, v: Float): Batch {
    Batch(time, [(0, v)])
  }

  ghost const SRC1: Ring := Ring(1, [4, 0], [[ONE, NaN]], 0, false)
  ghost const SRC2: Ring := Ring(1, [4, 5], [[ONE, TWO]], 1, false)
  ghost const MID1: Ring := Ring(2, [4, 0], [[ONE, NaN]], 0, false)
  ghost const MID2: Ring := Ring(2, [4, 0], [[TWO, NaN]], 0, false)
  ghost const TOP1: Ring := Ring(4, [0, 4], [[NaN, ONE]], 1, false)

  lemma RingWrites()
    ensures Blank(1, 2, 1).Write(Single(4, ONE)) == SRC1 && SRC1.Write(Single(5, TWO)) == SRC2
    ensures Blank(2, 2, 1).Write(Single(4, ONE)) == MID1 && MID1.Write(Single(4, TWO)) == MID2
    ensures Blank(4, 2, 1).Write(Single(4, ONE)) == TOP1
  {
    assert Single(4, ONE).entries[..0] == [] && Single(5, TWO).entries[..0] == [] && Single(4, TWO).entries[..0] == [];
    assert Blank(1, 2, 1).Write(Single(4, ONE)).vals[0] == SRC1.vals[0];
    assert SRC1.Write(Single(5, TWO)).vals[0] == SRC2.vals[0];
    assert Blank(2, 2, 1).Write(Single(4, ONE)).vals[0] == MID1.vals[0];
    assert MID1.Write(Single(4, TWO)).vals[0] == MID2.vals[0];
    assert Blank(4, 2, 1).Write(Single(4, ONE)).vals[0] == TOP1.vals[0];
  }

  lemma PassReads()
    ensures HasNews(SRC1, FINE, 0) && PassEnd(SRC1) == 5 && PassRead(SRC1, FINE, 0, 0) == [(4, ONE)]
    ensures HasNews(SRC2, FINE, 4) && PassEnd(SRC2) == 6 && PassRead(SRC2, FINE, 4, 0) == [(5, TWO)]
    ensures HasNews(MID1, COARSE, 0) && PassEnd(MID1) == 5 && PassRead(MID1, COARSE, 0, 0) == [(4, ONE)]
    ensures !HasNews(MID2, COARSE, 4)
  {
    assert SRC1.FirstUsed(0, 2) == Some(4) && MID1.FirstUsed(0, 2) == Some(4);
    assert SRC1.Scan(0, 4, 5, 0, 1) == [(4, ONE)];
    assert SRC2.Scan(0, 5, 6, 1, 1) == [(5, TWO)];
    assert SRC2.Scan(0, 5, 6, 0, 2) == [(5, TWO)];
    assert MID1.Scan(0, 4, 5, 0, 1) == [(4, ONE)];
  }

  lemma LastOfOne(v: Float)
    requires v.Finite?
    ensures Apply(Last, [v]) == v
  {
    assert [v][..0] == [];
    assert FiniteValues([v]) == [v.value];
  }

  /** A pass over one point writes its window. */
  lemma OnePointPass(src: Ring, dst: Ring, pair: TierPair, last: nat, t: nat, v: Float, w: nat)
    requires PairFits(src, dst, pair) && |src.vals| == 1 && pair.maxSeries == 1 && pair.f == Last && v.Finite?
    requires HasNews(src, pair, last) && PassRead(src, pair, last, 0) == [(t, v)]
    requires w == t / pair.destInterval * pair.destInterval
    ensures Enumerates(src, pair, last, [(w, 0)]) && PassLog(src, pair, last, [(w, 0)]) == [Single(w, v)]
    ensures Pass(src, dst, pair, last, [(w, 0)]) == Outcome(dst.Write(Single(w, v)), PassEnd(src) - 1, 1)
  {
    SplitWindows.OnePointOneTarget(src, pair, last, t, v);
    LastOfOne(v);
    var log := PassLog(src, pair, last, [(w, 0)]);
    assert log == [Single(w, v)];
    RunOne(dst, log[0]);
  }

  lemma RunOne(r: Ring, b: Batch)
    requires r.Shaped()
    ensures Run(r, [b]) == r.Write(b) && Merged([b]) == [b]
  {
    assert [b][..0] == [];
  }

  // ---------------------------------------------------------------- the run

  ghost const START: Chain :=
    Chain(Machine(Blank(1, 2, 1), Blank(2, 2, 1), 0, [], []), Machine(Blank(2, 2, 1), Blank(4, 2, 1), 0, [], []))

  ghost const AFTER1: Chain := START.(fine := Machine(SRC1, Blank(2, 2, 1), 0, [Single(4, ONE)], []))

  ghost const AFTER2: Chain :=
    Chain(Machine(SRC1, MID1, 4, [Single(4, ONE)], [1]), Machine(MID1, TOP1, 4, [Single(4, ONE)], [1]))

  ghost const AFTER3: Chain := AFTER2.(fine := Machine(SRC2, MID1, 4, [Single(4, ONE), Single(5, TWO)], [1]))

  ghost const END: Chain :=
    Chain(Machine(SRC2, MID2, 5, [Single(4, ONE), Single(5, TWO)], [1, 2]),
          Machine(MID2, TOP1, 4, [Single(4, ONE), Single(4, TWO)], [1, 2]))

  ghost const STEPS: seq<ChainStep> :=
    [Write(Single(4, ONE)), Cascade([(4, 0)], [(4, 0)]), Write(Single(5, TWO)), Cascade([(4, 0)], [])]

  lemma FirstWrite()
    ensures ChainFits(START, FINE, COARSE) && ChainEnabled(START, FINE, COARSE, STEPS[0])
    ensures ChainDo(START, FINE, COARSE, STEPS[0]) == AFTER1
  {
    RingWrites();
    assert [] + [Single(4, ONE)] == [Single(4, ONE)];
  }

  lemma FirstCascade()
    ensures ChainFits(AFTER1, FINE, COARSE) && ChainEnabled(AFTER1, FINE, COARSE, STEPS[1])
    ensures ChainDo(AFTER1, FINE, COARSE, STEPS[1]) == AFTER2
  {
    RingWrites();
    PassReads();
    OnePointPass(SRC1, Blank(2, 2, 1), FINE, 0, 4, ONE, 4);
    RunOne(Blank(2, 2, 1), Single(4, ONE));
    OnePointPass(MID1, Blank(4, 2, 1), COARSE, 0, 4, ONE, 4);
    assert [] + [Single(4, ONE)] == [Single(4, ONE)];
    assert PassSummary(AFTER1.fine, FINE, [(4, 0)]) == [Single(4, ONE)];
  }

  lemma SecondWrite()
    ensures ChainFits(AFTER2, FINE, COARSE) && ChainEnabled(AFTER2, FINE, COARSE, STEPS[2])
    ensures ChainDo(AFTER2, FINE, COARSE, STEPS[2]) == AFTER3
  {
    RingWrites();
  }

  lemma SecondCascade()
    ensures ChainFits(AFTER3, FINE, COARSE) && ChainEnabled(AFTER3, FINE, COARSE, STEPS[3])
    ensures ChainDo(AFTER3, FINE, COARSE, STEPS[3]) == END
  {
    RingWrites();
    PassReads();
    OnePointPass(SRC2, MID1, FINE, 4, 5, TWO, 4);
    RunOne(MID1, Single(4, TWO));
    assert PassSummary(AFTER3.fine, FINE, [(4, 0)]) == [Single(4, TWO)];
    assert [1] + [2] == [1, 2];
  }

  lemma OneMoreStep(steps: seq<ChainStep>, mid: Chain, step: ChainStep, ch: Chain)
    requires ChainFits(START, FINE, COARSE) && ChainReaches(START, FINE, COARSE, steps, mid)
    requires ChainFits(mid, FINE, COARSE) && ChainEnabled(mid, FINE, COARSE, step) && ch == ChainDo(mid, FINE, COARSE, step)
    ensures ChainReaches(START, FINE, COARSE, steps + [step], ch)
  {
    assert (steps + [step])[..|steps|] == steps;
    assert ChainVia(START, FINE, COARSE, steps + [step], mid, ch);
  }

  lemma RunEnds()
    ensures ChainFits(START, FINE, COARSE) && ChainReaches(START, FINE, COARSE, STEPS, END)
  {
    FirstWrite();
    FirstCascade();
    SecondWrite();
    SecondCascade();
    RunOf(STEPS[0], STEPS[1], STEPS[2], STEPS[3]);
  }

  lemma RunOf(a: ChainStep, b: ChainStep, c: ChainStep, d: ChainStep)
    requires ChainFits(START, FINE, COARSE) && ChainEnabled(START, FINE, COARSE, a)
    requires ChainDo(START, FINE, COARSE, a) == AFTER1 && ChainEnabled(AFTER1, FINE, COARSE, b)
    requires ChainDo(AFTER1, FINE, COARSE, b) == AFTER2 && ChainEnabled(AFTER2, FINE, COARSE, c)
    requires ChainDo(AFTER2, FINE, COARSE, c) == AFTER3 && ChainEnabled(AFTER3, FINE, COARSE, d)
    requires ChainDo(AFTER3, FINE, COARSE, d) == END
    ensures ChainReaches(START, FINE, COARSE, [a, b, c, d], END)
  {
    OneMoreStep([], START, a, AFTER1);
    assert [] + [a] == [a] && [a] + [b] == [a, b] && [a, b] + [c] == [a, b, c] && [a, b, c] + [d] == [a, b, c, d];
    OneMoreStep([a], AFTER1, b, AFTER2);
    OneMoreStep([a, b], AFTER2, c, AFTER3);
    OneMoreStep([a, b, c], AFTER3, d, END);
  }

  /** Both samples lie in one coarse window, the later one is 2, and the third tier says 1. */
  lemma StaleLastCounterexample()
    ensures ChainFits(START, FINE, COARSE) && ChainReaches(START, FINE, COARSE, STEPS, END)
    ensures END.coarse.dst.ts[1] == 4 && END.coarse.dst.vals[0][1] == ONE
    ensures OneShot(END.fine.log, Last, 4, 4, 0) == TWO
  {
    RunEnds();
    LogAtEnd();
  }

  lemma LogAtEnd()
    ensures OneShot([Single(4, ONE), Single(5, TWO)], Last, 4, 4, 0) == TWO
  {
    PointsAtEnd(Single(4, ONE), Single(5, TWO));
    SplitWindows.ValuesOfOne(4, ONE, 4, 4);
    SplitWindows.ValuesOfOne(5, TWO, 4, 4);
    StartValuesConcat([(4, ONE)], [(5, TWO)], 4, 4);
    assert LogValues([Single(4, ONE), Single(5, TWO)], 4, 4, 0) == [ONE, TWO];
    LastOfTwo();
  }

  lemma PointsAtEnd(x: Batch, y: Batch)
    requires x == Single(4, ONE) && y == Single(5, TWO)
    ensures AllPoints([x, y], 0) == [(4, ONE)] + [(5, TWO)]
  {
    AllPointsAppend([], x, 0);
    AllPointsAppend([x], y, 0);
    assert [] + [x] == [x] && [x] + [y] == [x, y];
    SingleLookup(0, ONE, 0);
    SingleLookup(0, TWO, 0);
    assert AllPoints([x], 0) == [(4, ONE)];
  }

  lemma LastOfTwo()
    ensures Apply(Last, [ONE, TWO]) == TWO
  {
    Downsampling.FiniteListKeepsAll([ONE, TWO]);
  }
}
