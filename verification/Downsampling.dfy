/**
 Grouping points into windows and aggregating each window: the meaning of
 consolidation, and the functions for which it can be done in two stages.
 */
module Downsampling {
  import opened Floats
  import opened RingModel
  import opened Schemas
  import Cyclic

  /** The values of the points in window `u`, the one from `u * width` up to the next, in order. */
  function WindowValues(points: seq<Point>, width: nat, u: nat): seq<Float>
    requires width > 0
  {
    if points == [] then []
    else
      var last := points[|points| - 1];
      WindowValues(points[..|points| - 1], width, u) + (if last.0 / width == u then [last.1] else [])
  }

  ghost predicate Sorted(points: seq<Point>) {
    forall i, j | 0 <= i < j < |points| :: points[i].0 <= points[j].0
  }

  ghost predicate AllFinite(points: seq<Point>) {
    forall i | 0 <= i < |points| :: points[i].1.Finite?
  }

  /** One point per non-empty window below `top`, stamped with the window's start. */
  function Downsample(points: seq<Point>, width: nat, f: ConsolidationFn, top: nat): seq<Point>
    requires width > 0
  {
    if top == 0 then []
    else
      var values := WindowValues(points, width, top - 1);
      Downsample(points, width, f, top - 1)
      + (if values == [] then [] else [((top - 1) * width, Apply(f, values))])
  }

  // ------------------------------------------------------------ two stages

  predicate Mergeable(f: ConsolidationFn) {
    f.Min? || f.Max? || f.Sum? || f.Last?
  }

  ghost predicate FiniteList(values: seq<Float>) {
    forall i | 0 <= i < |values| :: values[i].Finite?
  }

  lemma {:induction false} FiniteListKeepsAll(values: seq<Float>)
    requires FiniteList(values)
    ensures |FiniteValues(values)| == |values|
    ensures forall i | 0 <= i < |values| :: Finite(FiniteValues(values)[i]) == values[i]
  {
    if values != [] {
      FiniteListKeepsAll(values[..|values| - 1]);
    }
  }

  function Merge(f: ConsolidationFn, x: real, y: real): real {
    match f
    case Min => if x <= y then x else y
    case Max => if x >= y then x else y
    case Sum => x + y
    case _ => y
  }

  lemma {:induction false} SumConcat(a: seq<real>, b: seq<real>)
    ensures SumOf(a + b) == SumOf(a) + SumOf(b)
  {
    if b == [] {
      assert a + b == a;
    } else {
      SumConcat(a, b[..|b| - 1]);
      assert (a + b)[..|a + b| - 1] == a + b[..|b| - 1];
    }
  }

  lemma FoldsOfConcat(a: seq<real>, b: seq<real>)
    requires a != [] && b != []
    ensures FoldMin(a).Finite? && FoldMin(b).Finite? && FoldMax(a).Finite? && FoldMax(b).Finite?
    ensures FoldMin(a + b) == Finite(Merge(Min, FoldMin(a).value, FoldMin(b).value))
    ensures FoldMax(a + b) == Finite(Merge(Max, FoldMax(a).value, FoldMax(b).value))
  {
    FoldMinIsMinimum(a); FoldMinIsMinimum(b); FoldMinIsMinimum(a + b);
    FoldMaxIsMaximum(a); FoldMaxIsMaximum(b); FoldMaxIsMaximum(a + b);
    assert FoldMin(a).value in a + b && FoldMin(b).value in a + b;
    assert FoldMax(a).value in a + b && FoldMax(b).value in a + b;
  }

  /** A mergeable function of a concatenation is the merge of its parts. */
  lemma ApplyConcat(f: ConsolidationFn, a: seq<Float>, b: seq<Float>)
    requires Mergeable(f) && FiniteValues(a) != [] && FiniteValues(b) != []
    ensures Apply(f, a).Finite? && Apply(f, b).Finite?
    ensures Apply(f, a + b) == Finite(Merge(f, Apply(f, a).value, Apply(f, b).value))
  {
    FiniteValuesConcat(a, b);
    SumConcat(FiniteValues(a), FiniteValues(b));
    FoldsOfConcat(FiniteValues(a), FiniteValues(b));
  }

  lemma ApplySingle(f: ConsolidationFn, x: real)
    requires Mergeable(f)
    ensures Apply(f, [Finite(x)]) == Finite(x)
  {
    assert [Finite(x)][..0] == [];
    assert FiniteValues([Finite(x)]) == [x];
    assert [x][..0] == [];
    FoldMinIsMinimum([x]);
    FoldMaxIsMaximum([x]);
    assert SumOf([x]) == SumOf([]) + x;
  }

  /** Appending a part and appending the aggregate of that part come to the same. */
  lemma AppendAggregate(f: ConsolidationFn, stage: seq<Float>, direct: seq<Float>, part: seq<Float>)
    requires Mergeable(f) && FiniteList(stage) && FiniteList(direct) && FiniteList(part) && part != []
    requires Apply(f, stage) == Apply(f, direct) && (stage == [] <==> direct == [])
    ensures Apply(f, part).Finite?
    ensures Apply(f, stage + [Apply(f, part)]) == Apply(f, direct + part)
  {
    FiniteListKeepsAll(stage); FiniteListKeepsAll(direct); FiniteListKeepsAll(part);
    assert Apply(f, part).Finite? by {
      FoldMinIsMinimum(FiniteValues(part));
      FoldMaxIsMaximum(FiniteValues(part));
    }
    var x := Apply(f, part).value;
    ApplySingle(f, x);
    if stage == [] {
      assert stage + [Finite(x)] == [Finite(x)] && direct + part == part;
    } else {
      FiniteListKeepsAll([Finite(x)]);
      ApplyConcat(f, stage, [Finite(x)]);
      ApplyConcat(f, direct, part);
    }
  }

  /** The points whose window of width `a` is below `top`. */
  function Below(points: seq<Point>, a: nat, top: nat): seq<Point>
    requires a > 0
  {
    if points == [] then []
    else
      var last := points[|points| - 1];
      Below(points[..|points| - 1], a, top) + (if last.0 / a < top then [last] else [])
  }

  lemma {:induction false} BelowAll(points: seq<Point>, a: nat, top: nat)
    requires a > 0 && forall i | 0 <= i < |points| :: points[i].0 / a < top
    ensures Below(points, a, top) == points
  {
    if points != [] {
      BelowAll(points[..|points| - 1], a, top);
    }
  }

  lemma {:induction false} BelowNone(points: seq<Point>, a: nat)
    requires a > 0
    ensures Below(points, a, 0) == []
  {
    if points != [] {
      BelowNone(points[..|points| - 1], a);
    }
  }

  lemma {:induction false} EmptyWindow(points: seq<Point>, a: nat, u: nat)
    requires a > 0 && forall i | 0 <= i < |points| :: points[i].0 / a != u
    ensures WindowValues(points, a, u) == []
  {
    if points != [] {
      EmptyWindow(points[..|points| - 1], a, u);
    }
  }

  lemma {:induction false} WindowValuesFinite(points: seq<Point>, a: nat, u: nat)
    requires a > 0 && AllFinite(points)
    ensures FiniteList(WindowValues(points, a, u))
  {
    if points != [] {
      WindowValuesFinite(points[..|points| - 1], a, u);
    }
  }

  lemma Distribute(u: nat, k: nat, s: nat, a: nat)
    ensures (u * k + s) * a == u * (k * a) + s * a
  {
    assert (u * k) * a == u * (k * a);
  }

  lemma RemainderFits(s: nat, k: nat, r: nat, a: nat)
    requires s < k && r < a
    ensures s * a + r < k * a
  {
    var d := k - 1 - s;
    assert d * a >= 0;
    assert (d + s + 1) * a == d * a + s * a + a;
  }

  /** The coarse window of a point is the coarse window of its fine window. */
  lemma CoarseWindow(t: nat, a: nat, k: nat)
    requires a > 0 && k > 0
    ensures k * a > 0 && t / (k * a) == (t / a) / k
  {
    DivisionEquation(t, a);
    DivisionEquation(t / a, k);
    CoarseWindowAt(t, a, k, (t / a) / k, (t / a) % k, t % a);
  }

  lemma DivisionEquation(x: nat, n: nat)
    requires n > 0
    ensures x == (x / n) * n + x % n && x % n < n
  {
  }

  lemma CoarseWindowAt(t: nat, a: nat, k: nat, u: nat, s: nat, r: nat)
    requires s < k && r < a && t == (u * k + s) * a + r
    ensures k * a > 0 && t / (k * a) == u
  {
    Cyclic.ProductAtLeast(k, a);
    Distribute(u, k, s, a);
    RemainderFits(s, k, r, a);
    Cyclic.DivModUnique(t, u, s * a + r, k * a);
  }

  lemma AppendPoint(points: seq<Point>, p: Point, width: nat, u: nat)
    requires width > 0
    ensures WindowValues(points + [p], width, u)
            == WindowValues(points, width, u) + (if p.0 / width == u then [p.1] else [])
  {
    assert (points + [p])[..|points|] == points;
  }

  /** Nothing lies in window `h` when the last point lies before it. */
  lemma WindowAhead(points: seq<Point>, a: nat, h: nat)
    requires a > 0 && Sorted(points) && points != [] && points[|points| - 1].0 / a < h
    ensures WindowValues(points, a, h) == []
  {
    forall i | 0 <= i < |points| ensures points[i].0 / a != h {
      Cyclic.DivMonotone(points[i].0, points[|points| - 1].0, a);
    }
    EmptyWindow(points, a, h);
  }

  /** What window `u` gains when the boundary passes fine window `h`. */
  function Gain(points: seq<Point>, a: nat, h: nat, coarse: nat, u: nat): seq<Float>
    requires a > 0
  {
    if coarse == u then WindowValues(points, a, h) else []
  }

  lemma BelowStepBefore(points: seq<Point>, last: Point, a: nat, width: nat, u: nat, h: nat, coarse: nat)
    requires a > 0 && width > 0 && Sorted(points + [last]) && last.0 / a < h
    requires WindowValues(Below(points, a, h + 1), width, u)
             == WindowValues(Below(points, a, h), width, u) + Gain(points, a, h, coarse, u)
    ensures WindowValues(Below(points + [last], a, h + 1), width, u)
            == WindowValues(Below(points + [last], a, h), width, u) + Gain(points + [last], a, h, coarse, u)
  {
    BelowAppend(points, last, a, h);
    BelowAppend(points, last, a, h + 1);
    AppendPoint(points, last, a, h);
    AppendPoint(Below(points, a, h), last, width, u);
    AppendPoint(Below(points, a, h + 1), last, width, u);
    WindowAhead(points + [last], a, h);
    assert Gain(points, a, h, coarse, u) == Gain(points + [last], a, h, coarse, u) == [];
  }

  lemma BelowStepWithin(points: seq<Point>, last: Point, a: nat, width: nat, u: nat, h: nat, coarse: nat)
    requires a > 0 && width > 0 && last.0 / a == h && last.0 / width == coarse
    requires WindowValues(Below(points, a, h + 1), width, u)
             == WindowValues(Below(points, a, h), width, u) + Gain(points, a, h, coarse, u)
    ensures WindowValues(Below(points + [last], a, h + 1), width, u)
            == WindowValues(Below(points + [last], a, h), width, u) + Gain(points + [last], a, h, coarse, u)
  {
    BelowAppend(points, last, a, h);
    BelowAppend(points, last, a, h + 1);
    AppendPoint(points, last, a, h);
    AppendPoint(Below(points, a, h + 1), last, width, u);
  }

  lemma BelowStepAppend(points: seq<Point>, last: Point, a: nat, width: nat, u: nat, h: nat, coarse: nat)
    requires a > 0 && width > 0 && Sorted(points + [last])
    requires last.0 / a == h ==> last.0 / width == coarse
    requires WindowValues(Below(points, a, h + 1), width, u)
             == WindowValues(Below(points, a, h), width, u) + Gain(points, a, h, coarse, u)
    ensures WindowValues(Below(points + [last], a, h + 1), width, u)
            == WindowValues(Below(points + [last], a, h), width, u) + Gain(points + [last], a, h, coarse, u)
  {
    if last.0 / a < h {
      BelowStepBefore(points, last, a, width, u, h, coarse);
    } else if last.0 / a == h {
      BelowStepWithin(points, last, a, width, u, h, coarse);
    } else {
      BelowAppend(points, last, a, h);
      BelowAppend(points, last, a, h + 1);
      AppendPoint(points, last, a, h);
    }
  }

  lemma BelowAppend(points: seq<Point>, last: Point, a: nat, top: nat)
    requires a > 0
    ensures Below(points + [last], a, top)
            == if last.0 / a < top then Below(points, a, top) + [last] else Below(points, a, top)
  {
    assert (points + [last])[..|points|] == points;
  }

  /** Moving the boundary past one fine window adds exactly that window's values to its coarse window. */
  lemma {:induction false} BelowStep(points: seq<Point>, a: nat, width: nat, u: nat, h: nat, coarse: nat)
    requires a > 0 && width > 0 && Sorted(points)
    requires forall i | 0 <= i < |points| :: points[i].0 / a == h ==> points[i].0 / width == coarse
    ensures WindowValues(Below(points, a, h + 1), width, u)
            == WindowValues(Below(points, a, h), width, u) + Gain(points, a, h, coarse, u)
  {
    if points != [] {
      var init, last := points[..|points| - 1], points[|points| - 1];
      BelowStep(init, a, width, u, h, coarse);
      assert points == init + [last];
      BelowStepAppend(init, last, a, width, u, h, coarse);
    }
  }

  lemma WindowStart(v: nat, a: nat, k: nat)
    requires a > 0 && k > 0
    ensures k * a > 0 && (v * a) / (k * a) == v / k
  {
    Cyclic.DivModUnique(v * a, v, 0, a);
    CoarseWindow(v * a, a, k);
  }

  /** The aggregates of a coarse window agree, whether from fine windows or from points. */
  ghost predicate Agree(f: ConsolidationFn, stage: seq<Float>, direct: seq<Float>) {
    && FiniteList(stage) && FiniteList(direct) && (stage == [] <==> direct == [])
    && Apply(f, stage) == Apply(f, direct)
  }

  ghost predicate StagesAgree(points: seq<Point>, a: nat, width: nat, f: ConsolidationFn, u: nat, h: nat)
    requires a > 0 && width > 0
  {
    Agree(f, WindowValues(Downsample(points, a, f, h), width, u), WindowValues(Below(points, a, h), width, u))
  }

  /** All points of fine window `h` lie in the coarse window of its start. */
  ghost predicate InOneWindow(points: seq<Point>, a: nat, width: nat, h: nat)
    requires a > 0 && width > 0
  {
    forall i | 0 <= i < |points| :: points[i].0 / a == h ==> points[i].0 / width == (h * a) / width
  }

  ghost predicate Aligned(points: seq<Point>, a: nat, width: nat)
    requires a > 0 && width > 0
  {
    forall h: nat :: InOneWindow(points, a, width, h)
  }

  lemma StagesAgreeStart(points: seq<Point>, a: nat, width: nat, f: ConsolidationFn, u: nat)
    requires a > 0 && width > 0
    ensures StagesAgree(points, a, width, f, u, 0)
  {
    BelowNone(points, a);
  }

  lemma StagesAgreeStep(points: seq<Point>, a: nat, width: nat, f: ConsolidationFn, u: nat, h: nat)
    requires a > 0 && width > 0 && Sorted(points) && AllFinite(points) && Mergeable(f)
    requires Aligned(points, a, width) && StagesAgree(points, a, width, f, u, h)
    ensures StagesAgree(points, a, width, f, u, h + 1)
  {
    var part, coarse := WindowValues(points, a, h), (h * a) / width;
    assert InOneWindow(points, a, width, h);
    BelowStep(points, a, width, u, h, coarse);
    WindowValuesFinite(points, a, h);
    StageStep(points, a, width, f, u, h);
    AgreeStep(f, WindowValues(Downsample(points, a, f, h), width, u), WindowValues(Below(points, a, h), width, u),
              part, WindowValues(Downsample(points, a, f, h + 1), width, u),
              WindowValues(Below(points, a, h + 1), width, u), coarse == u);
  }

  lemma StageStep(points: seq<Point>, a: nat, width: nat, f: ConsolidationFn, u: nat, h: nat)
    requires a > 0 && width > 0
    ensures var part := WindowValues(points, a, h);
            WindowValues(Downsample(points, a, f, h + 1), width, u)
            == WindowValues(Downsample(points, a, f, h), width, u)
               + (if part != [] && (h * a) / width == u then [Apply(f, part)] else [])
  {
    var prev, part := Downsample(points, a, f, h), WindowValues(points, a, h);
    if part == [] {
      assert Downsample(points, a, f, h + 1) == prev + [];
      assert prev + [] == prev;
    } else {
      assert Downsample(points, a, f, h + 1) == prev + [(h * a, Apply(f, part))];
      AppendPoint(prev, (h * a, Apply(f, part)), width, u);
    }
  }

  lemma AgreeStep(f: ConsolidationFn, stage: seq<Float>, direct: seq<Float>, part: seq<Float>, stage': seq<Float>,
                  direct': seq<Float>, hit: bool)
    requires Mergeable(f) && Agree(f, stage, direct) && FiniteList(part)
    requires stage' == stage + (if part != [] && hit then [Apply(f, part)] else [])
    requires direct' == direct + (if hit then part else [])
    ensures Agree(f, stage', direct')
  {
    if part != [] && hit {
      AppendAggregate(f, stage, direct, part);
    } else {
      assert stage' == stage && direct' == direct;
    }
  }

  lemma {:induction false} StepByStep(holds: nat -> bool, h: nat)
    requires holds(0) && forall x: nat :: holds(x) ==> holds(x + 1)
    ensures holds(h)
  {
    if h > 0 {
      StepByStep(holds, h - 1);
      assert holds(h - 1 + 1);
    }
  }

  lemma TwoStagesUpTo(points: seq<Point>, a: nat, width: nat, f: ConsolidationFn, u: nat, h: nat)
    requires a > 0 && width > 0 && Sorted(points) && AllFinite(points) && Mergeable(f) && Aligned(points, a, width)
    ensures StagesAgree(points, a, width, f, u, h)
  {
    ghost var holds := (x: nat) => StagesAgree(points, a, width, f, u, x);
    StagesAgreeStart(points, a, width, f, u);
    forall x: nat | holds(x) ensures holds(x + 1) {
      StagesAgreeStep(points, a, width, f, u, x);
    }
    StepByStep(holds, h);
  }

  /** All points of a fine window, and its start, lie in one coarse window. */
  lemma CoarseWindowOf(points: seq<Point>, a: nat, k: nat, width: nat, h: nat) returns (coarse: nat)
    requires a > 0 && k > 0 && width == k * a > 0
    ensures (h * a) / width == coarse
    ensures forall i | 0 <= i < |points| :: points[i].0 / a == h ==> points[i].0 / width == coarse
  {
    coarse := h / k;
    WindowStart(h, a, k);
    forall i | 0 <= i < |points| && points[i].0 / a == h ensures points[i].0 / width == coarse {
      CoarseWindow(points[i].0, a, k);
    }
  }

  /**
   For Min, Max, Sum and Last, downsampling to width `a` and then to a multiple
   of `a` gives every coarse window the same value as downsampling to it directly.
   */
  lemma TwoStagesEqualOne(points: seq<Point>, a: nat, k: nat, f: ConsolidationFn, u: nat, top: nat)
    requires a > 0 && k > 0 && Sorted(points) && AllFinite(points) && Mergeable(f)
    requires forall i | 0 <= i < |points| :: points[i].0 / a < top
    ensures k * a > 0
    ensures Apply(f, WindowValues(Downsample(points, a, f, top), k * a, u))
            == Apply(f, WindowValues(points, k * a, u))
  {
    WindowStart(0, a, k);
    BelowAll(points, a, top);
    forall h: nat ensures InOneWindow(points, a, k * a, h) {
      var coarse := CoarseWindowOf(points, a, k, k * a, h);
    }
    TwoStagesUpTo(points, a, k * a, f, u, top);
  }

  /** Average and Count are not mergeable: two stages weigh fine windows instead of points. */
  lemma AverageAndCountNeedOneStage()
    ensures var points := [(0, Finite(1.0)), (1, Finite(2.0)), (2, Finite(6.0))];
            && Apply(Average, WindowValues(points, 4, 0)) == Finite(3.0)
            && Apply(Average, WindowValues(Downsample(points, 2, Average, 2), 4, 0)) == Finite(3.75)
            && Apply(Count, WindowValues(points, 4, 0)) == Finite(3.0)
            && Apply(Count, WindowValues(Downsample(points, 2, Count, 2), 4, 0)) == Finite(2.0)
  {
    var points := [(0, Finite(1.0)), (1, Finite(2.0)), (2, Finite(6.0))];
    WindowsOfThree(points, Finite(1.0), Finite(2.0), Finite(6.0));
    AggregatesOfThree(1.0, 2.0, 6.0);
    AggregatesOfTwo(1.0, 2.0);
    AggregatesOfTwo(1.5, 6.0);
    AggregatesOfTwo(2.0, 1.0);
    StagesOfThree(points, 2, 4, Average, Finite(1.5), Finite(6.0));
    StagesOfThree(points, 2, 4, Count, Finite(2.0), Finite(1.0));
  }

  lemma WindowsOfThree(points: seq<Point>, x: Float, y: Float, z: Float)
    requires points == [(0, x), (1, y), (2, z)]
    ensures WindowValues(points, 2, 0) == [x, y] && WindowValues(points, 2, 1) == [z]
    ensures WindowValues(points, 4, 0) == [x, y, z]
  {
    WindowsOfThreeAt(points, x, y, z, 2, 0);
    WindowsOfThreeAt(points, x, y, z, 2, 1);
    WindowsOfThreeAt(points, x, y, z, 4, 0);
  }

  lemma WindowsOfThreeAt(points: seq<Point>, x: Float, y: Float, z: Float, width: nat, u: nat)
    requires width > 0 && points == [(0, x), (1, y), (2, z)]
    ensures WindowValues(points, width, u)
            == (if 0 / width == u then [x] else []) + (if 1 / width == u then [y] else [])
               + (if 2 / width == u then [z] else [])
  {
    var one: seq<Point> := [(0, x)];
    var two := one + [(1, y)];
    assert points == two + [(2, z)] && one == [] + [(0, x)];
    AppendPoint([], (0, x), width, u);
    AppendPoint(one, (1, y), width, u);
    AppendPoint(two, (2, z), width, u);
  }

  lemma AggregatesOfTwo(x: real, y: real)
    ensures Apply(Average, [Finite(x), Finite(y)]) == Finite((x + y) / 2.0)
    ensures Apply(Count, [Finite(x), Finite(y)]) == Finite(2.0)
    ensures Apply(Average, [Finite(y)]) == Finite(y) && Apply(Count, [Finite(y)]) == Finite(1.0)
  {
    FiniteValuesConcat([Finite(x)], [Finite(y)]);
    assert [Finite(x)] + [Finite(y)] == [Finite(x), Finite(y)];
    assert [Finite(x)][..0] == [] && [Finite(y)][..0] == [];
    assert FiniteValues([Finite(x)]) == [x] && FiniteValues([Finite(y)]) == [y];
    SumConcat([x], [y]);
    assert [x][..0] == [] && [y][..0] == [];
    assert SumOf([x]) == SumOf([]) + x && SumOf([y]) == SumOf([]) + y;
    assert [x] + [y] == [x, y];
  }

  lemma AggregatesOfThree(x: real, y: real, z: real)
    ensures Apply(Average, [Finite(x), Finite(y), Finite(z)]) == Finite((x + y + z) / 3.0)
    ensures Apply(Count, [Finite(x), Finite(y), Finite(z)]) == Finite(3.0)
  {
    var a, b := [Finite(x), Finite(y)], [Finite(z)];
    FiniteValuesConcat(a, b);
    FiniteValuesConcat([Finite(x)], [Finite(y)]);
    assert [Finite(x)] + [Finite(y)] == a && a + b == [Finite(x), Finite(y), Finite(z)];
    assert [Finite(x)][..0] == [] && [Finite(y)][..0] == [] && b[..0] == [];
    assert FiniteValues([Finite(x)]) == [x] && FiniteValues([Finite(y)]) == [y] && FiniteValues(b) == [z];
    SumConcat([x, y], [z]);
    SumConcat([x], [y]);
    assert [x] + [y] == [x, y] && [x, y] + [z] == [x, y, z];
    assert [x][..0] == [] && [y][..0] == [] && [z][..0] == [];
    assert SumOf([x]) == SumOf([]) + x && SumOf([y]) == SumOf([]) + y && SumOf([z]) == SumOf([]) + z;
  }

  lemma StagesOfThree(points: seq<Point>, a: nat, width: nat, f: ConsolidationFn, x: Float, y: Float)
    requires a == 2 && width == 4
    requires Apply(f, WindowValues(points, a, 0)) == x && Apply(f, WindowValues(points, a, 1)) == y
    requires WindowValues(points, a, 0) != [] && WindowValues(points, a, 1) != []
    ensures WindowValues(Downsample(points, a, f, 2), width, 0) == [x, y]
  {
    StageStep(points, 2, 4, f, 0, 0);
    StageStep(points, 2, 4, f, 0, 1);
    assert WindowValues(Downsample(points, 2, f, 0), 4, 0) == [];
  }
}
