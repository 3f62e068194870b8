/**
 A cell that is overwritten by one aggregate after another. `Latest` is what
 remains of the parts, `Flat` is everything that was aggregated; these lemmas say
 when the two amount to the same.
 */
module Parts {
  import opened Floats
  import opened Schemas
  import opened Downsampling
  import opened Incremental

  function Flat(parts: seq<seq<Float>>): seq<Float> {
    if parts == [] then [] else Flat(parts[..|parts| - 1]) + parts[|parts| - 1]
  }

  /** At most one part is not empty. */
  ghost predicate Unsplit(parts: seq<seq<Float>>) {
    forall i, j | 0 <= i < j < |parts| :: parts[i] == [] || parts[j] == []
  }

  ghost predicate FiniteParts(parts: seq<seq<Float>>) {
    forall i | 0 <= i < |parts| :: FiniteList(parts[i])
  }

  lemma {:induction false} FlatOfEmpties(parts: seq<seq<Float>>)
    ensures Flat(parts) == [] <==> forall i | 0 <= i < |parts| :: parts[i] == []
  {
    if parts != [] {
      FlatOfEmpties(parts[..|parts| - 1]);
    }
  }

  lemma {:induction false} FlatIsFinite(parts: seq<seq<Float>>)
    requires FiniteParts(parts)
    ensures FiniteList(Flat(parts))
  {
    if parts != [] {
      FlatIsFinite(parts[..|parts| - 1]);
    }
  }

  /** The last part that is not empty. */
  function LastPart(parts: seq<seq<Float>>): seq<Float> {
    if parts == [] then []
    else if parts[|parts| - 1] != [] then parts[|parts| - 1]
    else LastPart(parts[..|parts| - 1])
  }

  /** Everything before the last part that is not empty: what the overwriting discards. */
  function Discarded(parts: seq<seq<Float>>): seq<Float> {
    if parts == [] then []
    else if parts[|parts| - 1] != [] then Flat(parts[..|parts| - 1])
    else Discarded(parts[..|parts| - 1])
  }

  lemma {:induction false} PartsSplit(f: ConsolidationFn, parts: seq<seq<Float>>)
    ensures Flat(parts) == Discarded(parts) + LastPart(parts)
    ensures Latest(f, parts) == Apply(f, LastPart(parts))
    ensures LastPart(parts) == [] ==> Discarded(parts) == []
  {
    if parts != [] {
      var init, last := parts[..|parts| - 1], parts[|parts| - 1];
      if last == [] {
        PartsSplit(f, init);
        assert Flat(init) + [] == Flat(init);
      }
    }
  }

  lemma {:induction false} UnsplitIffNothingDiscarded(parts: seq<seq<Float>>)
    ensures Unsplit(parts) <==> Discarded(parts) == []
  {
    if parts != [] {
      var init, last := parts[..|parts| - 1], parts[|parts| - 1];
      if last == [] {
        UnsplitIffNothingDiscarded(init);
        assert Unsplit(parts) <==> Unsplit(init);
      } else {
        FlatOfEmpties(init);
        assert Unsplit(parts) <==> forall i | 0 <= i < |init| :: init[i] == [];
      }
    }
  }

  lemma {:induction false} PartsAreLists(parts: seq<seq<Float>>)
    requires FiniteParts(parts)
    ensures FiniteList(Discarded(parts)) && FiniteList(LastPart(parts))
  {
    if parts != [] {
      var init, last := parts[..|parts| - 1], parts[|parts| - 1];
      if last == [] {
        PartsAreLists(init);
      } else {
        FlatIsFinite(init);
      }
    }
  }

  // --------------------------------------------------- what may be discarded

  /**
   When discarding `early` and aggregating only `late` makes no difference: never
   for Count, always for Last; for the others it is a comparison of the values.
   */
  ghost predicate Dispensable(f: ConsolidationFn, early: seq<Float>, late: seq<Float>) {
    AddsNothing(f, FiniteValues(early), FiniteValues(late))
  }

  ghost predicate AddsNothing(f: ConsolidationFn, xs: seq<real>, ys: seq<real>) {
    match f
    case Last => true
    case Count => xs == []
    case Min => forall x | x in xs :: exists y :: y in ys && y <= x
    case Max => forall x | x in xs :: exists y :: y in ys && x <= y
    case Sum => SumOf(xs) == 0.0
    case Average => SumOf(xs) * (|ys| as real) == SumOf(ys) * (|xs| as real)
  }

  lemma AverageIff(a: real, b: real, m: real, n: real)
    requires m >= 0.0 && n > 0.0
    ensures b / n == (a + b) / (m + n) <==> a * n == b * m
  {
    assert (a + b) * n == b * (m + n) <==> a * n == b * m by {
      assert (a + b) * n == a * n + b * n && b * (m + n) == b * m + b * n;
    }
    QuotientsEqual(b, n, a + b, m + n);
  }

  lemma QuotientsEqual(x: real, n: real, y: real, m: real)
    requires n > 0.0 && m > 0.0
    ensures x / n == y / m <==> y * n == x * m
  {
    var p, q := x / n, y / m;
    assert p * n == x && q * m == y;
    assert y * n == (q * m) * n && x * m == (p * n) * m;
    assert (q * m) * n == q * (m * n) && (p * n) * m == p * (m * n);
    if p != q {
      NonzeroProduct(q - p, m * n);
      assert (q - p) * (m * n) == q * (m * n) - p * (m * n);
    }
  }

  lemma NonzeroProduct(x: real, y: real)
    requires x != 0.0 && y > 0.0
    ensures x * y != 0.0
  {
    if x > 0.0 {
      assert x * y > 0.0;
    } else {
      assert (-x) * y > 0.0;
      assert (-x) * y == -(x * y);
    }
  }

  lemma MinIff(xs: seq<real>, ys: seq<real>)
    requires ys != []
    ensures FoldMin(ys) == FoldMin(xs + ys) <==> forall x | x in xs :: exists y :: y in ys && y <= x
  {
    FoldMinIsMinimum(ys);
    FoldMinIsMinimum(xs + ys);
    var m, all := FoldMin(ys).value, FoldMin(xs + ys).value;
    assert m in xs + ys;
    forall x | x in xs ensures x in xs + ys {
    }
  }

  lemma MaxIff(xs: seq<real>, ys: seq<real>)
    requires ys != []
    ensures FoldMax(ys) == FoldMax(xs + ys) <==> forall x | x in xs :: exists y :: y in ys && x <= y
  {
    FoldMaxIsMaximum(ys);
    FoldMaxIsMaximum(xs + ys);
    var m, all := FoldMax(ys).value, FoldMax(xs + ys).value;
    assert m in xs + ys;
    forall x | x in xs ensures x in xs + ys {
    }
  }

  /** The aggregate of finite values, in terms of their numbers. */
  function Aggregate(f: ConsolidationFn, xs: seq<real>): Float
    requires xs != []
  {
    match f
    case Average => Finite(SumOf(xs) / (|xs| as real))
    case Min => FoldMin(xs)
    case Max => FoldMax(xs)
    case Last => Finite(xs[|xs| - 1])
    case Sum => Finite(SumOf(xs))
    case Count => Finite(|xs| as real)
  }

  lemma ApplyIsAggregate(f: ConsolidationFn, values: seq<Float>)
    requires FiniteValues(values) != []
    ensures Apply(f, values) == Aggregate(f, FiniteValues(values))
  {
  }

  lemma AverageIs(xs: seq<real>, s: real, n: real)
    requires xs != [] && s == SumOf(xs) && n == |xs| as real
    ensures Aggregate(Average, xs) == Finite(s / n)
  {
  }

  lemma AverageOfConcat(xs: seq<real>, ys: seq<real>, a: real, b: real, m: real, n: real)
    requires ys != [] && a == SumOf(xs) && b == SumOf(ys) && m == |xs| as real && n == |ys| as real
    ensures Aggregate(Average, ys) == Aggregate(Average, xs + ys) <==> a * n == b * m
  {
    SumConcat(xs, ys);
    assert |xs + ys| as real == m + n;
    AverageIs(ys, b, n);
    AverageIs(xs + ys, a + b, m + n);
    AverageIff(a, b, m, n);
  }

  lemma AggregateOfConcat(f: ConsolidationFn, xs: seq<real>, ys: seq<real>)
    requires ys != []
    ensures Aggregate(f, ys) == Aggregate(f, xs + ys) <==> AddsNothing(f, xs, ys)
  {
    match f {
      case Min => MinIff(xs, ys);
      case Max => MaxIff(xs, ys);
      case Average => AverageOfConcat(xs, ys, SumOf(xs), SumOf(ys), |xs| as real, |ys| as real);
      case Sum => SumConcat(xs, ys);
      case _ =>
    }
  }

  lemma LateAloneIff(f: ConsolidationFn, early: seq<Float>, late: seq<Float>)
    requires FiniteList(late) && late != []
    ensures Apply(f, late) == Apply(f, early + late) <==> Dispensable(f, early, late)
  {
    FiniteListKeepsAll(late);
    FiniteValuesConcat(early, late);
    ApplyIsAggregate(f, late);
    ApplyIsAggregate(f, early + late);
    AggregateOfConcat(f, FiniteValues(early), FiniteValues(late));
  }

  lemma DiscardedIsCounted(parts: seq<seq<Float>>)
    requires FiniteParts(parts)
    ensures Dispensable(Count, Discarded(parts), LastPart(parts)) <==> Unsplit(parts)
  {
    PartsAreLists(parts);
    FiniteListKeepsAll(Discarded(parts));
    UnsplitIffNothingDiscarded(parts);
  }

  /**
   For every function: a cell that is overwritten part by part holds the
   aggregate of all its values exactly when what was discarded is dispensable.
   */
  lemma LatestIsRightIff(f: ConsolidationFn, parts: seq<seq<Float>>)
    requires FiniteParts(parts)
    ensures Latest(f, parts) == Apply(f, Flat(parts)) <==> Dispensable(f, Discarded(parts), LastPart(parts))
  {
    PartsSplit(f, parts);
    PartsAreLists(parts);
    if LastPart(parts) != [] {
      LateAloneIff(f, Discarded(parts), LastPart(parts));
    }
  }

  /** When the points came in one part, nothing is lost, whatever the function. */
  lemma UnsplitKeepsAll(f: ConsolidationFn, parts: seq<seq<Float>>)
    requires Unsplit(parts)
    ensures Latest(f, parts) == Apply(f, Flat(parts))
  {
    PartsSplit(f, parts);
    UnsplitIffNothingDiscarded(parts);
    assert [] + LastPart(parts) == LastPart(parts);
  }

  ghost predicate Positive(values: seq<Float>) {
    forall i | 0 <= i < |values| :: values[i].Finite? && values[i].value > 0.0
  }

  lemma {:induction false} PositiveSum(values: seq<Float>)
    requires Positive(values)
    ensures SumOf(FiniteValues(values)) >= 0.0
    ensures values != [] ==> SumOf(FiniteValues(values)) > 0.0
  {
    if values != [] {
      PositiveSum(values[..|values| - 1]);
      var xs := FiniteValues(values);
      assert xs[..|xs| - 1] == FiniteValues(values[..|values| - 1]);
    }
  }

  /** Sums of positive values are right only when the points came in one part. */
  lemma PositiveSumKeepsAllIffUnsplit(parts: seq<seq<Float>>)
    requires FiniteParts(parts) && Positive(Flat(parts))
    ensures Latest(Sum, parts) == Apply(Sum, Flat(parts)) <==> Unsplit(parts)
  {
    LatestIsRightIff(Sum, parts);
    PartsSplit(Sum, parts);
    UnsplitIffNothingDiscarded(parts);
    var early := Discarded(parts);
    forall i | 0 <= i < |early| ensures early[i].Finite? && early[i].value > 0.0 {
      assert Flat(parts)[i] == early[i];
    }
    PositiveSum(early);
  }
}
