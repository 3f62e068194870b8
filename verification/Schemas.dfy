/** Tiers, schemas, label matching and the consolidation functions. */
module Schemas {
  import opened Wrappers
  import opened Floats
  import opened Words

  const MAX_SLOTS_PER_TIER: nat := 1_000_000_000

  datatype ConsolidationFn = Average | Min | Max | Last | Sum | Count

  // ------------------------------------------------ consolidation functions

  function FiniteValues(values: seq<Float>): seq<real> {
    if values == [] then []
    else
      var rest := FiniteValues(values[..|values| - 1]);
      match values[|values| - 1]
      case Finite(x) => rest + [x]
      case _ => rest
  }

  function SumOf(xs: seq<real>): real {
    if xs == [] then 0.0 else SumOf(xs[..|xs| - 1]) + xs[|xs| - 1]
  }

  function MinFloat(x: Float, y: real): Float {
    match x
    case Finite(a) => if a <= y then x else Finite(y)
    case NegInf => NegInf
    case _ => Finite(y)
  }

  function MaxFloat(x: Float, y: real): Float {
    match x
    case Finite(a) => if a >= y then x else Finite(y)
    case PosInf => PosInf
    case _ => Finite(y)
  }

  function FoldMin(xs: seq<real>): Float {
    if xs == [] then PosInf else MinFloat(FoldMin(xs[..|xs| - 1]), xs[|xs| - 1])
  }

  function FoldMax(xs: seq<real>): Float {
    if xs == [] then NegInf else MaxFloat(FoldMax(xs[..|xs| - 1]), xs[|xs| - 1])
  }

  function Apply(f: ConsolidationFn, values: seq<Float>): Float {
    var valid := FiniteValues(values);
    if valid == [] then NaN
    else
      match f
      case Average => Finite(SumOf(valid) / (|valid| as real))
      case Min => FoldMin(valid)
      case Max => FoldMax(valid)
      case Last => Finite(valid[|valid| - 1])
      case Sum => Finite(SumOf(valid))
      case Count => Finite(|valid| as real)
  }

  lemma {:induction false} FoldMinIsMinimum(xs: seq<real>)
    requires xs != []
    ensures FoldMin(xs).Finite? && FoldMin(xs).value in xs
    ensures forall x | x in xs :: FoldMin(xs).value <= x
  {
    var init := xs[..|xs| - 1];
    assert xs == init + [xs[|xs| - 1]];
    if init != [] {
      FoldMinIsMinimum(init);
    }
  }

  lemma {:induction false} FoldMaxIsMaximum(xs: seq<real>)
    requires xs != []
    ensures FoldMax(xs).Finite? && FoldMax(xs).value in xs
    ensures forall x | x in xs :: x <= FoldMax(xs).value
  {
    var init := xs[..|xs| - 1];
    assert xs == init + [xs[|xs| - 1]];
    if init != [] {
      FoldMaxIsMaximum(init);
    }
  }

  lemma {:induction false} FiniteValuesMembers(values: seq<Float>)
    ensures forall x :: x in FiniteValues(values) <==> Finite(x) in values
    ensures |FiniteValues(values)| <= |values|
  {
    if values != [] {
      FiniteValuesMembers(values[..|values| - 1]);
    }
  }

  /** A consolidated value is never infinite, and it is NaN only when no input is finite. */
  lemma ApplyIsFinite(f: ConsolidationFn, values: seq<Float>)
    ensures !Apply(f, values).IsInfinite()
    ensures Apply(f, values).NaN? <==> forall x :: Finite(x) !in values
  {
    FiniteValuesMembers(values);
    var valid := FiniteValues(values);
    if valid != [] {
      assert Finite(valid[0]) in values;
      FoldMinIsMinimum(valid);
      FoldMaxIsMaximum(valid);
    }
  }

  function Smallest(x: real, y: real): real { if x <= y then x else y }

  function Greatest(x: real, y: real): real { if x >= y then x else y }

  /** How one more value changes each aggregate; with the next lemma this says what they are. */
  lemma ApplyGrows(values: seq<Float>, v: Float)
    ensures !v.Finite? ==> forall f :: Apply(f, values + [v]) == Apply(f, values)
    ensures v.Finite? && Apply(Count, values).NaN? ==>
              Apply(Count, values + [v]) == Finite(1.0) && forall f | f != Count :: Apply(f, values + [v]) == v
    ensures v.Finite? && Apply(Count, values).Finite? ==>
              && Apply(Count, values + [v]) == Finite(Apply(Count, values).value + 1.0)
              && Apply(Last, values + [v]) == v
              && Apply(Sum, values).Finite? && Apply(Sum, values + [v]) == Finite(Apply(Sum, values).value + v.value)
              && Apply(Min, values).Finite?
              && Apply(Min, values + [v]) == Finite(Smallest(Apply(Min, values).value, v.value))
              && Apply(Max, values).Finite?
              && Apply(Max, values + [v]) == Finite(Greatest(Apply(Max, values).value, v.value))
  {
    assert (values + [v])[..|values|] == values;
    var xs := FiniteValues(values);
    if v.Finite? {
      assert (xs + [v.value])[..|xs|] == xs;
      if xs != [] {
        FoldMinIsMinimum(xs);
        FoldMaxIsMaximum(xs);
      }
    }
  }

  /** Nothing aggregates to NaN, and the average is the sum divided by the count. */
  lemma ApplyStarts(values: seq<Float>)
    ensures forall f :: Apply(f, []) == NaN
    ensures Apply(Average, values).NaN? <==> Apply(Count, values).NaN?
    ensures Apply(Count, values).Finite? ==>
              && Apply(Count, values).value > 0.0 && Apply(Average, values).Finite? && Apply(Sum, values).Finite?
              && Apply(Average, values).value * Apply(Count, values).value == Apply(Sum, values).value
  {
  }

  lemma {:induction false} FiniteValuesConcat(a: seq<Float>, b: seq<Float>)
    ensures FiniteValues(a + b) == FiniteValues(a) + FiniteValues(b)
  {
    if b == [] {
      assert a + b == a;
    } else {
      FiniteValuesConcat(a, b[..|b| - 1]);
      assert (a + b)[..|a + b| - 1] == a + b[..|b| - 1];
    }
  }

  // -------------------------------------------------------- tiers and schemas

  /** Durations in nanoseconds; `Nanos64` is the conversion to a 64-bit count. */
  datatype TierConfig = TierConfig(interval: nat, retention: nat, consolidationFn: Option<ConsolidationFn>) {
    function IntervalNanos(): nat { interval % 0x1_0000_0000_0000_0000 }

    function SlotCount(): nat {
      var nanos := retention % 0x1_0000_0000_0000_0000;
      if IntervalNanos() == 0 then 0 else nanos / IntervalNanos()
    }

    predicate Validate() {
      interval != 0 && retention != 0 && retention >= interval && SlotCount() <= MAX_SLOTS_PER_TIER
    }
  }

  /** All required labels, keyed as in the matcher. */
  datatype LabelMatcher = LabelMatcher(labels: map<string, string>) {
    predicate Matches(labels': seq<(string, string)>) {
      var m := ToMap(labels');
      forall k | k in labels :: k in m && m[k] == labels[k]
    }
  }

  /** Collects pairs into a map; a later pair replaces an earlier one with the same key. */
  function ToMap(labels: seq<(string, string)>): map<string, string> {
    if labels == [] then map[]
    else
      var last := labels[|labels| - 1];
      ToMap(labels[..|labels| - 1])[last.0 := last.1]
  }

  datatype SchemaConfig = SchemaConfig(matcher: LabelMatcher, tiers: seq<TierConfig>, maxSeries: nat) {
    predicate Validate() {
      && tiers != []
      && maxSeries != 0
      && (forall i | 0 <= i < |tiers| :: tiers[i].Validate())
      && (forall i | 0 <= i < |tiers| - 1 :: tiers[i].interval < tiers[i + 1].interval)
      && tiers[0].consolidationFn.None?
    }
  }

  /** A schema is valid when it has room, its tiers are valid, each later one coarser, and the finest takes raw data. */
  lemma ValidSchemaIff(s: SchemaConfig)
    ensures s.Validate() <==>
            && |s.tiers| > 0 && s.maxSeries > 0 && s.tiers[0].consolidationFn.None?
            && (forall i | 0 <= i < |s.tiers| :: s.tiers[i].Validate())
            && forall i, j | 0 <= i < j < |s.tiers| :: s.tiers[i].interval < s.tiers[j].interval
  {
    if s.Validate() {
      forall i, j | 0 <= i < j < |s.tiers| ensures s.tiers[i].interval < s.tiers[j].interval {
        TiersAreOrdered(s, i, j);
      }
    }
  }

  /** The tiers of a validated schema get coarser from each one to every later one. */
  lemma {:induction false} TiersAreOrdered(s: SchemaConfig, i: nat, j: nat)
    requires s.Validate() && i < j < |s.tiers|
    ensures s.tiers[i].interval < s.tiers[j].interval
  {
    if i < j - 1 {
      TiersAreOrdered(s, i, j - 1);
    }
  }

  /** The slots of a tier are as many whole intervals as its retention has, both cut off at 64 bits of nanoseconds. */
  lemma SlotsFillRetention(t: TierConfig)
    requires t.interval % 0x1_0000_0000_0000_0000 > 0
    ensures var i, r := t.interval % 0x1_0000_0000_0000_0000, t.retention % 0x1_0000_0000_0000_0000;
            t.SlotCount() * i <= r < (t.SlotCount() + 1) * i
  {
    var i, r := t.interval % 0x1_0000_0000_0000_0000, t.retention % 0x1_0000_0000_0000_0000;
    assert r == (r / i) * i + r % i;
  }

  /** Below 2^64 nanoseconds: a tier is valid when its retention has at least one interval and at most a billion. */
  lemma ValidTierIff(t: TierConfig)
    requires t.interval < U64_LIMIT && t.retention < U64_LIMIT
    ensures t.Validate() <==> 0 < t.interval <= t.retention < 1_000_000_001 * t.interval
  {
    if t.interval > 0 {
      assert t.interval % 0x1_0000_0000_0000_0000 == t.interval && t.retention % 0x1_0000_0000_0000_0000 == t.retention;
      SlotsFillRetention(t);
      QuotientAtMost(t.SlotCount(), 1_000_000_000, t.interval, t.retention);
    }
  }

  lemma QuotientAtMost(q: nat, limit: nat, d: nat, n: nat)
    requires d > 0 && q * d <= n < (q + 1) * d
    ensures q <= limit <==> n < (limit + 1) * d
  {
    if q <= limit {
      assert (limit - q) * d >= 0;
    } else {
      assert (q - (limit + 1)) * d >= 0;
    }
  }

  lemma QuotientIsPositiveIff(n: nat, d: nat)
    requires d > 0
    ensures n / d >= 1 <==> n >= d
  {
    assert n == (n / d) * d + n % d;
  }

  /**
   A validated tier has a slot exactly when its interval, cut off at 64 bits of
   nanoseconds, is not zero and its retention, cut off alike, is no shorter.
   */
  lemma ValidTierHasSlotsIff(t: TierConfig)
    requires t.Validate()
    ensures t.SlotCount() < 0x1_0000_0000
    ensures t.SlotCount() >= 1 <==> 0 < t.IntervalNanos() <= t.retention % 0x1_0000_0000_0000_0000
  {
    if t.IntervalNanos() > 0 {
      QuotientIsPositiveIff(t.retention % 0x1_0000_0000_0000_0000, t.IntervalNanos());
    }
  }

  /** A validated tier that fits 64-bit nanoseconds has at least one slot and fits a 32-bit count. */
  lemma ValidTierHasSlots(t: TierConfig)
    requires t.Validate() && t.retention < U64_LIMIT
    ensures 1 <= t.SlotCount() < 0x1_0000_0000
    ensures t.IntervalNanos() == t.interval
  {
    var r, i := t.retention, t.interval;
    assert r % 0x1_0000_0000_0000_0000 == r && i % 0x1_0000_0000_0000_0000 == i;
    assert r == (r / i) * i + r % i;
  }

  /** The bound is needed: a tier of 2^64 nanoseconds passes validation and has no slots. */
  lemma HugeTierHasNoSlots()
    ensures var t := TierConfig(U64_LIMIT, U64_LIMIT, None); t.Validate() && t.SlotCount() == 0
  {
  }

  lemma {:induction false} ToMapHoldsLastPair(labels: seq<(string, string)>, k: string)
    ensures k in ToMap(labels) <==> exists i :: 0 <= i < |labels| && labels[i].0 == k
    ensures k in ToMap(labels) ==>
              exists i :: 0 <= i < |labels| && labels[i] == (k, ToMap(labels)[k]) && LastOfKey(labels, i)
  {
    if labels != [] {
      var n := |labels| - 1;
      var init := labels[..n];
      ToMapHoldsLastPair(init, k);
      if labels[n].0 == k {
        assert LastOfKey(labels, n);
      } else if k in ToMap(init) {
        var i :| 0 <= i < |init| && init[i] == (k, ToMap(init)[k]) && LastOfKey(init, i);
        assert labels[i] == init[i] && LastOfKey(labels, i);
      } else if exists i :: 0 <= i < |labels| && labels[i].0 == k {
        var i :| 0 <= i < |labels| && labels[i].0 == k;
        assert init[i].0 == k;
      }
    }
  }

  ghost predicate LastOfKey(labels: seq<(string, string)>, i: nat) {
    i < |labels| && forall j | i < j < |labels| :: labels[j].0 != labels[i].0
  }

  ghost predicate DistinctKeys(labels: seq<(string, string)>) {
    forall i, j | 0 <= i < j < |labels| :: labels[i].0 != labels[j].0
  }

  /** The value that label `k` has: that of the last pair with this key. */
  ghost predicate HasValue(labels: seq<(string, string)>, k: string, v: string) {
    exists i :: 0 <= i < |labels| && labels[i] == (k, v) && LastOfKey(labels, i)
  }

  /**
   A matcher accepts exactly the label lists in which each of its keys occurs and
   has its value last; repeated keys are resolved that way.
   */
  lemma MatchesIff(matcher: LabelMatcher, labels: seq<(string, string)>)
    ensures matcher.Matches(labels) <==> forall k | k in matcher.labels :: HasValue(labels, k, matcher.labels[k])
  {
    forall k | k in matcher.labels
      ensures (k in ToMap(labels) && ToMap(labels)[k] == matcher.labels[k]) <==> HasValue(labels, k, matcher.labels[k])
    {
      ToMapHoldsLastPair(labels, k);
      if HasValue(labels, k, matcher.labels[k]) {
        var i :| 0 <= i < |labels| && labels[i] == (k, matcher.labels[k]) && LastOfKey(labels, i);
        var j :| 0 <= j < |labels| && labels[j] == (k, ToMap(labels)[k]) && LastOfKey(labels, j);
        assert i == j;
      }
    }
  }

  /** With distinct keys, a matcher accepts exactly the label lists that contain all its pairs. */
  lemma MatchesIffContains(matcher: LabelMatcher, labels: seq<(string, string)>)
    requires DistinctKeys(labels)
    ensures matcher.Matches(labels) <==> forall k | k in matcher.labels :: (k, matcher.labels[k]) in labels
  {
    MatchesIff(matcher, labels);
    forall k | k in matcher.labels
      ensures HasValue(labels, k, matcher.labels[k]) <==> (k, matcher.labels[k]) in labels
    {
      if (k, matcher.labels[k]) in labels {
        var i :| 0 <= i < |labels| && labels[i] == (k, matcher.labels[k]);
        assert LastOfKey(labels, i);
      }
    }
  }
}
