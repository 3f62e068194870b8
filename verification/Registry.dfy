/** Series registration: from a name and labels to a column of a schema's rings. */
module Registry {
  import opened Wrappers
  import opened Schemas
  import opened Labels
  import opened Exports

  datatype Key = Key(name: string, labels: seq<Label>)

  function KeyFor(name: string, labels: seq<Label>): Key {
    Key(name, SortByKey(labels))
  }

  datatype SeriesInfo = SeriesInfo(name: string, labels: seq<Label>, handle: Handle)

  predicate ValidLabel(p: Label) {
    p.0 != "" && p.1 != "" && !("__" <= p.0)
  }

  predicate ValidSeries(name: string, labels: seq<Label>) {
    name != "" && forall i | 0 <= i < |labels| :: ValidLabel(labels[i])
  }

  /** The first schema from `i` on that accepts the labels. */
  function FindSchema(schemas: seq<SchemaConfig>, labels: seq<Label>, i: nat): (r: Option<nat>)
    requires i <= |schemas|
    ensures r.Some? ==> i <= r.value < |schemas| && schemas[r.value].matcher.Matches(labels)
    ensures forall j | i <= j < (if r.Some? then r.value else |schemas|) :: !schemas[j].matcher.Matches(labels)
    decreases |schemas| - i
  {
    if i == |schemas| then None
    else if schemas[i].matcher.Matches(labels) then Some(i)
    else FindSchema(schemas, labels, i + 1)
  }

  datatype State = State(series: map<Key, SeriesInfo>, nextId: seq<nat>, nextColumn: seq<nat>)

  function Empty(schemas: seq<SchemaConfig>): State {
    State(map[], seq(|schemas|, _ => 0), seq(|schemas|, _ => 0))
  }

  /** Keys belong to their series; handles lie below the counters and the capacity. */
  ghost predicate Placed(schemas: seq<SchemaConfig>, s: State) {
    && |s.nextId| == |s.nextColumn| == |schemas|
    && (forall i | 0 <= i < |schemas| :: s.nextId[i] == s.nextColumn[i] <= schemas[i].maxSeries)
    && forall k | k in s.series ::
         && k == KeyFor(s.series[k].name, s.series[k].labels)
         && var h := s.series[k].handle;
            h.schema < |schemas| && h.id == h.column < s.nextColumn[h.schema]
  }

  ghost predicate Holds(s: State, k: Key, i: nat, c: nat) {
    k in s.series && s.series[k].handle.schema == i && s.series[k].handle.column == c
  }

  /** The columns in use of each schema are exactly those below its counter, one series each. */
  ghost predicate Invariant(schemas: seq<SchemaConfig>, s: State) {
    && Placed(schemas, s)
    && (forall k, l | k in s.series && l in s.series && s.series[k].handle == s.series[l].handle :: k == l)
    && (forall i: nat, c: nat | i < |schemas| && c < s.nextColumn[i] :: InUse(s, i, c))
  }

  ghost predicate InUse(s: State, i: nat, c: nat) {
    exists k :: Holds(s, k, i, c)
  }

  function Registered(schemas: seq<SchemaConfig>, s: State, name: string, labels: seq<Label>): (Result<Handle>, State)
    requires |s.nextId| == |s.nextColumn| == |schemas|
  {
    var key := KeyFor(name, labels);
    if !ValidSeries(name, labels) then (Err, s)
    else if key in s.series then (Ok(s.series[key].handle), s)
    else
      match FindSchema(schemas, labels, 0)
      case None => (Err, s)
      case Some(i) =>
        if s.nextId[i] >= schemas[i].maxSeries then (Err, s)
        else
          var h := Handle(i, s.nextId[i], s.nextColumn[i]);
          (Ok(h), State(s.series[key := SeriesInfo(name, labels, h)],
                        s.nextId[i := s.nextId[i] + 1], s.nextColumn[i := s.nextColumn[i] + 1]))
  }

  // ------------------------------------------------ what a caller is told

  /** The registry holds a series of this name and these labels, up to their sorting. */
  ghost predicate IsSeries(s: State, k: Key, name: string, labels: seq<Label>) {
    k in s.series && k.name == name && SameValues(s.series[k].labels, labels)
  }

  ghost predicate HasHandle(s: State, name: string, labels: seq<Label>, h: Handle) {
    exists k :: IsSeries(s, k, name, labels) && s.series[k].handle == h
  }

  ghost predicate Known(s: State, name: string, labels: seq<Label>) {
    exists k :: IsSeries(s, k, name, labels)
  }

  /** Not empty, no label with an empty key or value, and no key that begins with two underscores. */
  ghost predicate Acceptable(name: string, labels: seq<Label>) {
    && name != []
    && forall i | 0 <= i < |labels| ::
         |labels[i].0| > 0 && |labels[i].1| > 0 && !(|labels[i].0| >= 2 && labels[i].0[..2] == ['_', '_'])
  }

  /** The first schema that accepts the labels has room for one more series. */
  ghost predicate HasRoom(schemas: seq<SchemaConfig>, s: State, labels: seq<Label>, i: nat) {
    && i < |schemas| && schemas[i].matcher.Matches(labels)
    && (forall j | 0 <= j < i :: !schemas[j].matcher.Matches(labels))
    && i < |s.nextColumn| && s.nextColumn[i] < schemas[i].maxSeries
  }

  lemma KeyIsSeries(schemas: seq<SchemaConfig>, s: State, k: Key, name: string, labels: seq<Label>)
    requires Placed(schemas, s) && k in s.series
    ensures IsSeries(s, k, name, labels) <==> k == KeyFor(name, labels)
  {
    SameSortedIff(s.series[k].labels, labels);
  }

  lemma KnownIffKey(schemas: seq<SchemaConfig>, s: State, name: string, labels: seq<Label>)
    requires Placed(schemas, s)
    ensures Known(s, name, labels) <==> KeyFor(name, labels) in s.series
    ensures forall h :: HasHandle(s, name, labels, h) <==>
              KeyFor(name, labels) in s.series && s.series[KeyFor(name, labels)].handle == h
  {
    forall k | k in s.series ensures IsSeries(s, k, name, labels) <==> k == KeyFor(name, labels) {
      KeyIsSeries(schemas, s, k, name, labels);
    }
    if KeyFor(name, labels) in s.series {
      assert IsSeries(s, KeyFor(name, labels), name, labels);
    }
  }

  lemma AcceptableIffValid(name: string, labels: seq<Label>)
    ensures Acceptable(name, labels) <==> ValidSeries(name, labels)
  {
    forall i | 0 <= i < |labels|
      ensures ValidLabel(labels[i]) <==>
              |labels[i].0| > 0 && |labels[i].1| > 0 && !(|labels[i].0| >= 2 && labels[i].0[..2] == ['_', '_'])
    {
      assert "__" == ['_', '_'];
    }
  }

  /** What registering a series answers and leaves behind. */
  ghost predicate Answers(schemas: seq<SchemaConfig>, s: State, name: string, labels: seq<Label>, r: Result<Handle>,
                          s': State) {
    && (r.Ok? ==> HasHandle(s', name, labels, r.value))
    && (r.Err? || Known(s, name, labels) ==> s' == s)
    && (r.Ok? <==> Acceptable(name, labels) && (Known(s, name, labels) || exists i: nat :: HasRoom(schemas, s, labels, i)))
    && (r.Ok? && !Known(s, name, labels) ==> NewHandle(schemas, s, name, labels, r.value, s'))
  }

  /** A new series takes the next column of the first schema that accepts it; every other series stays. */
  ghost predicate NewHandle(schemas: seq<SchemaConfig>, s: State, name: string, labels: seq<Label>, h: Handle, s': State)
  {
    && HasRoom(schemas, s, labels, h.schema)
    && h.column == s.nextColumn[h.schema] && s'.nextColumn == s.nextColumn[h.schema := h.column + 1]
    && (forall k | k in s.series :: k in s'.series && s'.series[k] == s.series[k])
    && (forall k | k in s'.series && k !in s.series :: IsSeries(s', k, name, labels))
  }

  /**
   What a caller is told: the handle under which the registry then holds the
   series. A series that is already known is answered from the registry, which
   stays as it is; a new one needs room in its schema.
   */
  lemma RegisterAnswers(schemas: seq<SchemaConfig>, s: State, name: string, labels: seq<Label>)
    requires Invariant(schemas, s)
    ensures var (r, s') := Registered(schemas, s, name, labels); Answers(schemas, s, name, labels, r, s')
  {
    var (r, s') := Registered(schemas, s, name, labels);
    RegisterKeepsInvariant(schemas, s, name, labels);
    AcceptableIffValid(name, labels);
    KnownIffKey(schemas, s, name, labels);
    KnownIffKey(schemas, s', name, labels);
    if ValidSeries(name, labels) && !Known(s, name, labels) {
      NewIsAnswered(schemas, s, name, labels);
    }
  }

  lemma NewIsAnswered(schemas: seq<SchemaConfig>, s: State, name: string, labels: seq<Label>)
    requires Invariant(schemas, s) && ValidSeries(name, labels) && KeyFor(name, labels) !in s.series
    ensures var (r, s') := Registered(schemas, s, name, labels);
            && (r.Ok? <==> exists i: nat :: HasRoom(schemas, s, labels, i))
            && (r.Ok? ==> NewHandle(schemas, s, name, labels, r.value, s') && KeyFor(name, labels) in s'.series)
            && (r.Ok? ==> s'.series[KeyFor(name, labels)].handle == r.value)
  {
    RoomIff(schemas, s, labels);
    var (r, s') := Registered(schemas, s, name, labels);
    if r.Ok? {
      RegisterKeepsInvariant(schemas, s, name, labels);
      KeyIsSeries(schemas, s', KeyFor(name, labels), name, labels);
    }
  }

  lemma RoomIff(schemas: seq<SchemaConfig>, s: State, labels: seq<Label>)
    requires |s.nextColumn| == |schemas|
    ensures var found := FindSchema(schemas, labels, 0);
            && ((exists i: nat :: HasRoom(schemas, s, labels, i)) <==>
                  found.Some? && s.nextColumn[found.value] < schemas[found.value].maxSeries)
            && (forall i: nat | HasRoom(schemas, s, labels, i) :: found == Some(i))
  {
    var found := FindSchema(schemas, labels, 0);
    if found.Some? && s.nextColumn[found.value] < schemas[found.value].maxSeries {
      assert HasRoom(schemas, s, labels, found.value);
    }
    if i: nat :| HasRoom(schemas, s, labels, i) {
      assert found == Some(i);
    }
  }

  lemma NewSeries(schemas: seq<SchemaConfig>, s: State, name: string, labels: seq<Label>, i: nat, s': State)
    requires |s.nextId| == |s.nextColumn| == |schemas| && ValidSeries(name, labels) && KeyFor(name, labels) !in s.series
    requires FindSchema(schemas, labels, 0) == Some(i) && s.nextId[i] < schemas[i].maxSeries
    requires var h := Handle(i, s.nextId[i], s.nextColumn[i]);
             s' == State(s.series[KeyFor(name, labels) := SeriesInfo(name, labels, h)],
                         s.nextId[i := s.nextId[i] + 1], s.nextColumn[i := s.nextColumn[i] + 1])
    ensures Registered(schemas, s, name, labels) == (Ok(Handle(i, s.nextId[i], s.nextColumn[i])), s')
  {
  }

  lemma EmptyInvariant(schemas: seq<SchemaConfig>)
    ensures Invariant(schemas, Empty(schemas))
  {
  }

  lemma RegisterKeepsInvariant(schemas: seq<SchemaConfig>, s: State, name: string, labels: seq<Label>)
    requires Invariant(schemas, s)
    ensures Invariant(schemas, Registered(schemas, s, name, labels).1)
  {
    var (r, s') := Registered(schemas, s, name, labels);
    if s' != s {
      var key, h := KeyFor(name, labels), r.value;
      forall i: nat, c: nat | i < |schemas| && c < s'.nextColumn[i] ensures InUse(s', i, c) {
        if i == h.schema && c == h.column {
          assert Holds(s', key, i, c);
        } else {
          assert InUse(s, i, c);
          var k :| Holds(s, k, i, c);
          assert Holds(s', k, i, c);
        }
      }
    }
  }

  // ------------------------------------------------------------ whole runs

  type Request = (string, seq<Label>)

  ghost function RegisterAll(schemas: seq<SchemaConfig>, s: State, requests: seq<Request>): (s': State)
    requires Invariant(schemas, s)
    ensures Invariant(schemas, s')
  {
    if requests == [] then s
    else
      var n := |requests| - 1;
      var mid := RegisterAll(schemas, s, requests[..n]);
      RegisterKeepsInvariant(schemas, mid, requests[n].0, requests[n].1);
      Registered(schemas, mid, requests[n].0, requests[n].1).1
  }

  lemma RegisterKeepsSeries(schemas: seq<SchemaConfig>, s: State, name: string, labels: seq<Label>, k: Key)
    requires |s.nextId| == |s.nextColumn| == |schemas| && k in s.series
    ensures var s' := Registered(schemas, s, name, labels).1; k in s'.series && s'.series[k] == s.series[k]
  {
  }

  /** A registered series keeps its handle under all later registrations. */
  lemma {:induction false} HandlesAreStable(schemas: seq<SchemaConfig>, s: State, requests: seq<Request>, k: Key)
    requires Invariant(schemas, s) && k in s.series
    ensures k in RegisterAll(schemas, s, requests).series
    ensures RegisterAll(schemas, s, requests).series[k] == s.series[k]
  {
    if requests != [] {
      var n := |requests| - 1;
      HandlesAreStable(schemas, s, requests[..n], k);
      RegisterKeepsSeries(schemas, RegisterAll(schemas, s, requests[..n]), requests[n].0, requests[n].1, k);
    }
  }

  /** What the request at position `i` of a run was answered. */
  ghost function AnswerAt(schemas: seq<SchemaConfig>, requests: seq<Request>, i: nat): Result<Handle>
    requires i < |requests|
  {
    var mid := RegisterAll(schemas, Empty(schemas), requests[..i]);
    Registered(schemas, mid, requests[i].0, requests[i].1).0
  }

  lemma EmptyRun(schemas: seq<SchemaConfig>, requests: seq<Request>, i: nat)
    requires i < |requests|
    ensures Invariant(schemas, Empty(schemas))
    ensures RegisterAll(schemas, Empty(schemas), requests[..i + 1])
            == Registered(schemas, RegisterAll(schemas, Empty(schemas), requests[..i]), requests[i].0, requests[i].1).1
  {
    EmptyInvariant(schemas);
    assert requests[..i + 1][..i] == requests[..i];
  }

  /** An answer stays true to the end of the run. */
  lemma AnswerStays(schemas: seq<SchemaConfig>, requests: seq<Request>, i: nat)
    requires i < |requests| && AnswerAt(schemas, requests, i).Ok?
    ensures var s, key := RegisterAll(schemas, Empty(schemas), requests), KeyFor(requests[i].0, requests[i].1);
            key in s.series && s.series[key].handle == AnswerAt(schemas, requests, i).value
  {
    var key := KeyFor(requests[i].0, requests[i].1);
    var mid := RegisterAll(schemas, Empty(schemas), requests[..i]);
    var after := RegisterAll(schemas, Empty(schemas), requests[..i + 1]);
    EmptyRun(schemas, requests, i);
    RegisterAnswers(schemas, mid, requests[i].0, requests[i].1);
    KnownIffKey(schemas, after, requests[i].0, requests[i].1);
    RunSplits(schemas, Empty(schemas), requests, i + 1);
    HandlesAreStable(schemas, after, requests[i + 1..], key);
  }

  lemma {:induction false} RunSplits(schemas: seq<SchemaConfig>, s: State, requests: seq<Request>, i: nat)
    requires Invariant(schemas, s) && i <= |requests|
    ensures RegisterAll(schemas, s, requests)
            == RegisterAll(schemas, RegisterAll(schemas, s, requests[..i]), requests[i..])
  {
    var n := |requests|;
    if i == n {
      assert requests[..n] == requests && requests[n..] == [];
    } else {
      RunSplits(schemas, s, requests[..n - 1], i);
      SlicesMeet(requests, i);
      LastOfRun(schemas, RegisterAll(schemas, s, requests[..i]), requests[i..]);
      LastOfRun(schemas, s, requests);
    }
  }

  lemma LastOfRun(schemas: seq<SchemaConfig>, s: State, requests: seq<Request>)
    requires Invariant(schemas, s) && requests != []
    ensures var n := |requests| - 1;
            RegisterAll(schemas, s, requests)
            == Registered(schemas, RegisterAll(schemas, s, requests[..n]), requests[n].0, requests[n].1).1
  {
  }

  lemma SlicesMeet(requests: seq<Request>, i: nat)
    requires i < |requests|
    ensures var n := |requests| - 1;
            && requests[..n][..i] == requests[..i] && requests[i..][..n - i] == requests[..n][i..]
            && requests[i..][n - i] == requests[n]
  {
  }

  /**
   In every run of registrations two that succeed are answered the same handle
   exactly when their names agree and their labels give every key the same
   values in order, whatever was registered in between.
   */
  lemma SharedHandleIff(schemas: seq<SchemaConfig>, requests: seq<Request>, i: nat, j: nat)
    requires i < |requests| && j < |requests|
    requires AnswerAt(schemas, requests, i).Ok? && AnswerAt(schemas, requests, j).Ok?
    ensures var x, y := requests[i], requests[j];
            && (AnswerAt(schemas, requests, i) == AnswerAt(schemas, requests, j) <==> x.0 == y.0 && SameValues(x.1, y.1))
            && (DistinctKeys(x.1) && DistinctKeys(y.1) ==> (SameValues(x.1, y.1) <==> forall p :: p in x.1 <==> p in y.1))
  {
    var x, y := requests[i], requests[j];
    AnswerStays(schemas, requests, i);
    AnswerStays(schemas, requests, j);
    SameSortedIff(x.1, y.1);
    if DistinctKeys(x.1) && DistinctKeys(y.1) {
      SameSortedIffReordered(x.1, y.1);
    }
  }

  /** Different series write to different cells: their handles differ in schema or in column. */
  lemma SeriesHaveOwnColumns(schemas: seq<SchemaConfig>, s: State, k: Key, l: Key)
    requires Invariant(schemas, s) && k in s.series && l in s.series && k != l
    ensures s.series[k].handle.schema != s.series[l].handle.schema
            || s.series[k].handle.column != s.series[l].handle.column
  {
  }

  // -------------------------------------------------------- save and load

  datatype SeriesIndex = SeriesIndex(series: seq<SeriesInfo>, nextId: seq<nat>, nextColumn: seq<nat>)

  function Rebuild(series: seq<SeriesInfo>): map<Key, SeriesInfo> {
    if series == [] then map[]
    else
      var info := series[|series| - 1];
      Rebuild(series[..|series| - 1])[KeyFor(info.name, info.labels) := info]
  }

  function Loaded(schemas: seq<SchemaConfig>, index: SeriesIndex): Result<State> {
    if |schemas| != |index.nextId| then Err
    else Ok(State(Rebuild(index.series), index.nextId, index.nextColumn))
  }

  /** The index lists exactly the registered series, in any order. */
  ghost predicate Lists(s: State, index: SeriesIndex) {
    && index.nextId == s.nextId && index.nextColumn == s.nextColumn
    && (forall info | info in index.series :: exists k :: k in s.series && s.series[k] == info)
    && (forall k | k in s.series :: s.series[k] in index.series)
  }

  ghost predicate NoRepeats(series: seq<SeriesInfo>) {
    forall i, j | 0 <= i < j < |series| :: series[i] != series[j]
  }

  lemma {:induction false} RebuildHolds(series: seq<SeriesInfo>, k: Key)
    ensures k in Rebuild(series) ==>
              Rebuild(series)[k] in series && k == KeyFor(Rebuild(series)[k].name, Rebuild(series)[k].labels)
    ensures forall info | info in series && k == KeyFor(info.name, info.labels) :: k in Rebuild(series)
  {
    if series != [] {
      RebuildHolds(series[..|series| - 1], k);
    }
  }

  /** Saving and loading gives back the same registry, whatever order the map was saved in. */
  lemma LoadRestores(schemas: seq<SchemaConfig>, s: State, index: SeriesIndex)
    requires Invariant(schemas, s) && Lists(s, index)
    ensures Loaded(schemas, index) == Ok(s)
  {
    var m := Rebuild(index.series);
    forall k ensures k in m <==> k in s.series
             ensures k in m ==> m[k] == s.series[k]
    {
      RebuildHolds(index.series, k);
      if k in s.series {
        assert s.series[k] in index.series;
      }
      if k in m {
        var l :| l in s.series && s.series[l] == m[k];
        assert l == k;
      }
    }
    assert m == s.series;
  }

  /** The last entry of its series in the list. */
  ghost predicate LastListed(series: seq<SeriesInfo>, i: nat) {
    i < |series| && forall j | i < j < |series| :: !AreSame(series[i], series[j])
  }

  /** The same name, and the same values for every label key. */
  ghost predicate AreSame(x: SeriesInfo, y: SeriesInfo) {
    x.name == y.name && SameValues(x.labels, y.labels)
  }

  lemma SameIffAreSame(x: SeriesInfo, y: SeriesInfo)
    ensures KeyFor(x.name, x.labels) == KeyFor(y.name, y.labels) <==> AreSame(x, y)
  {
    SameSortedIff(x.labels, y.labels);
  }

  lemma {:induction false} RebuildKeepsLast(series: seq<SeriesInfo>, i: nat)
    requires LastListed(series, i)
    ensures var key := KeyFor(series[i].name, series[i].labels);
            key in Rebuild(series) && Rebuild(series)[key] == series[i]
  {
    var n := |series| - 1;
    if i < n {
      SameIffAreSame(series[i], series[n]);
      forall j | i < j < n ensures !AreSame(series[..n][i], series[..n][j]) {
        assert !AreSame(series[i], series[j]);
      }
      RebuildKeepsLast(series[..n], i);
    }
  }

  /**
   What loading any index gives, also one that names a series twice: an error
   exactly for a wrong number of schemas, and else the counters of the index, the
   last entry of each listed series, and no other series.
   */
  lemma LoadedMeans(schemas: seq<SchemaConfig>, index: SeriesIndex)
    ensures Loaded(schemas, index).Ok? <==> |schemas| == |index.nextId|
    ensures Loaded(schemas, index).Ok? ==>
              var s := Loaded(schemas, index).value;
              && s.nextId == index.nextId && s.nextColumn == index.nextColumn
              && (forall i: nat | LastListed(index.series, i) ::
                    var key := KeyFor(index.series[i].name, index.series[i].labels);
                    key in s.series && s.series[key] == index.series[i])
              && forall k | k in s.series ::
                   s.series[k] in index.series && k == KeyFor(s.series[k].name, s.series[k].labels)
  {
    forall i: nat | LastListed(index.series, i)
      ensures var key := KeyFor(index.series[i].name, index.series[i].labels);
              key in Rebuild(index.series) && Rebuild(index.series)[key] == index.series[i]
    {
      RebuildKeepsLast(index.series, i);
    }
    forall k | k in Rebuild(index.series)
      ensures Rebuild(index.series)[k] in index.series
      ensures k == KeyFor(Rebuild(index.series)[k].name, Rebuild(index.series)[k].labels)
    {
      RebuildHolds(index.series, k);
    }
  }

  // -------------------------------------------------------------- the class

  class SeriesRegistry {
    const schemas: seq<SchemaConfig>
    var seriesMap: map<Key, SeriesInfo>
    var nextSeriesId: seq<nat>
    var nextColumn: seq<nat>

    ghost function Value(): State
      reads this
    {
      State(seriesMap, nextSeriesId, nextColumn)
    }

    ghost predicate Valid()
      reads this
    {
      Invariant(schemas, Value())
    }

    constructor (schemas: seq<SchemaConfig>)
      ensures Valid() && this.schemas == schemas && Value() == Empty(schemas)
    {
      this.schemas := schemas;
      seriesMap := map[];
      nextSeriesId := seq(|schemas|, _ => 0);
      nextColumn := seq(|schemas|, _ => 0);
      new;
      EmptyInvariant(schemas);
    }

    method ValidateLabels(labels: seq<Label>) returns (valid: bool)
      ensures valid <==> forall i | 0 <= i < |labels| :: ValidLabel(labels[i])
    {
      for i := 0 to |labels|
        invariant forall j | 0 <= j < i :: ValidLabel(labels[j])
      {
        if labels[i].0 == "" || labels[i].1 == "" || "__" <= labels[i].0 {
          return false;
        }
      }
      return true;
    }

    method FindMatchingSchema(labels: seq<Label>) returns (r: Option<nat>)
      ensures r == FindSchema(schemas, labels, 0)
    {
      for i := 0 to |schemas|
        invariant FindSchema(schemas, labels, 0) == FindSchema(schemas, labels, i)
      {
        if schemas[i].matcher.Matches(labels) {
          return Some(i);
        }
      }
      return None;
    }

    method Register(name: string, labels: seq<Label>) returns (r: Result<Handle>)
      requires Valid()
      modifies this
      ensures Valid()
      ensures (r, Value()) == Registered(schemas, old(Value()), name, labels)
    {
      ghost var before := Value();
      RegisterKeepsInvariant(schemas, before, name, labels);
      if name == "" {
        return Err;
      }
      var valid := ValidateLabels(labels);
      if !valid {
        return Err;
      }
      var key := KeyFor(name, labels);
      if key in seriesMap {
        return Ok(seriesMap[key].handle);
      }
      var found := FindMatchingSchema(labels);
      if found.None? {
        return Err;
      }
      var i := found.value;
      if nextSeriesId[i] >= schemas[i].maxSeries {
        return Err;
      }
      var handle := Handle(i, nextSeriesId[i], nextColumn[i]);
      seriesMap := seriesMap[key := SeriesInfo(name, labels, handle)];
      nextSeriesId := nextSeriesId[i := nextSeriesId[i] + 1];
      nextColumn := nextColumn[i := nextColumn[i] + 1];
      NewSeries(schemas, before, name, labels, i, Value());
      return Ok(handle);
    }

    method GetHandle(name: string, labels: seq<Label>) returns (r: Option<Handle>)
      requires Valid()
      ensures r.Some? ==> exists k ::
                k in seriesMap && seriesMap[k].handle == r.value && k.name == name && SameValues(seriesMap[k].labels, labels)
      ensures r.None? ==> forall k | k in seriesMap :: !(k.name == name && SameValues(seriesMap[k].labels, labels))
    {
      var key := KeyFor(name, labels);
      forall k | k in seriesMap ensures k == key <==> k.name == name && SameValues(seriesMap[k].labels, labels) {
        SameSortedIff(seriesMap[k].labels, labels);
      }
      r := if key in seriesMap then Some(seriesMap[key].handle) else None;
    }

    /** Finds the series of a handle by looking through the map. */
    method SeriesInfoOf(h: Handle) returns (r: Option<SeriesInfo>)
      requires Valid()
      ensures r.Some? ==> r.value.handle == h
      ensures forall k | k in seriesMap :: seriesMap[k].handle == h ==> r == Some(seriesMap[k])
    {
      var remaining := seriesMap.Keys;
      while remaining != {}
        invariant remaining <= seriesMap.Keys
        invariant forall k | k in seriesMap && k !in remaining :: seriesMap[k].handle != h
        decreases remaining
      {
        var k :| k in remaining;
        if seriesMap[k].handle == h {
          return Some(seriesMap[k]);
        }
        remaining := remaining - {k};
      }
      return None;
    }

    /** The index as it is written to disk, with the series in hash-map order. */
    method Save() returns (index: SeriesIndex)
      requires Valid()
      ensures Lists(Value(), index) && NoRepeats(index.series)
      ensures Loaded(schemas, index) == Ok(Value())
    {
      var series: seq<SeriesInfo> := [];
      var remaining := seriesMap.Keys;
      while remaining != {}
        invariant remaining <= seriesMap.Keys
        invariant forall info | info in series :: exists k :: k in seriesMap && k !in remaining && seriesMap[k] == info
        invariant forall k | k in seriesMap && k !in remaining :: seriesMap[k] in series
        invariant NoRepeats(series)
        decreases remaining
      {
        var k :| k in remaining;
        assert seriesMap[k] !in series by {
          assert k == KeyFor(seriesMap[k].name, seriesMap[k].labels);
        }
        series := series + [seriesMap[k]];
        remaining := remaining - {k};
      }
      index := SeriesIndex(series, nextSeriesId, nextColumn);
      LoadRestores(schemas, Value(), index);
    }

    constructor FromState(schemas: seq<SchemaConfig>, s: State)
      ensures this.schemas == schemas && Value() == s
    {
      this.schemas := schemas;
      seriesMap := s.series;
      nextSeriesId := s.nextId;
      nextColumn := s.nextColumn;
    }
  }

  /** Rebuilds the registry from an index; a wrong number of schemas is an error. */
  method Load(schemas: seq<SchemaConfig>, index: SeriesIndex) returns (r: Result<SeriesRegistry>)
    ensures r.Ok? <==> Loaded(schemas, index).Ok?
    ensures r.Ok? <==> |schemas| == |index.nextId|
    ensures r.Ok? ==> fresh(r.value) && r.value.schemas == schemas && Ok(r.value.Value()) == Loaded(schemas, index)
  {
    if |schemas| != |index.nextId| {
      return Err;
    }
    var seriesMap := map[];
    for i := 0 to |index.series|
      invariant seriesMap == Rebuild(index.series[..i])
    {
      assert index.series[..i + 1][..i] == index.series[..i];
      var info := index.series[i];
      seriesMap := seriesMap[KeyFor(info.name, info.labels) := info];
    }
    assert index.series[..|index.series|] == index.series;
    var registry := new SeriesRegistry.FromState(schemas, State(seriesMap, index.nextId, index.nextColumn));
    return Ok(registry);
  }
}
