/** The store: recording, querying, consolidating and draining over the rings of all schemas. */
module Stores {
  import opened Wrappers
  import opened Floats
  import opened RingModel
  import opened RingRuns
  import opened RingBuffers
  import opened Schemas
  import opened Cascades
  import opened Consolidation
  import opened Exports
  import opened Queries

  datatype QueryResult = QueryResult(points: seq<Point>, tierUsed: nat,
                                     oldest: Option<nat>, newest: Option<nat>, mayBeIncomplete: bool)

  /** The entries of one schema, in the order given. */
  function GroupOf(entries: seq<(Handle, Float)>, schema: nat): seq<(nat, Float)> {
    if entries == [] then []
    else
      var (h, v) := entries[|entries| - 1];
      GroupOf(entries[..|entries| - 1], schema) + (if h.schema == schema then [(h.column, v)] else [])
  }

  ghost predicate NoInfinities(entries: seq<(Handle, Float)>) {
    forall i | 0 <= i < |entries| :: !entries[i].1.IsInfinite()
  }

  type Groups = map<nat, seq<(nat, Float)>>

  /** What grouped writes leave behind when the schemas of `done` were written. */
  ghost predicate AfterGroups(before: seq<seq<Ring>>, after: seq<seq<Ring>>, groups: Groups, time: nat, done: set<nat>) {
    && |after| == |before| && done <= groups.Keys
    && (forall i | i in done :: i < |before| && before[i] != [] && before[i][0].Shaped())
    && forall i | 0 <= i < |before| ::
         after[i] == if i in done then before[i][0 := before[i][0].Write(Batch(time, groups[i]))] else before[i]
  }

  lemma OneMoreGroup(before: seq<seq<Ring>>, mid: seq<seq<Ring>>, after: seq<seq<Ring>>,
                     groups: Groups, time: nat, done: set<nat>, i: nat)
    requires AfterGroups(before, mid, groups, time, done) && i < |mid| && i in groups && i !in done
    requires mid[i] != [] && mid[i][0].Shaped()
    requires after == mid[i := mid[i][0 := mid[i][0].Write(Batch(time, groups[i]))]]
    ensures AfterGroups(before, after, groups, time, done + {i})
  {
  }

  /** What a batch leaves behind when the schemas of `done` were written. */
  ghost predicate AfterBatch(before: seq<seq<Ring>>, after: seq<seq<Ring>>, entries: seq<(Handle, Float)>,
                             time: nat, done: set<nat>) {
    && |after| == |before|
    && (forall i | i in done :: i < |before| && before[i] != [] && before[i][0].Shaped())
    && forall i | 0 <= i < |before| ::
         after[i] == if i in done then before[i][0 := before[i][0].Write(Batch(time, GroupOf(entries, i)))]
                     else before[i]
  }

  lemma GroupsAreBatch(before: seq<seq<Ring>>, after: seq<seq<Ring>>, entries: seq<(Handle, Float)>, groups: Groups,
                       time: nat, done: set<nat>)
    requires AfterGroups(before, after, groups, time, done)
    requires forall i | i in groups :: groups[i] == GroupOf(entries, i)
    ensures AfterBatch(before, after, entries, time, done)
  {
  }

  // ------------------------------------------------------- batches, by entry

  /** Some entry goes to this schema. */
  ghost predicate HasEntry(entries: seq<(Handle, Float)>, schema: nat) {
    exists k :: 0 <= k < |entries| && entries[k].0.schema == schema
  }

  predicate GoesTo(entry: (Handle, Float), schema: nat, column: nat) {
    entry.0.schema == schema && entry.0.column == column
  }

  /** Some entry goes to this column. */
  ghost predicate HasColumn(entries: seq<(Handle, Float)>, schema: nat, column: nat) {
    exists k :: 0 <= k < |entries| && GoesTo(entries[k], schema, column)
  }

  /** The last entry of its column. */
  ghost predicate LastOfColumn(entries: seq<(Handle, Float)>, k: nat) {
    && k < |entries|
    && forall j | k < j < |entries| :: !GoesTo(entries[j], entries[k].0.schema, entries[k].0.column)
  }

  /**
   A ring before and after the entries of one schema were recorded at one time:
   the slot of that time has the time and the last value given for each column;
   every other slot, and every column without an entry, keeps what it had.
   */
  ghost predicate RingRecorded(before: Ring, after: Ring, entries: seq<(Handle, Float)>, schema: nat, time: nat) {
    && before.Shaped() && after.Shaped()
    && after.interval == before.interval && |after.ts| == |before.ts| && |after.vals| == |before.vals|
    && var slot := time / before.interval % |before.ts|;
       && after.cursor == slot && after.wrapped == (before.wrapped || slot < before.cursor)
       && after.ts == before.ts[slot := time]
       && (forall k: nat | LastOfColumn(entries, k) && entries[k].0.schema == schema && entries[k].0.column < |after.vals| ::
             after.vals[entries[k].0.column][slot] == entries[k].1)
       && forall c, s | 0 <= c < |after.vals| && 0 <= s < |after.ts| && (s != slot || !HasColumn(entries, schema, c)) ::
            after.vals[c][s] == before.vals[c][s]
  }

  /** The finest rings of the schemas in `done` recorded their entries; no other ring changed. */
  ghost predicate BatchRecorded(before: seq<seq<Ring>>, after: seq<seq<Ring>>, entries: seq<(Handle, Float)>, time: nat,
                                done: set<nat>) {
    && |after| == |before|
    && (forall i | i in done :: i < |before| && HasEntry(entries, i))
    && forall i | 0 <= i < |before| ::
         if i !in done then after[i] == before[i]
         else
           && before[i] != [] && |after[i]| == |before[i]| && after[i][1..] == before[i][1..]
           && RingRecorded(before[i][0], after[i][0], entries, i, time)
  }

  lemma {:induction false} GroupIsEmptyIff(entries: seq<(Handle, Float)>, schema: nat)
    ensures GroupOf(entries, schema) != [] <==> HasEntry(entries, schema)
  {
    if entries != [] {
      var n := |entries| - 1;
      var init := entries[..n];
      GroupIsEmptyIff(init, schema);
      if HasEntry(init, schema) {
        var k :| 0 <= k < n && init[k].0.schema == schema;
        assert entries[k].0.schema == schema;
      }
      if k :| 0 <= k < |entries| && entries[k].0.schema == schema {
        assert k < n ==> init[k].0.schema == schema;
      }
    }
  }

  /** A group remembers for each column the last entry that goes there. */
  lemma {:induction false} GroupLookup(entries: seq<(Handle, Float)>, schema: nat, c: nat)
    ensures Lookup(GroupOf(entries, schema), c).Some? <==> HasColumn(entries, schema, c)
    ensures forall k: nat | LastOfColumn(entries, k) && GoesTo(entries[k], schema, c) ::
              Lookup(GroupOf(entries, schema), c) == Some(entries[k].1)
  {
    if entries != [] {
      var n := |entries| - 1;
      var (h, v) := entries[n];
      var init := entries[..n];
      GroupLookup(init, schema, c);
      LookupLast(GroupOf(init, schema), h.column, v, c);
      assert GroupOf(init, schema) + [] == GroupOf(init, schema);
      ColumnSplits(entries, schema, c);
      forall k: nat | LastOfColumn(entries, k) && GoesTo(entries[k], schema, c)
        ensures Lookup(GroupOf(entries, schema), c) == Some(entries[k].1)
      {
        if k < n {
          assert init[k] == entries[k] && !GoesTo(entries[n], schema, c);
          forall j | k < j < n ensures !GoesTo(init[j], init[k].0.schema, init[k].0.column) {
            assert init[j] == entries[j];
          }
        }
      }
    }
  }

  lemma LookupLast(entries: seq<(nat, Float)>, column: nat, v: Float, c: nat)
    ensures Lookup(entries + [(column, v)], c) == if column == c then Some(v) else Lookup(entries, c)
  {
    assert (entries + [(column, v)])[..|entries|] == entries;
  }

  lemma ColumnSplits(entries: seq<(Handle, Float)>, schema: nat, c: nat)
    requires entries != []
    ensures var n := |entries| - 1;
            HasColumn(entries, schema, c) <==> HasColumn(entries[..n], schema, c) || GoesTo(entries[n], schema, c)
  {
    var n := |entries| - 1;
    if HasColumn(entries[..n], schema, c) {
      var k :| 0 <= k < n && GoesTo(entries[..n][k], schema, c);
      assert GoesTo(entries[k], schema, c);
    }
    if k :| 0 <= k < |entries| && GoesTo(entries[k], schema, c) {
      assert k < n ==> GoesTo(entries[..n][k], schema, c);
    }
  }

  lemma GroupRecords(r: Ring, entries: seq<(Handle, Float)>, schema: nat, time: nat)
    requires r.Shaped()
    ensures RingRecorded(r, r.Write(Batch(time, GroupOf(entries, schema))), entries, schema, time)
  {
    var b := Batch(time, GroupOf(entries, schema));
    CursorIsLastWrite(r, b);
    forall c: nat, s: nat | c < |r.vals| && s < |r.ts|
      ensures r.Write(b).vals[c][s] ==
              if s == r.SlotOf(time) && Lookup(b.entries, c).Some? then Lookup(b.entries, c).value else r.vals[c][s]
    {
      WrittenCell(r, b, s, c);
    }
    forall c: nat ensures Lookup(b.entries, c).Some? <==> HasColumn(entries, schema, c) {
      GroupLookup(entries, schema, c);
    }
    forall k: nat | LastOfColumn(entries, k) && entries[k].0.schema == schema && entries[k].0.column < |r.vals|
      ensures r.Write(b).vals[entries[k].0.column][r.SlotOf(time)] == entries[k].1
    {
      GroupLookup(entries, schema, entries[k].0.column);
    }
  }

  lemma BatchIsRecorded(before: seq<seq<Ring>>, after: seq<seq<Ring>>, entries: seq<(Handle, Float)>, time: nat,
                        done: set<nat>)
    requires AfterBatch(before, after, entries, time, done)
    requires forall i | i in done :: GroupOf(entries, i) != []
    ensures BatchRecorded(before, after, entries, time, done)
    ensures forall i: nat :: GroupOf(entries, i) != [] <==> HasEntry(entries, i)
  {
    forall i: nat ensures GroupOf(entries, i) != [] <==> HasEntry(entries, i) {
      GroupIsEmptyIff(entries, i);
    }
    forall i: nat | i < |before| && i in done
      ensures after[i][1..] == before[i][1..] && RingRecorded(before[i][0], after[i][0], entries, i, time)
    {
      GroupRecords(before[i][0], entries, i, time);
    }
  }

  ghost predicate FiniteGroup(entries: seq<(nat, Float)>) {
    forall i | 0 <= i < |entries| :: !entries[i].1.IsInfinite()
  }

  lemma {:induction false} GroupIsFinite(entries: seq<(Handle, Float)>, schema: nat)
    requires NoInfinities(entries)
    ensures FiniteGroup(GroupOf(entries, schema))
  {
    if entries != [] {
      GroupIsFinite(entries[..|entries| - 1], schema);
    }
  }

  lemma {:induction false} InfinityShowsInGroup(entries: seq<(Handle, Float)>, k: nat)
    requires k < |entries| && entries[k].1.IsInfinite()
    ensures !FiniteGroup(GroupOf(entries, entries[k].0.schema))
  {
    var n := |entries| - 1;
    var g, init := GroupOf(entries, entries[k].0.schema), GroupOf(entries[..n], entries[k].0.schema);
    if k == n {
      assert g[|g| - 1].1.IsInfinite();
    } else {
      InfinityShowsInGroup(entries[..n], k);
      var i :| 0 <= i < |init| && init[i].1.IsInfinite();
      assert g[i] == init[i];
    }
  }

  class Store {
    const schemas: seq<SchemaConfig>
    const rings: seq<seq<RingBuffer>>

    constructor (schemas: seq<SchemaConfig>, rings: seq<seq<RingBuffer>>)
      requires Ready(schemas, rings)
      ensures Valid() && this.schemas == schemas && this.rings == rings
    {
      this.schemas := schemas;
      this.rings := rings;
    }

    ghost predicate Valid()
      reads Objects(rings)
    {
      Ready(schemas, rings)
    }

    /** The handle names a registered column of a schema that has at least one tier. */
    ghost predicate HandleOk(h: Handle) {
      && h.schema < |rings| && |rings[h.schema]| > 0
      && forall k | 0 <= k < |rings[h.schema]| :: h.column < rings[h.schema][k].vals.Length0
    }

    /** Records one value at the finest tier of the handle's schema; all other rings stay as they are. */
    method Record(h: Handle, value: Float, time: nat) returns (r: Result<()>)
      requires Valid() && HandleOk(h)
      modifies rings[h.schema][0].Repr()
      ensures Valid()
      ensures r.Ok? <==> !value.IsInfinite() && time != 0
      ensures var s := old(States(rings));
              States(rings) ==
              if r.Ok? then s[h.schema := s[h.schema][0 := s[h.schema][0].Write(Batch(time, [(h.column, value)]))]]
              else s
    {
      ghost var before := States(rings);
      AllStates();
      r := rings[h.schema][0].Write(h.column, value, time);
      OneRingChanged(rings, before, h.schema, 0);
      if r.Err? {
        assert before[h.schema][0 := before[h.schema][0]] == before[h.schema];
      }
    }

    lemma AllStates()
      requires Valid()
      ensures forall i | 0 <= i < |rings| :: |States(rings)[i]| == |rings[i]|
      ensures forall i, k | 0 <= i < |rings| && 0 <= k < |rings[i]| ::
                rings[i][k].Valid() && |States(rings)[i]| == |rings[i]| && States(rings)[i][k] == rings[i][k].State()
    {
      forall i | 0 <= i < |rings| ensures |States(rings)[i]| == |rings[i]| {
        assert RowValid(rings[i]);
      }
      forall i, k | 0 <= i < |rings| && 0 <= k < |rings[i]|
        ensures rings[i][k].Valid() && |States(rings)[i]| == |rings[i]| && States(rings)[i][k] == rings[i][k].State()
      {
        StateOf(rings, i, k);
      }
    }

    method Query(h: Handle, tier: nat, start: nat, end: nat) returns (r: Result<QueryResult>)
      requires Valid() && HandleOk(h)
      ensures r.Ok? <==> tier < |rings[h.schema]| && start < end
      ensures r.Ok? ==>
                && rings[h.schema][tier].Valid()
                && var ring := rings[h.schema][tier].State();
                   r.value == QueryResult(ring.Read(h.column, start, end), tier, ring.Oldest(), ring.Newest(),
                                          MayBeIncomplete(ring, start, end))
    {
      if tier >= |rings[h.schema]| {
        return Err;
      }
      if start >= end {
        return Err;
      }
      AllStates();
      var ring := rings[h.schema][tier];
      var oldest := ring.OldestTimestamp();
      var newest := ring.NewestTimestamp();
      var (_, mayBeIncomplete) := AnalyzeCoverage(oldest, newest, start, end);
      var iter := ring.Read(h.column, start, end);
      var points := iter.value.Collect();
      return Ok(QueryResult(points, tier, oldest, newest, mayBeIncomplete));
    }

    method TierCoverage(ring: RingBuffer, start: nat, end: nat) returns (fullyCovered: bool, hasData: bool)
      requires ring.Valid()
      ensures fullyCovered == Covers(ring.State(), start, end) && hasData == HasData(ring.State())
      ensures fullyCovered ==> hasData
    {
      var oldest := ring.OldestTimestamp();
      var newest := ring.NewestTimestamp();
      var (covered, _) := AnalyzeCoverage(oldest, newest, start, end);
      fullyCovered := covered;
      hasData := oldest.Some? && newest.Some?;
    }

    /** Walks the tiers from the finest on and stops at the first that covers the range. */
    method SelectTier(row: seq<RingBuffer>, start: nat, end: nat, ghost covers: seq<bool>, ghost data: seq<bool>)
        returns (selectedTier: nat)
      requires |covers| == |data| == |row| && forall k | 0 <= k < |row| :: row[k].Valid()
      requires forall k | 0 <= k < |row| ::
                 covers[k] == Covers(row[k].State(), start, end) && data[k] == HasData(row[k].State())
      ensures BestOf(covers, data, selectedTier)
    {
      selectedTier := 0;
      var bestCoverage := false;
      var tier := 0;
      while tier < |row| && !bestCoverage
        invariant tier <= |row| && Searched(covers, data, tier, selectedTier, bestCoverage)
        decreases |row| - tier, !bestCoverage
      {
        var fullyCovered, hasData := TierCoverage(row[tier], start, end);
        assert covers[tier] == fullyCovered && data[tier] == hasData;
        LookAtTier(covers, data, tier, selectedTier);
        if fullyCovered {
          selectedTier := tier;
          bestCoverage := true;
        } else if hasData {
          selectedTier := tier;
        }
        tier := tier + 1;
      }
      if !bestCoverage {
        SearchEnds(covers, data, selectedTier);
      }
    }

    /** Picks a tier by coverage and queries it; `tiers` are the values of the schema's rings. */
    method QueryAuto(h: Handle, start: nat, end: nat, ghost tiers: seq<Ring>) returns (r: Result<QueryResult>)
      requires Valid() && HandleOk(h) && AllShaped(tiers) && |tiers| == |rings[h.schema]|
      requires forall k | 0 <= k < |tiers| :: rings[h.schema][k].Valid() && tiers[k] == rings[h.schema][k].State()
      requires forall k | 0 <= k < |tiers| :: h.column < |tiers[k].vals|
      ensures r.Ok? <==> start < end
      ensures r.Ok? ==>
                && r.value.tierUsed < |tiers| && BestTier(tiers, start, end, r.value.tierUsed)
                && Chosen(tiers, start, end, r.value.tierUsed)
                && r.value.points == tiers[r.value.tierUsed].Read(h.column, start, end)
                && r.value.mayBeIncomplete == MayBeIncomplete(tiers[r.value.tierUsed], start, end)
    {
      if start >= end {
        return Err;
      }
      ghost var covers, data := CoverBits(tiers, start, end), DataBits(tiers);
      var selectedTier := SelectTier(rings[h.schema], start, end, covers, data);
      assert BestTier(tiers, start, end, selectedTier);
      BestTierMeans(tiers, start, end, selectedTier);
      r := Query(h, selectedTier, start, end);
    }

    /** Groups a batch by schema, keeping the order of the entries. */
    method GroupEntries(entries: seq<(Handle, Float)>) returns (groups: map<nat, seq<(nat, Float)>>)
      ensures forall i: nat ::
                (i in groups <==> GroupOf(entries, i) != []) && (i in groups ==> groups[i] == GroupOf(entries, i))
    {
      groups := map[];
      for k := 0 to |entries|
        invariant forall i: nat ::
          (i in groups <==> GroupOf(entries[..k], i) != []) && (i in groups ==> groups[i] == GroupOf(entries[..k], i))
      {
        var (h, v) := entries[k];
        assert entries[..k + 1][..k] == entries[..k];
        groups := groups[h.schema := (if h.schema in groups then groups[h.schema] else []) + [(h.column, v)]];
      }
      assert entries[..|entries|] == entries;
    }

    ghost predicate GroupsFit(groups: Groups) {
      forall i | i in groups ::
        i < |rings| && |rings[i]| > 0 && InColumns(groups[i], rings[i][0].vals.Length0)
    }

    /** Writes the group of one schema. */
    method WriteGroup(i: nat, group: seq<(nat, Float)>, time: nat, ghost mid: seq<seq<Ring>>) returns (r: Result<()>)
      requires Valid() && i < |rings| && |rings[i]| > 0 && mid == States(rings)
      requires InColumns(group, rings[i][0].vals.Length0)
      modifies rings[i][0].Repr()
      ensures Valid() && |mid| == |rings| && |mid[i]| > 0 && mid[i][0].Shaped()
      ensures r.Ok? <==> Acceptable(Batch(time, group))
      ensures States(rings) == if r.Ok? then mid[i := mid[i][0 := mid[i][0].Write(Batch(time, group))]] else mid
    {
      AllStates();
      r := rings[i][0].WriteBatch(group, time);
      OneRingChanged(rings, mid, i, 0);
      assert mid[i][0 := mid[i][0]] == mid[i];
    }

    method RecordGroup(i: nat, groups: Groups, time: nat, ghost before: seq<seq<Ring>>, ghost done: set<nat>)
        returns (r: Result<()>)
      requires Valid() && GroupsFit(groups) && i in groups && i !in done
      requires AfterGroups(before, States(rings), groups, time, done)
      modifies Objects(rings)
      ensures Valid() && AfterGroups(before, States(rings), groups, time, if r.Ok? then done + {i} else done)
      ensures r.Ok? <==> Acceptable(Batch(time, groups[i]))
    {
      RingIsObject(rings, i, 0);
      ghost var mid := States(rings);
      r := WriteGroup(i, groups[i], time, mid);
      if r.Ok? {
        OneMoreGroup(before, mid, States(rings), groups, time, done, i);
      }
    }

    /** Writes the groups in hash-map order and stops at the first that is rejected. */
    method RecordGroups(groups: Groups, time: nat, ghost before: seq<seq<Ring>>)
        returns (r: Result<()>, ghost done: set<nat>)
      requires Valid() && before == States(rings) && GroupsFit(groups)
      modifies Objects(rings)
      ensures Valid() && AfterGroups(before, States(rings), groups, time, done)
      ensures r.Ok? ==> done == groups.Keys
      ensures r.Ok? <==> forall i | i in groups :: Acceptable(Batch(time, groups[i]))
    {
      done := {};
      var pending := groups.Keys;
      while pending != {}
        invariant Valid() && pending <= groups.Keys && done == groups.Keys - pending
        invariant AfterGroups(before, States(rings), groups, time, done)
        invariant forall i | i in done :: Acceptable(Batch(time, groups[i]))
        decreases pending
      {
        var i :| i in pending;
        var written := RecordGroup(i, groups, time, before, done);
        if written.Err? {
          return Err, done;
        }
        done := done + {i};
        pending := pending - {i};
      }
      return Ok(()), done;
    }

    /**
     Records a batch, schema by schema in hash-map order. Each schema's group is
     written whole or not at all; `done` are the schemas written, which on success
     are all that occur in the batch.
     */
    method RecordBatch(entries: seq<(Handle, Float)>, time: nat, ghost before: seq<seq<Ring>>)
        returns (r: Result<()>, ghost done: set<nat>)
      requires Valid() && before == States(rings)
      requires forall k | 0 <= k < |entries| :: HandleOk(entries[k].0)
      modifies Objects(rings)
      ensures Valid() && AfterBatch(before, States(rings), entries, time, done)
      ensures BatchRecorded(before, States(rings), entries, time, done)
      ensures r.Ok? ==> forall i: nat :: HasEntry(entries, i) <==> i in done
      ensures r.Ok? <==> entries == [] || (time != 0 && NoInfinities(entries))
    {
      var groups := GroupEntries(entries);
      forall i | i in groups
        ensures i < |rings| && |rings[i]| > 0 && InColumns(groups[i], rings[i][0].vals.Length0)
      {
        GroupColumns(entries, i);
      }
      r, done := RecordGroups(groups, time, before);
      GroupsAreBatch(before, States(rings), entries, groups, time, done);
      BatchIsRecorded(before, States(rings), entries, time, done);
      GroupsAcceptable(entries, groups, time);
    }

    /** The groups are acceptable together exactly when the batch is. */
    lemma GroupsAcceptable(entries: seq<(Handle, Float)>, groups: Groups, time: nat)
      requires forall i: nat ::
                 (i in groups <==> GroupOf(entries, i) != []) && (i in groups ==> groups[i] == GroupOf(entries, i))
      ensures (forall i | i in groups :: Acceptable(Batch(time, groups[i])))
              <==> entries == [] || (time != 0 && NoInfinities(entries))
    {
      if entries != [] {
        var j := entries[|entries| - 1].0.schema;
        assert GroupOf(entries, j) != [] && j in groups;
        if NoInfinities(entries) {
          forall i | i in groups ensures FiniteGroup(groups[i]) {
            GroupIsFinite(entries, i);
          }
        } else {
          var k :| 0 <= k < |entries| && entries[k].1.IsInfinite();
          InfinityShowsInGroup(entries, k);
          assert entries[k].0.schema in groups;
        }
      }
    }

    lemma GroupColumns(entries: seq<(Handle, Float)>, i: nat)
      requires Valid() && GroupOf(entries, i) != []
      requires forall k | 0 <= k < |entries| :: HandleOk(entries[k].0)
      ensures i < |rings| && |rings[i]| > 0 && InColumns(GroupOf(entries, i), rings[i][0].vals.Length0)
    {
      if entries != [] && GroupOf(entries[..|entries| - 1], i) != [] {
        GroupColumns(entries[..|entries| - 1], i);
      }
    }

    /**
     Drains one tier of every schema; `states` are the values of the rings, and
     `handles` come in the order the registry's hash map yields them.
     */
    method Drain(tier: nat, handles: seq<Handle>, cursor: ExportCursor, ghost states: seq<seq<Ring>>)
        returns (exports: seq<SeriesExport>)
      requires |states| == |rings| && (forall i | 0 <= i < |rings| :: |states[i]| == |rings[i]|)
      requires forall i | 0 <= i < |rings| && tier < |rings[i]| ::
                 rings[i][tier].Valid() && rings[i][tier].State() == states[i][tier]
      requires TierFits(states, tier, handles)
      modifies cursor
      ensures Drained(exports, cursor.cursors)
              == DrainSchemas(states, tier, |states|, handles, old(cursor.cursors))
    {
      exports := [];
      ghost var before := cursor.cursors;
      for i := 0 to |rings|
        invariant forall j | 0 <= j < |rings| && tier < |rings[j]| ::
          rings[j][tier].Valid() && rings[j][tier].State() == states[j][tier]
        invariant Drained(exports, cursor.cursors) == DrainSchemas(states, tier, i, handles, before)
      {
        if tier < |rings[i]| {
          var drained := DrainTier(rings[i][tier], i, tier, handles, cursor);
          exports := exports + drained;
        }
      }
    }

    /** Runs the cascade from the cursors on disk; `saved'` are the cursors on disk afterwards. */
    method Consolidate(saved: map<CursorKey, nat>, ghost before: Tiers)
        returns (r: Result<nat>, saved': map<CursorKey, nat>, ghost trace: seq<PairTrace>)
      requires Valid() && before == Tiers(States(rings), saved)
      modifies Objects(rings)
      ensures Valid()
      ensures r.Ok? ==>
                && CoversAllPairs(schemas, trace) && r.value == Operations(trace)
                && Leads(schemas, before, trace, Tiers(States(rings), saved'))
      ensures r.Err? <==> Stops(schemas, before, trace, States(rings))
      ensures r.Err? ==> saved' == saved
    {
      var engine := new ConsolidationEngine(schemas, saved);
      r, trace := engine.Consolidate(rings, before);
      saved' := engine.saved;
    }
  }

  /** A second consolidation straight after a successful one succeeds, and does nothing to any ring or cursor. */
  method ConsolidateTwice(store: Store, saved: map<CursorKey, nat>)
      returns (first: Result<nat>, second: Result<nat>, saved1: map<CursorKey, nat>, saved2: map<CursorKey, nat>,
               ghost between: seq<seq<Ring>>)
    requires store.Valid()
    modifies Objects(store.rings)
    ensures store.Valid()
    ensures first.Ok? ==> second == Ok(0) && saved2 == saved1 && States(store.rings) == between
  {
    ghost var t0 := Tiers(States(store.rings), saved);
    ghost var trace1, trace2;
    first, saved1, trace1 := store.Consolidate(saved, t0);
    between := States(store.rings);
    ghost var t1 := Tiers(between, saved1);
    second, saved2, trace2 := store.Consolidate(saved1, t1);
    if first.Ok? {
      CascadeIsIdempotent(store.schemas, t0, trace1, t1, trace2);
    }
  }
}
