/** What a drain of any tier of the store returns, handle by handle. */
module TierDrains {
  import opened RingModel
  import opened Exports
  import opened Delivery

  /** The drain of one ring, seen from its handles. */
  ghost predicate RingDrained(r: Ring, schema: nat, tier: nat, handles: seq<Handle>, cursors: map<SeriesKey, nat>,
                              d: Drained)
    requires r.Shaped() && HandlesFit(handles, schema, |r.vals|)
  {
    && (forall e :: e in d.exports <==> RingExports(r, schema, tier, handles, cursors, e))
    && (forall i: nat | i < |handles| && handles[i].schema == schema ::
          HandleAdvanced(r, tier, handles[i], cursors, d.cursors))
    && (forall key: SeriesKey | key.0 != schema || key.1 != tier || !HasSeries(handles, schema, key.2) ::
          CursorOf(d.cursors, key) == CursorOf(cursors, key))
  }

  ghost predicate RingExports(r: Ring, schema: nat, tier: nat, handles: seq<Handle>, cursors: map<SeriesKey, nat>,
                              e: SeriesExport)
    requires r.Shaped() && HandlesFit(handles, schema, |r.vals|)
  {
    && e.handle in handles && e.handle.schema == schema && e.points != []
    && e.handle.column < |r.vals|
    && e.points == DrainPoints(r, e.handle.column, CursorOf(cursors, (schema, tier, e.handle.column)))
  }

  ghost predicate HandleAdvanced(r: Ring, tier: nat, h: Handle, cursors: map<SeriesKey, nat>,
                                 cursors': map<SeriesKey, nat>)
    requires r.Shaped()
  {
    var key := (h.schema, tier, h.column);
    && h.column < |r.vals|
    && CursorOf(cursors', key) == CursorOf(Advance(cursors, key, DrainPoints(r, h.column, CursorOf(cursors, key))), key)
  }

  lemma {:induction false} DrainAllMeans(r: Ring, schema: nat, tier: nat, handles: seq<Handle>,
                                         cursors: map<SeriesKey, nat>)
    requires r.Shaped() && HandlesFit(handles, schema, |r.vals|) && OwnColumns(handles)
    ensures RingDrained(r, schema, tier, handles, cursors, DrainAll(r, schema, tier, handles, cursors))
  {
    if handles != [] {
      var n := |handles| - 1;
      var d := DrainAll(r, schema, tier, handles[..n], cursors);
      LastIsNew(handles);
      DrainAllMeans(r, schema, tier, handles[..n], cursors);
      assert handles[..n] + [handles[n]] == handles;
      if handles[n].schema == schema {
        HandleDrained(r, schema, tier, handles[..n], handles[n], cursors, d);
      } else {
        HandlePassedOver(r, schema, tier, handles[..n], handles[n], cursors, d);
      }
    }
  }

  lemma SeriesOfMore(handles: seq<Handle>, h: Handle, schema: nat)
    ensures forall c: nat :: HasSeries(handles + [h], schema, c) <==>
              HasSeries(handles, schema, c) || (h.schema == schema && h.column == c)
  {
    forall c: nat ensures HasSeries(handles + [h], schema, c) <==>
                          HasSeries(handles, schema, c) || (h.schema == schema && h.column == c)
    {
      HasSeriesSplits(handles + [h], schema, c);
      assert (handles + [h])[..|handles|] == handles && (handles + [h])[|handles|] == h;
    }
  }

  lemma HandlePassedOver(r: Ring, schema: nat, tier: nat, handles: seq<Handle>, h: Handle, cursors: map<SeriesKey, nat>,
                         d: Drained)
    requires r.Shaped() && HandlesFit(handles + [h], schema, |r.vals|) && HandlesFit(handles, schema, |r.vals|)
    requires RingDrained(r, schema, tier, handles, cursors, d) && h.schema != schema
    ensures RingDrained(r, schema, tier, handles + [h], cursors, d)
  {
    SeriesOfMore(handles, h, schema);
  }

  lemma HandleDrained(r: Ring, schema: nat, tier: nat, handles: seq<Handle>, h: Handle, cursors: map<SeriesKey, nat>,
                      d: Drained)
    requires r.Shaped() && HandlesFit(handles + [h], schema, |r.vals|) && HandlesFit(handles, schema, |r.vals|)
    requires RingDrained(r, schema, tier, handles, cursors, d)
    requires h.schema == schema && !HasSeries(handles, h.schema, h.column)
    ensures (handles + [h])[|handles|] == h && h.column < |r.vals|
    ensures var key := (schema, tier, h.column);
            var points := DrainPoints(r, h.column, CursorOf(d.cursors, key));
            RingDrained(r, schema, tier, handles + [h], cursors,
                        Drained(if points == [] then d.exports else d.exports + [SeriesExport(h, points)],
                                Advance(d.cursors, key, points)))
  {
    assert (handles + [h])[|handles|] == h;
    SeriesOfMore(handles, h, schema);
    forall i: nat | i < |handles| && handles[i].schema == schema ensures handles[i].column != h.column {
      assert HasSeries(handles, schema, handles[i].column);
    }
    var key := (schema, tier, h.column);
    assert CursorOf(d.cursors, key) == CursorOf(cursors, key);
    forall e ensures RingExports(r, schema, tier, handles + [h], cursors, e) <==>
                     RingExports(r, schema, tier, handles, cursors, e)
                     || (e == SeriesExport(h, DrainPoints(r, h.column, CursorOf(cursors, key))) && e.points != [])
    {
      ExportsOfMore(r, schema, tier, handles, h, cursors, e);
    }
  }

  lemma ExportsOfMore(r: Ring, schema: nat, tier: nat, handles: seq<Handle>, h: Handle, cursors: map<SeriesKey, nat>,
                      e: SeriesExport)
    requires r.Shaped() && HandlesFit(handles + [h], schema, |r.vals|) && HandlesFit(handles, schema, |r.vals|)
    requires h.schema == schema && h.column < |r.vals|
    ensures RingExports(r, schema, tier, handles + [h], cursors, e) <==>
            RingExports(r, schema, tier, handles, cursors, e)
            || (e.points != []
                && e == SeriesExport(h, DrainPoints(r, h.column, CursorOf(cursors, (schema, tier, h.column)))))
  {
  }

  // ------------------------------------------------------------ whole stores

  /** The handle's schema is among the first `k` and has the tier. */
  ghost predicate HasTier(rings: seq<seq<Ring>>, tier: nat, k: nat, h: Handle)
    requires k <= |rings|
  {
    h.schema < k && tier < |rings[h.schema]|
  }

  ghost predicate StoreExports(rings: seq<seq<Ring>>, tier: nat, k: nat, handles: seq<Handle>,
                               cursors: map<SeriesKey, nat>, e: SeriesExport)
    requires k <= |rings| && TierFits(rings, tier, handles)
  {
    && HasTier(rings, tier, k, e.handle)
    && RingExports(rings[e.handle.schema][tier], e.handle.schema, tier, handles, cursors, e)
  }

  /**
   The drain of a tier of the first `k` schemas, seen from its handles: each whose
   schema has the tier is exported with what the tier's ring holds for it after its
   own cursor, unless that is nothing; its cursor moves to the last of these points
   and no other cursor moves.
   */
  ghost predicate StoreDrained(rings: seq<seq<Ring>>, tier: nat, k: nat, handles: seq<Handle>,
                               cursors: map<SeriesKey, nat>, d: Drained)
    requires k <= |rings| && TierFits(rings, tier, handles)
  {
    && (forall e :: e in d.exports <==> StoreExports(rings, tier, k, handles, cursors, e))
    && (forall i: nat | i < |handles| && HasTier(rings, tier, k, handles[i]) ::
          HandleAdvanced(rings[handles[i].schema][tier], tier, handles[i], cursors, d.cursors))
    && (forall key: SeriesKey | !DrainsKey(rings, tier, k, handles, key) ::
          CursorOf(d.cursors, key) == CursorOf(cursors, key))
  }

  ghost predicate DrainsKey(rings: seq<seq<Ring>>, tier: nat, k: nat, handles: seq<Handle>, key: SeriesKey)
    requires k <= |rings|
  {
    key.0 < k && key.1 == tier && tier < |rings[key.0]| && HasSeries(handles, key.0, key.2)
  }

  /** The drain of any tier of the store. */
  lemma {:induction false} DrainSchemasMeans(rings: seq<seq<Ring>>, tier: nat, k: nat, handles: seq<Handle>,
                                             cursors: map<SeriesKey, nat>)
    requires k <= |rings| && TierFits(rings, tier, handles) && OwnColumns(handles)
    ensures StoreDrained(rings, tier, k, handles, cursors, DrainSchemas(rings, tier, k, handles, cursors))
  {
    if k == 0 {
      NothingDrained(rings, tier, handles, cursors);
    } else {
      DrainSchemasMeans(rings, tier, k - 1, handles, cursors);
      OneMoreSchema(rings, tier, k - 1, handles, cursors, DrainSchemas(rings, tier, k - 1, handles, cursors));
    }
  }

  lemma NothingDrained(rings: seq<seq<Ring>>, tier: nat, handles: seq<Handle>, cursors: map<SeriesKey, nat>)
    requires TierFits(rings, tier, handles)
    ensures StoreDrained(rings, tier, 0, handles, cursors, Drained([], cursors))
  {
  }

  lemma OneMoreSchema(rings: seq<seq<Ring>>, tier: nat, schema: nat, handles: seq<Handle>, cursors: map<SeriesKey, nat>,
                      d: Drained)
    requires schema < |rings| && TierFits(rings, tier, handles) && OwnColumns(handles)
    requires StoreDrained(rings, tier, schema, handles, cursors, d)
    ensures tier >= |rings[schema]| ==> StoreDrained(rings, tier, schema + 1, handles, cursors, d)
    ensures tier < |rings[schema]| ==>
              var e := DrainAll(rings[schema][tier], schema, tier, handles, d.cursors);
              StoreDrained(rings, tier, schema + 1, handles, cursors, Drained(d.exports + e.exports, e.cursors))
  {
    if tier < |rings[schema]| {
      DrainAllMeans(rings[schema][tier], schema, tier, handles, d.cursors);
      SchemaDrained(rings, tier, schema, handles, cursors, d,
                    DrainAll(rings[schema][tier], schema, tier, handles, d.cursors));
    } else {
      SchemaLacksTier(rings, tier, schema, handles, cursors, d);
    }
  }

  lemma SchemaLacksTier(rings: seq<seq<Ring>>, tier: nat, schema: nat, handles: seq<Handle>, cursors: map<SeriesKey, nat>,
                        d: Drained)
    requires schema < |rings| && TierFits(rings, tier, handles) && tier >= |rings[schema]|
    requires StoreDrained(rings, tier, schema, handles, cursors, d)
    ensures StoreDrained(rings, tier, schema + 1, handles, cursors, d)
  {
    forall e ensures StoreExports(rings, tier, schema + 1, handles, cursors, e)
                     <==> StoreExports(rings, tier, schema, handles, cursors, e)
    {
    }
    forall key: SeriesKey ensures DrainsKey(rings, tier, schema + 1, handles, key)
                                  <==> DrainsKey(rings, tier, schema, handles, key)
    {
    }
  }

  /** No series of the schema moved in this tier. */
  ghost predicate SchemaUntouched(before: map<SeriesKey, nat>, after: map<SeriesKey, nat>, schema: nat, tier: nat) {
    forall key: SeriesKey | key.0 == schema && key.1 == tier :: CursorOf(after, key) == CursorOf(before, key)
  }

  lemma SchemaDrained(rings: seq<seq<Ring>>, tier: nat, schema: nat, handles: seq<Handle>, cursors: map<SeriesKey, nat>,
                      d: Drained, e: Drained)
    requires schema < |rings| && TierFits(rings, tier, handles) && tier < |rings[schema]|
    requires StoreDrained(rings, tier, schema, handles, cursors, d)
    requires RingDrained(rings[schema][tier], schema, tier, handles, d.cursors, e)
    ensures StoreDrained(rings, tier, schema + 1, handles, cursors, Drained(d.exports + e.exports, e.cursors))
  {
    assert SchemaUntouched(cursors, d.cursors, schema, tier);
    forall x ensures x in d.exports + e.exports <==> StoreExports(rings, tier, schema + 1, handles, cursors, x) {
      ExportOfNext(rings, tier, schema, handles, cursors, d, e, x);
    }
    forall i: nat | i < |handles| && HasTier(rings, tier, schema + 1, handles[i])
      ensures HandleAdvanced(rings[handles[i].schema][tier], tier, handles[i], cursors, e.cursors)
    {
      CursorOfNext(rings, tier, schema, handles, cursors, d, e, i);
    }
    forall key: SeriesKey | !DrainsKey(rings, tier, schema + 1, handles, key)
      ensures CursorOf(e.cursors, key) == CursorOf(cursors, key)
    {
      assert !DrainsKey(rings, tier, schema, handles, key);
    }
  }

  lemma ExportOfNext(rings: seq<seq<Ring>>, tier: nat, schema: nat, handles: seq<Handle>, cursors: map<SeriesKey, nat>,
                     d: Drained, e: Drained, x: SeriesExport)
    requires schema < |rings| && TierFits(rings, tier, handles) && tier < |rings[schema]|
    requires StoreDrained(rings, tier, schema, handles, cursors, d) && SchemaUntouched(cursors, d.cursors, schema, tier)
    requires RingDrained(rings[schema][tier], schema, tier, handles, d.cursors, e)
    ensures x in d.exports + e.exports <==> StoreExports(rings, tier, schema + 1, handles, cursors, x)
  {
    assert x in d.exports <==> StoreExports(rings, tier, schema, handles, cursors, x);
    assert x in e.exports <==> RingExports(rings[schema][tier], schema, tier, handles, d.cursors, x);
  }

  lemma CursorOfNext(rings: seq<seq<Ring>>, tier: nat, schema: nat, handles: seq<Handle>, cursors: map<SeriesKey, nat>,
                     d: Drained, e: Drained, i: nat)
    requires schema < |rings| && TierFits(rings, tier, handles) && tier < |rings[schema]|
    requires StoreDrained(rings, tier, schema, handles, cursors, d) && SchemaUntouched(cursors, d.cursors, schema, tier)
    requires RingDrained(rings[schema][tier], schema, tier, handles, d.cursors, e)
    requires i < |handles| && HasTier(rings, tier, schema + 1, handles[i])
    ensures HandleAdvanced(rings[handles[i].schema][tier], tier, handles[i], cursors, e.cursors)
  {
    var h := handles[i];
    var key := (h.schema, tier, h.column);
    if h.schema == schema {
      assert HandleAdvanced(rings[schema][tier], tier, h, d.cursors, e.cursors);
    } else {
      assert HandleAdvanced(rings[h.schema][tier], tier, h, cursors, d.cursors);
      assert CursorOf(e.cursors, key) == CursorOf(d.cursors, key);
    }
  }
}
