# Rondo, verified

A Dafny model of the rondo time-series store and of the virtio block device of
its demo VMM, with proofs of what they promise. `dafny verify dfyconfig.toml`
checks everything.

## What is modelled

**The store.** A tier is a fixed-size ring. A timestamp picks its slot by
`(ts / interval) % slot_count`; all series of a schema share the timestamp
column. `RingModel` gives the ring's operations on values, `RingBuffers` is the
mutable object, proved method by method to do the same. On top of it:

- `RingRuns`, `RecordedReads`, `RingOrder`, `ColumnOrder`, `BoundedLog`,
  `SteadyRuns`, `MergedLogs`, `Reopening`: what reads return after arbitrary and
  gap-free runs of writes, when they are chronological, when they show only what was
  recorded, and what a reopen can change.
- `Schemas`, `Downsampling`, `Passes`, `Parts`, `Incremental`, `IncrementalRuns`,
  `SplitWindows`, `Cascades`, `CascadePasses`, with the methods in `Engines` and
  `Consolidation`: downsampling from tier to tier, driven by cursors. `PassSummaries`, `ThreeTiers`
  and `StaleTiers`: what a third tier makes of it.
- `Exports`, `DrainReads`, `TierDrains`, `ExportRuns`, `Delivery`, `SavedDelivery`,
  `DeliveryRuns`, `Redelivery`: draining through export cursors and the remote-write
  loop around it.
- `Queries`, `Stores`: coverage analysis, tier selection and the store's
  operations.
- `Labels`, `Registry`, `Isolation`: series keys, handles, their saved index, and
  that series do not disturb each other.
- `Words`, `SlabLayouts`, `Slabs`, `SlabRuns`, `SlabRings`: the file layout, byte by
  byte, and the ring that writes and reads through it.

**The block device.** `Virtqueue` (guest memory and descriptor chains), `BlockIo`
(scattered buffers against a flat file), `Requests` (one request), `QueueOrder`
and `BlockQueue` (the queue and its 16-bit indices), `GuestRequests` and
`GuestQueues` (the same as a guest driver sees it, byte by byte), and
`VirtioBlocks`, the mutable device. The constants are those of sections 2.7 and 5.2.6 of the VIRTIO
specification, version 1.2.

Values are reals with explicit NaN and infinities. Timestamps are unbounded
naturals. The order in which a hash map yields windows is an arbitrary
permutation, a parameter of every consolidation pass. Pushes, saves and restarts
of the export loop are events with arbitrary outcomes. Guest memory is one region
that starts at address 0; a transfer that begins inside and runs past its end is
cut there, as the vm-memory library does, which is not part of this model.

## Where the code and its documentation differ

The model follows the code.

- Reads are documented as chronological (`rondo/src/ring.rs:252-255`). Two kinds of
  writes break that: one that jumps over data (`RingOrder.ChronologyCounterexample`)
  and one that comes late (`RingOrder.LateWriteCounterexample`).
  `ColumnOrder.ColumnReadsChronologicalIff` is the exact condition, for every column
  of every run, with timestamps in any order and whichever batches write the column:
  no write moves the cursor in between two samples of the column, and none puts a
  sample of it behind a newer one. A write may be late for the ring and for none of
  its columns (`ColumnOrder.LateForTheRingOnly`).
- Reads are documented to return the values of a series. Since the series of a ring
  share its timestamps, a batch that leaves a column out moves the timestamp under
  that column's old value, and a read then shows a sample that nobody recorded
  (`RecordedReads.MixedSample`). With nondecreasing timestamps this happens exactly
  when a batch has no entry for a column whose value is still in the slot under
  another timestamp, which the caller can check before the write
  (`RecordedReads.WriteKeepsRecordedIff`, `RecordedReads.RecordedThroughoutIff`).
- A query's flag is documented to say whether data may be missing
  (`rondo/src/query.rs:225-230`). It only compares the range with the oldest
  timestamp. With one batch per bucket it is right (`Queries.CompleteFlagIsSound`);
  after a gap a sample inside the range can be overwritten while older ones stay, and
  the flag does not show it (`Queries.FlagCounterexample`).
  `Queries.QueryFindsAllIff` is the exact condition for runs with gaps.
- A ring is documented to detect from its stored cells whether it had wrapped
  (`rondo/src/ring.rs:66-74`). After a jump the slot after the cursor can be empty
  although the ring had wrapped, and a reopened ring then no longer reads the slots
  above the cursor (`Reopening.ReopenCounterexample`).
  `Reopening.ReopenIsInvisibleIff` is the exact condition, and
  `Reopening.ReopenKeepsReadsIff` that for the reads of one column.
- `query_auto` is documented to fall back to the coarsest tier
  (`rondo/src/store.rs:663-675`). The code falls back to the coarsest tier that
  has data, and to tier 0 when none has: the two agree exactly when the coarsest
  tier has data or is the only one (`Queries.FallbackIsCoarsestIff`,
  `Queries.FallbackCounterexample`).
- `docs/storage-format.md` gives consolidation cursors keys of two parts; the
  code uses three: schema, source tier and destination tier.
- `docs/storage-format.md` says the write cursor advances monotonically; it is
  the slot of the last write, whichever that is (`RingRuns.CursorIsLastWrite`).
- Consolidation is documented to aggregate each window's points. A window that is
  split across passes keeps the aggregate of the last pass only
  (`SplitWindows.SplitWindowCounterexample`). `IncrementalRuns.CellIsExactIff` says,
  for every function and every schedule of one tier pair over a source with one batch
  per bucket, when that is still right: always for `Last`, never for `Count`, and for
  the others when the discarded values add nothing. With a third tier even `Last` can
  go stale: a window of the middle tier that is rewritten after the second pair's
  cursor has passed it is not read again (`StaleTiers.StaleLastCounterexample`).
  `ThreeTiers.ThreeTiersEqualOne` says when three tiers are as good as one
  downsampling.
- A drain is documented to advance its cursor to the newest timestamp found
  (`rondo/src/export.rs:168`). The code takes the timestamp of the last point read,
  which is not the newest when a write came late. The samples after it are then
  drained again, so that two successful pushes with their cursors saved, and no
  restart, deliver a sample twice (`Redelivery.LateRedeliveryCounterexample`).
- Export is documented as at-most-once (`docs/BENCHMARK_PLAN.md:85`). The late write
  above breaks it, and so does a restart between a push and the save of its cursor
  (`Redelivery.RedeliveryCounterexample`). `Delivery.AtMostOnceIff` is the condition
  over any run: accepted writes at any times, pushes with any outcome and restarts at
  any point. `Delivery.RestartRepeatsIff` says what a restart in any reachable state
  does to the next push. It is at most once when every write suits the exported
  columns and every restart finds the cursor saved
  (`SavedDelivery.DeliveryIsAtMostOnce`). A failed push loses its points while the
  process runs, because the cursor in memory has moved on
  (`DeliveryRuns.PassedIsNeverDelivered`, `DeliveryRuns.DeliveredInFullIff`); a
  restart before the next save drains them again (`Redelivery.LossCounterexample`).
- `process_queue` is documented to signal completion
  (`rondo-demo-vmm/src/devices/block.rs:453-456`). It does so exactly when one of the
  waiting requests is well-formed (`BlockQueue.SignalsIffWellFormed`,
  `BlockQueue.UnsignalledCompletion`).
- The used length is documented as the bytes written into device-writable buffers
  (`rondo-demo-vmm/src/devices/block.rs:527-531`). It also counts what does not fit
  into guest memory, of a buffer or of the status byte
  (`Requests.UsedLengthIsStored`, `Requests.StatusOutsideOverreports`).

## Model

| member | source | states |
|---|---|---|
| RingBuffers.RingBuffer.New | rondo/src/ring.rs:63-77 | takes over a slab's cells and derives the wrap flag from them alone |
| RingBuffers.RingBuffer.Write | rondo/src/ring.rs:141-177 | rejects exactly infinities and timestamp 0, and then changes nothing; otherwise timestamp, value, cursor and wrap flag are those of the model's write |
| RingBuffers.RingBuffer.WriteBatch | rondo/src/ring.rs:208-250 | all entries of a batch under one timestamp, or none; the last entry of a column wins |
| RingBuffers.RingBuffer.Read | rondo/src/ring.rs:283-293 | fails exactly for an empty range; otherwise an iterator over the model's read |
| RingBuffers.RingBuffer.OldestTimestamp | rondo/src/ring.rs:302-332 | the first written slot in visiting order |
| RingBuffers.RingBuffer.NewestTimestamp | rondo/src/ring.rs:339-351 | the timestamp at the cursor |
| RingBuffers.RingIterator.Next | rondo/src/ring.rs:451-470 | yields the head of what remains to be read and leaves its tail |
| RingRuns.CursorIsLastWrite | rondo/src/ring.rs:158-174 | the cursor guard always passes: the cursor is the slot of the last write |
| RingRuns.SlotHoldsLastWrite | rondo/src/ring.rs:141-177 | after any run a slot's timestamp is that of the last batch that mapped to it |
| RingRuns.CellHoldsLastWrite | rondo/src/ring.rs:141-177 | after any run a cell's value is the last one written to that slot and column |
| RingRuns.RunKeepsConsistent | rondo/src/ring.rs:141-177 | the invariant of every reachable ring: without a wrap no written slot lies above the cursor, and timestamps sit in their own slots |
| RingRuns.ScanFindsQualifying | rondo/src/ring.rs:451-470 | a scan from any slot returns a slot exactly when it visits it and the slot is in range and not NaN |
| RingRuns.ReadIsComplete | rondo/src/ring.rs:414-470 | in every reachable ring a read returns each in-range cell that is not NaN exactly once and never an unwritten slot |
| RingRuns.ReadReturnsLastWrites | rondo/src/ring.rs:141-177 | over any run, in any time order, a read shows exactly the pairs of a slot's last timestamp and the value last stored there for the column |
| RecordedReads.WriteKeepsRecordedIff | rondo/src/ring.rs:208-250 | for nondecreasing timestamps: if all reads of a column showed only recorded samples so far, they still do after a batch exactly when it has an entry for the column, or the slot holds no value of it, or holds this very timestamp |
| RecordedReads.RecordedThroughoutIff | rondo/src/ring.rs:208-250 | the same for whole runs: reads show only recorded samples after every write exactly when no write fails that guard |
| RecordedReads.ReadsAreRecordedIff | rondo/src/ring.rs:141-177 | for timestamps in any order: every point of a read was recorded as such exactly when each value shown was stored at its slot's time, or had been recorded at that time before |
| RecordedReads.OrderedReadsAreRecordedIff | rondo/src/ring.rs:208-250 | for nondecreasing timestamps: exactly when each value shown was stored at its slot's time |
| RecordedReads.FullColumnIsRecorded | rondo/src/ring.rs:208-250 | a column that every batch writes is read as recorded |
| RecordedReads.MixedSample | rondo/src/ring.rs:237-242 | two batches after which a read shows a sample nobody recorded |
| RingOrder.WriteKeepsOrderIff | rondo/src/ring.rs:141-177 | whatever its time, a write keeps a chronological ring so exactly when it neither jumps over data nor comes late |
| RingOrder.NotBeforeIsNotLate | rondo/src/ring.rs:141-177 | in a chronological ring a write that is not before the newest timestamp cannot come late |
| RingOrder.OrderedThroughoutIff | rondo/src/ring.rs:141-177 | the same for whole runs, with timestamps in any order |
| ColumnOrder.WriteKeepsColumnIff | rondo/src/ring.rs:141-177 | whatever its time and entries, a write keeps a column in time order exactly when it does not move the cursor in between two of its samples and puts no sample of it behind a newer one |
| ColumnOrder.ReadIncreasesIffOrdered | rondo/src/ring.rs:414-470 | in every reachable ring a whole read of a column comes in time order exactly when the slots that hold a value of it are in order |
| ColumnOrder.ColumnReadsChronologicalIff | rondo/src/ring.rs:252-293 | for any run, in any time order, and any column: the documented order of reads holds after every write exactly when every write meets that condition for the column |
| ColumnOrder.ReadsChronologicalIff | rondo/src/ring.rs:252-293 | for a column every batch writes this is the condition on the ring: no write jumps over data and none comes late |
| ColumnOrder.LateForTheRingOnly | rondo-demo-vmm/src/metrics.rs:190-195 | two series recorded one sample a call: the second comes late for the ring, and both columns still read in order |
| MergedLogs.MergedRun | rondo-demo-vmm/src/metrics.rs:190-195 | recording several series one sample a call at one timestamp leaves the ring that one batch leaves |
| RingOrder.ChronologyCounterexample | rondo/src/ring.rs:252-255 | three writes, one of which jumps over data, whose read is out of order |
| RingOrder.LateWriteCounterexample | rondo/src/ring.rs:252-255 | two writes, one of which comes late, whose read is out of order |
| BoundedLog.GapFreeRunSimulates | rondo/src/ring.rs:141-177 | after any gap-free run the ring holds the rows of a bounded log of the newest buckets |
| BoundedLog.GapFreeRunIsBoundedLog | rondo/src/ring.rs:414-470 | every read of a ring after a gap-free run is the bounded log's rows in the range, in strictly increasing time order |
| BoundedLog.GapFreeBounds | rondo/src/ring.rs:302-351 | oldest and newest are the log's smallest and largest retained timestamps |
| SteadyRuns.ReplayIsTail | rondo/src/ring.rs:141-177 | with one batch per bucket the bounded log is the newest slot_count batches |
| SteadyRuns.SteadyRead | rondo/src/ring.rs:414-470 | with one batch per bucket a read returns what the newest slot_count batches carry in the range |
| SteadyRuns.SteadyBounds | rondo/src/ring.rs:302-351 | oldest and newest are the times of the first retained and the last batch |
| Reopening.ReopenIsInvisibleIff | rondo/src/ring.rs:63-77 | a reopened reachable ring gives the same reads, oldest and newest timestamp exactly when no data lies above the cursor or the slot after it is written |
| Reopening.ReopenKeepsReadsIff | rondo/src/ring.rs:63-77 | for one column: it gives the same reads exactly when that holds or no value of the column lies above the cursor |
| Reopening.ReopenCounterexample | rondo/src/ring.rs:66-74 | two writes after which a reopen hides the first sample |
| Reopening.ReopenStaysInvisible | rondo/src/ring.rs:63-77 | no later run of writes brings out a difference |
| Reopening.GapFreeReopensFaithfully | rondo/src/ring.rs:63-77 | gap-free rings that never wrapped or are full reopen invisibly |
| Schemas.ApplyIsFinite | rondo/src/schema.rs:384-407 | an aggregate is never infinite and NaN only without a finite input |
| Schemas.FoldMinIsMinimum | rondo/src/schema.rs:384-407 | Min is a lower bound that occurs |
| Schemas.FoldMaxIsMaximum | rondo/src/schema.rs:384-407 | Max is an upper bound that occurs |
| Schemas.ApplyGrows | rondo/src/schema.rs:384-407 | what one more value does to each aggregate: what is not finite is passed over, a sum grows by the value, a count by one, and so on |
| Schemas.ApplyStarts | rondo/src/schema.rs:384-407 | nothing aggregates to NaN, and the average times the count is the sum |
| Schemas.ValidSchemaIff | rondo/src/schema.rs:123-160 | a schema is valid exactly when it has room and tiers, every tier is valid, each later tier is coarser, and the finest has no function |
| Schemas.TiersAreOrdered | rondo/src/schema.rs:142-149 | the tiers of a validated schema get strictly coarser |
| Schemas.ValidTierIff | rondo/src/schema.rs:259-320 | below 2^64 nanoseconds a tier is valid exactly when its retention has at least one interval and at most a billion |
| Schemas.SlotsFillRetention | rondo/src/schema.rs:309-320 | as many slots as whole intervals fit in the retention, and no more |
| Schemas.ValidTierHasSlotsIff | rondo/src/schema.rs:259-320 | a validated tier has a slot exactly when its interval, truncated to 64 bits of nanoseconds, is not zero and not longer than its truncated retention; the count fits 32 bits |
| Schemas.ValidTierHasSlots | rondo/src/schema.rs:259-320 | so it has one when its retention is below 2^64 nanoseconds |
| Schemas.HugeTierHasNoSlots | rondo/src/schema.rs:259-320 | a validated tier of 2^64 nanoseconds has no slot |
| Schemas.MatchesIff | rondo/src/schema.rs:495-509 | a matcher accepts exactly the labels that give each of its keys its value last |
| Schemas.MatchesIffContains | rondo/src/schema.rs:495-509 | with distinct label keys: exactly the labels that contain its pairs |
| Downsampling.TwoStagesEqualOne | rondo/src/consolidate.rs:475-498 | for Min, Max, Sum and Last, downsampling to a width and then to a multiple equals downsampling directly |
| Downsampling.AverageAndCountNeedOneStage | rondo/src/schema.rs:384-407 | three points for which Average and Count differ between one stage and two |
| Passes.OrderDoesNotMatter | rondo/src/consolidate.rs:488-499 | for every order of the windows, timestamps and values of the destination are the same when slots are distinct |
| Passes.OrderDoesNotShowInReads | rondo/src/consolidate.rs:488-499 | so every read returns the same points |
| Passes.OrderShowsInNewest | rondo/src/consolidate.rs:488-499 | the destination's newest timestamp is the window written last, whichever that was |
| Parts.LatestIsRightIff | rondo/src/consolidate.rs:489-498 | for every function, overwriting a window part by part leaves the right value exactly when what was discarded adds nothing |
| Parts.PositiveSumKeepsAllIffUnsplit | rondo/src/consolidate.rs:489-498 | for sums of positive values: exactly when the window was not split |
| Incremental.PassSeesNewPoints | rondo/src/consolidate.rs:364-407 | a pass reads exactly the points written since the pass before it |
| IncrementalRuns.ReachableInv | rondo/src/consolidate.rs:327-502 | every interleaving of writes and passes: each destination cell is the aggregate of the last pass that saw points of its window |
| IncrementalRuns.IncrementalEqualsOneShot | rondo/src/consolidate.rs:327-502 | one tier pair, with unsplit windows: the destination is the one-shot downsampling of the whole log |
| IncrementalRuns.LastIsScheduleIndependent | rondo/src/consolidate.rs:366-502 | for Last, so it is under every schedule |
| IncrementalRuns.CellIsExactIff | rondo/src/consolidate.rs:327-502 | one tier pair, every function, every reachable state: a cell is right exactly when the values of all passes but the last to see its window add nothing |
| IncrementalRuns.CountIsExactIffUnsplit | rondo/src/consolidate.rs:366-502 | for Count: exactly when its window was not split |
| IncrementalRuns.PositiveSumIsExactIffUnsplit | rondo/src/consolidate.rs:366-502 | for sums of positive values: likewise |
| SplitWindows.SplitWindowCounterexample | rondo/src/consolidate.rs:366-502 | two records and two passes after which a cell counts 1 of 2 |
| IncrementalRuns.CutsBetweenWindowsNeverSplit | rondo/src/consolidate.rs:366-376 | passes that run between windows split none |
| PassSummaries.PassSummarizes | rondo/src/consolidate.rs:459-502 | a pass that visits its windows in ascending order leaves the next tier one summary for each window from the first new batch's to the last one's, with every recorded series' aggregate |
| ThreeTiers.ReachableChainInv | rondo/src/consolidate.rs:280-312 | over every run of writes and cascades that fall between middle windows, what the second pair was given is the complete summary of what the first was given |
| ThreeTiers.ThreeTiersEqualOne | rondo/src/consolidate.rs:280-312 | for Min, Max, Sum and Last the third tier then holds the one-shot downsampling of everything recorded; for Last its windows may be split across cascades |
| ThreeTiers.ChainIsCascade | rondo/src/consolidate.rs:280-312 | a cascade of this chain is the two passes that the store's cascade makes for the schema |
| StaleTiers.StaleLastCounterexample | rondo/src/consolidate.rs:364-376 | two samples and two cascades after which the third tier's Last is the first sample |
| Cascades.WritingPassAdvances | rondo/src/consolidate.rs:364-407 | a pass that writes moves its cursor strictly forward |
| Cascades.CursorNeverGoesBack | rondo/src/consolidate.rs:364-407 | over any history of passes a cursor never goes back |
| Cascades.NoTimestampReadTwice | rondo/src/consolidate.rs:364-407 | timestamps read by two writing passes are disjoint and ordered |
| CascadePasses.PairPassMeans | rondo/src/consolidate.rs:327-502 | one pass in the schema's terms: from one source interval after the cursor to the newest sample, the destination tier's function over windows of its interval; every other cell, ring and cursor stays |
| CascadePasses.EveryPairOnce | rondo/src/consolidate.rs:280-312 | a complete cascade passes each two adjacent tiers of each schema, and none twice |
| CascadePasses.CascadeLeavesNothingNew | rondo/src/consolidate.rs:280-312 | after a successful cascade no pair of tiers has a value after its cursor |
| Cascades.CascadeIsIdempotent | rondo/src/consolidate.rs:280-312 | a cascade right after a successful cascade meets no error, performs no operation and changes no ring or cursor |
| Engines.CollectWindows | rondo/src/consolidate.rs:459-487 | groups the points of a pass by window and column, in time order |
| Engines.WriteWindows | rondo/src/consolidate.rs:488-499 | writes one aggregate per cell, in some order of the cells, and counts them |
| Consolidation.ConsolidationEngine.GetOrInitializeCursor | rondo/src/consolidate.rs:413-438 | the cursor of a pair, set to 0 when new |
| Consolidation.ConsolidationEngine.ConsolidateTierPair | rondo/src/consolidate.rs:327-409 | one pass: the whole new state of rings and cursors; it fails exactly when the pair has no function or meets the window at 0, and then no other ring differs |
| Consolidation.ConsolidationEngine.Consolidate | rondo/src/consolidate.rs:280-312 | passes every pair once, finer tiers first; it fails exactly when it stops at a blocked pair; it saves the cursors only on success |
| Exports.DrainSeries | rondo/src/export.rs:169-208 | returns what the ring holds after the cursor and moves the cursor to the last point |
| Exports.DrainTier | rondo/src/export.rs:214-238 | drains each handle of the schema once, in order, leaving out the empty ones |
| TierDrains.DrainSchemasMeans | rondo/src/store.rs:844-875 | a drain of any tier: each handle whose schema has the tier gets what the tier's ring has after its own cursor, its cursor moves to the last of these points, and no other moves |
| ExportRuns.ExportIsExactlyOnce | rondo/src/export.rs:169-208 | over any interleaving of writes and drains the output is strictly increasing and omits exactly what was overwritten before a drain |
| ExportRuns.TimelyExportIsComplete | rondo/src/export.rs:169-208 | with a drain every slot_count batches the output is the whole log |
| ExportRuns.ExportConserves | rondo/src/export.rs:169-208 | exported and overwritten points add up to the points written |
| DrainReads.DrainShowsDue | rondo/src/export.rs:169-208 | in any ring that writes and reopens can produce: a drain returns a sample exactly when a slot that reads visit holds it, it lies after the cursor (from the oldest timestamp on if there is none) and it is not after the newest write |
| DrainReads.DrainReturnsDue | rondo/src/export.rs:169-208 | the same with values: each as it stands in its slot |
| DrainReads.DrainTimesDiffer | rondo/src/export.rs:169-208 | one drain never returns two samples of one timestamp |
| DrainReads.DrainShowsIff | rondo/src/export.rs:169-208 | for a chronological ring that is: what it holds after the cursor |
| Delivery.DrainedIffDue | rondo-demo-vmm/src/vcpu.rs:482-487 | a tick drains, over all schemas and series, exactly the samples that are due, in any state whose rings writes and reopens can produce |
| Delivery.PushRepeatsIff | rondo-demo-vmm/src/vcpu.rs:478-515 | in any such state, a push leaves the deliveries free of duplicates exactly when they were and none of them is due |
| Delivery.AtMostOnceIff | rondo-demo-vmm/src/vcpu.rs:478-515 | over any run of accepted writes, pushes and restarts: nothing is delivered twice exactly when no push finds a delivered sample due |
| SavedDelivery.DeliveryIsAtMostOnce | rondo-demo-vmm/src/vcpu.rs:478-515 | nothing is delivered twice in runs whose writes suit the exported columns and that restart only with nothing unsaved |
| Delivery.RestartRepeatsIff | rondo-demo-vmm/src/vcpu.rs:505-509 | a restart in any reachable state: the next push delivers nothing twice exactly when nothing was before and no delivery lies where the reopened ring still reads it, after the saved cursor |
| SavedDelivery.OnlyUnsavedRepeats | rondo-demo-vmm/src/vcpu.rs:505-509 | the first restart with something unsaved, in a run whose writes suit the exported columns: only deliveries since the last save can come back |
| Redelivery.RedeliveryCounterexample | rondo-demo-vmm/src/vcpu.rs:505-509 | one sample, pushed, not saved, restarted and pushed again |
| Redelivery.LateRedeliveryCounterexample | rondo/src/export.rs:199-202 | four writes, one of them late, and two successful pushes with saved cursors that deliver one sample twice |
| DeliveryRuns.RunAgrees | rondo-demo-vmm/src/vcpu.rs:478-515 | without restarts, deliveries and losses of a series together hold each timestamp as often as the drains of that series, and without losses the deliveries are its drains in order |
| DeliveryRuns.PassedIsNeverDelivered | rondo-demo-vmm/src/vcpu.rs:478-515 | a sample that the cursor has passed undelivered, because its push failed or it came late, is not delivered by any later run without a restart |
| DeliveryRuns.DeliveredInFullIff | rondo-demo-vmm/src/vcpu.rs:478-515 | with timely ticks and no restart every series is delivered in full, up to the last tick, exactly when no tick that drained something failed to push it |
| Redelivery.LossCounterexample | rondo-demo-vmm/src/vcpu.rs:510-513 | one sample whose push fails: no later run delivers it without a restart, and a restart before a save does |
| Delivery.DrainStoreIsTierZero | rondo/src/store.rs:844-875 | the loop's drain is the store's drain of tier 0 |
| Queries.CompleteFlagIsSound | rondo/src/query.rs:231-254 | after a run with one batch per bucket, a query that reports no possible loss returns every point ever written in its range |
| Queries.QueryIsCompleteIff | rondo/src/store.rs:613-660 | after such a run, a query is complete exactly when no overwritten batch carries a point in its range |
| Queries.SteadyCoverage | rondo/src/query.rs:231-254 | after a run with one batch per bucket a tier covers a range exactly when its first retained batch is not after the start and its last not before the end; the flag stays down exactly when there is a batch and the first retained one is not after the start |
| Queries.QueryFindsAllIff | rondo/src/store.rs:613-660 | after any run of nondecreasing timestamps, gaps or not, a query returns the last sample of every timestamp in its range exactly when no later batch of another timestamp landed in the slot of any of them |
| Queries.FlagCounterexample | rondo/src/query.rs:231-254 | three samples in time order after which one in the range is gone and the flag reports nothing missing |
| Queries.BestTierMeans | rondo/src/store.rs:713-763 | the finest tier whose oldest and newest timestamps span the range if there is one, and then no flag; else the coarsest tier with data if there is one, else tier 0 |
| Queries.SteadyBestTier | rondo/src/store.rs:713-763 | the same in terms of what was recorded in each tier |
| Queries.FallbackIsCoarsestIff | rondo/src/store.rs:663-675 | the documented fallback to the coarsest tier holds exactly when that tier has data or is the only one |
| Queries.FallbackCounterexample | rondo/src/store.rs:663-675 | two tiers for which it does not |
| Queries.BestTierIsUnique | rondo/src/store.rs:713-763 | the choice is determined |
| Stores.Store.Record | rondo/src/store.rs:467-470 | writes the handle's column of its finest ring and nothing else |
| Stores.Store.RecordBatch | rondo/src/store.rs:500-521 | by entry: on success the last entry of each column stands in the slot of the time in its schema's finest ring, and every other cell of every ring is kept; on failure some schemas have all their entries and the others none |
| Stores.Store.Query | rondo/src/store.rs:613-660 | the read of one tier with its coverage flag, and when it fails |
| Stores.Store.QueryAuto | rondo/src/store.rs:713-763 | the read of the best tier with its coverage flag |
| Stores.Store.Drain | rondo/src/store.rs:844-875 | drains one tier of every schema that has it |
| Stores.Store.Consolidate | rondo/src/store.rs:800-806 | a cascade over the store's rings; it fails exactly when it stops at a blocked pair |
| Stores.ConsolidateTwice | rondo/src/store.rs:800-806 | on the objects: after a successful consolidation a second one succeeds, returns 0 and changes nothing |
| Isolation.BatchIsolatesSeries | rondo/src/store.rs:500-521 | in a registry that keeps its invariant, a batch for any series leaves every value cell of every other series alone, in every tier, also when it fails half way |
| Isolation.RecordIsolatesSeries | rondo/src/store.rs:467-470 | the same for one sample |
| Labels.SameSortedIff | rondo/src/series.rs:180-187 | two label lists make the same key exactly when each label key has the same values in the same order |
| Labels.SameSortedIffReordered | rondo/src/series.rs:180-187 | with distinct keys: exactly when they agree up to reordering |
| Registry.RegisterKeepsInvariant | rondo/src/series.rs:276-317 | the columns of each schema are exactly those below its counter, within max_series, one per series |
| Registry.HandlesAreStable | rondo/src/series.rs:276-317 | no later registration changes a handle |
| Registry.SharedHandleIff | rondo/src/series.rs:276-317 | in any run of registrations two that succeed are answered the same handle exactly when name and labels agree |
| Registry.SeriesHaveOwnColumns | rondo/src/series.rs:276-317 | different series differ in schema or column |
| Registry.LoadRestores | rondo/src/series.rs:436-509 | saving in any map order and loading restores the registry |
| Registry.RegisterAnswers | rondo/src/series.rs:276-317 | what a caller is told: the handle under which the registry then holds the series; a known series changes nothing and, if valid, never fails; a new one takes the next column of the first schema that accepts it, if there is room |
| Registry.SeriesRegistry.Register | rondo/src/series.rs:276-317 | the whole new registry and the answer, of which RegisterAnswers speaks |
| Registry.SeriesRegistry.GetHandle | rondo/src/series.rs:342-345 | the handle of a registered series |
| Registry.SeriesRegistry.SeriesInfoOf | rondo/src/series.rs:356-361 | the series of a handle |
| Registry.SeriesRegistry.Save | rondo/src/series.rs:436-452 | lists every series once, and loading the list gives the registry back |
| Registry.LoadedMeans | rondo/src/series.rs:473-509 | any index, also one that lists a series twice: its counters, the last entry of each series and no other |
| Registry.Load | rondo/src/series.rs:473-509 | rebuilds a registry from a saved list, and fails exactly for a wrong number of schemas |
| SlabLayouts.CellsAreDisjoint | rondo/src/slab.rs:139-172 | no two header fields, directory entries, timestamps or values share a byte |
| SlabLayouts.CellsTileTheFile | rondo/src/slab.rs:139-172 | every byte from 64 to the end of the file lies in exactly one cell |
| SlabLayouts.DocumentedPositions | docs/storage-format.md:27-84 | each field, entry, timestamp and value stands where the documented format has it |
| SlabLayouts.DocumentedSize | docs/storage-format.md:86-90 | 600 slots of 30 series take 148,984 bytes |
| SlabLayouts.LayoutFits64Bits | rondo/src/slab.rs:139-172 | within a validated schema's limits no offset overflows 64 bits |
| Slabs.PutChangesOneCell | rondo/src/slab.rs:485-666 | a writer changes what its own reader sees and what no other reader sees |
| Slabs.Slab.WriteTimestamp | rondo/src/slab.rs:532-541 | the one cell it changes |
| Slabs.Slab.WriteValue | rondo/src/slab.rs:579-590 | the one cell it changes |
| Slabs.Slab.GetSeriesColumn | rondo/src/slab.rs:626-645 | the directory entry, or none for the free mark |
| Slabs.Create | rondo/src/slab.rs:239-312 | a new file: header, empty directory, zero timestamps, NaN values |
| Slabs.InitialContents | rondo/src/slab.rs:239-312 | that contents in numbers: the letters RNDO, version 1, the marks for a free entry and for no value |
| Slabs.Open | rondo/src/slab.rs:338-403 | accepts exactly the files with a valid header and the right size, and changes nothing |
| Slabs.Reopen | rondo/src/slab.rs:338-403 | a slab with its header kept opens with the same layout and the same view of every cell |
| SlabRuns.CreateSetReopen | rondo/src/slab.rs:239-403 | create, any run of setters, open: every reader sees the last word set in its cell |
| SlabRings.SlabRing.constructor | rondo/src/ring.rs:63-77 | over the bytes of a slab: the wrap flag is that of a reopened ring |
| SlabRings.SlabRing.Write | rondo/src/ring.rs:141-177 | over the bytes of a slab: what the setters leave spells the ring after the write |
| SlabRings.SlabRing.WriteBatch | rondo/src/ring.rs:208-250 | the same for a batch |
| SlabRings.SlabRing.Read | rondo/src/ring.rs:283-293 | over the bytes of a slab: fails exactly for an empty range, and else iterates over the ring's read |
| SlabRings.SlabIterator.Next | rondo/src/ring.rs:451-470 | over the bytes of a slab: yields the head of what remains to be read and leaves its tail |
| SlabRings.SlabRing.OldestTimestamp | rondo/src/ring.rs:302-332 | over the bytes of a slab: the first written slot in visiting order |
| SlabRings.SlabRing.NewestTimestamp | rondo/src/ring.rs:339-351 | over the bytes of a slab: the timestamp at the cursor |
| SlabRings.CreateRing | rondo/src/slab.rs:239-312 | the bytes of a new slab spell the blank ring |
| Virtqueue.ChainEndsWithinQueue | rondo-demo-vmm/src/devices/block.rs:559-570 | a descriptor walk that ends at all ends within num steps |
| Virtqueue.LongWalkNeverEnds | rondo-demo-vmm/src/devices/block.rs:559-570 | a walk of more than num steps goes on forever |
| BlockIo.OutWritesSent | rondo-demo-vmm/src/devices/block.rs:686-730 | however it ends, an OUT request wrote in one run what it sent |
| BlockIo.OutWritesGather | rondo-demo-vmm/src/devices/block.rs:686-730 | an OUT request over any split writes exactly the concatenated buffers at its offset |
| BlockIo.OutChangesOnlyItsSectors | rondo-demo-vmm/src/devices/block.rs:686-730 | and no other byte of the file |
| BlockIo.InStaysInBuffers | rondo-demo-vmm/src/devices/block.rs:640-683 | an IN request changes no guest byte outside its writable buffers, however it ends |
| BlockIo.InFillsBuffers | rondo-demo-vmm/src/devices/block.rs:640-683 | over disjoint buffers it leaves in them exactly the file's bytes |
| BlockIo.OutThenIn | rondo-demo-vmm/src/devices/block.rs:640-730 | bytes written through one split are read back through any other |
| Requests.ProcessStaysInBuffers | rondo-demo-vmm/src/devices/block.rs:532-616 | any request, malformed or not, changes guest memory only inside its chain's writable buffers |
| Requests.InDelivers | rondo-demo-vmm/src/devices/block.rs:532-616 | an IN request fills a prefix of its buffers, stores its status and changes nothing else; it reports success exactly when it served all |
| Requests.UsedLengthIsStored | rondo-demo-vmm/src/devices/block.rs:591-604 | for requests of every type, with or without a status byte: the used length is the number of bytes stored exactly when the served buffers and the status byte lie in guest memory, as long as the 32-bit sum does not saturate, and then exactly when it does not |
| Requests.StatusOutsideOverreports | rondo-demo-vmm/src/devices/block.rs:591-596 | a request that stores nothing and reports 1 |
| Requests.WrappedCountCanAgree | rondo-demo-vmm/src/devices/block.rs:598-604 | a count that wraps and buffers that stick out can cancel |
| Requests.OutStores | rondo-demo-vmm/src/devices/block.rs:532-616 | an OUT request stores its payload at its sector; its status byte is all it writes to the guest |
| GuestRequests.DescriptorReads | rondo-demo-vmm/src/devices/block.rs:132-150 | a descriptor is read as the driver wrote it: 16 bytes for each index, address, length, flags and next |
| GuestRequests.HeaderReads | rondo-demo-vmm/src/devices/block.rs:151-161 | a header is read as the driver wrote it: type, a reserved word that does not matter, sector |
| GuestRequests.ChainReads | rondo-demo-vmm/src/devices/block.rs:559-570 | the device follows the chain as the driver linked it |
| GuestRequests.GuestWrites | rondo-demo-vmm/src/devices/block.rs:686-730 | a write of any layout: what its readable buffers carry stands in the file from byte 512 times the sector on, and status 0 is all that changes in guest memory |
| GuestRequests.GuestWriteFails | rondo-demo-vmm/src/devices/block.rs:686-730 | a write with a buffer that begins outside guest memory: what comes before it is stored, status 1 |
| GuestRequests.GuestWriteTooFar | rondo-demo-vmm/src/devices/block.rs:686-730 | a write that no file offset reaches stores nothing, status 1 |
| GuestRequests.GuestWritesUnanswered | rondo-demo-vmm/src/devices/block.rs:572-580 | without a last descriptor of one writable byte there is no status, and guest memory stays as it is |
| GuestRequests.GuestReads | rondo-demo-vmm/src/devices/block.rs:640-683 | a read that the file can answer: its buffers hold the file's bytes from byte 512 times the sector on, status 0, and nothing else changes |
| GuestRequests.GuestReadFails | rondo-demo-vmm/src/devices/block.rs:640-683 | a read past the end of the file: status 1 |
| GuestRequests.GuestReadRefused | rondo-demo-vmm/src/devices/block.rs:640-683 | a read that no file offset reaches, or with a buffer that begins outside guest memory: status 1 |
| GuestRequests.GuestFlushes | rondo-demo-vmm/src/devices/block.rs:582-590 | a flush changes nothing but its status byte, to 0 |
| GuestRequests.GuestUnsupported | rondo-demo-vmm/src/devices/block.rs:582-590 | any other type changes nothing but its status byte, to 2 |
| GuestRequests.GuestHeaderUnreadable | rondo-demo-vmm/src/devices/block.rs:541-556 | a header that is too short or cut off: nothing changes and nothing is reported |
| GuestRequests.GuestHeadUnreadable | rondo-demo-vmm/src/devices/block.rs:536-539 | nor for a head that the descriptor table does not have |
| Requests.StoredIsDelivered | rondo-demo-vmm/src/devices/block.rs:532-616 | an IN request after an OUT request at the same sector returns its payload, however either is scattered |
| QueueOrder.FirstThenAll | rondo-demo-vmm/src/devices/block.rs:495-516 | handing back the first waiting request and then the others in order hands back all in order, across the wrap of the index |
| BlockQueue.RequestStep | rondo-demo-vmm/src/devices/block.rs:476-516 | one request changes one slot of the used ring, advances its index and leaves descriptor table and available ring alone |
| BlockQueue.QueueIsFifo | rondo-demo-vmm/src/devices/block.rs:457-525 | serving ends; exactly one element per pending entry, in order, with its head, in the next slots; both indices advance by that count modulo 2^16; all else on the rings is unchanged |
| GuestQueues.GuestQueueIsFifo | rondo-demo-vmm/src/devices/block.rs:457-525 | the same in bytes: the heads a driver wrote into the available ring are carried out in its order and stand as bytes in the next elements of the used ring, each with the length its request reported; the used index has advanced by their number |
| BlockQueue.SignalsIffWellFormed | rondo-demo-vmm/src/devices/block.rs:453-525 | a notification reports a completed operation exactly when one of the waiting requests is well-formed |
| BlockQueue.UnsignalledCompletion | rondo-demo-vmm/src/devices/block.rs:453-525 | a queue of one slot whose request is handed back without a signal |
| GuestQueues.UsedIndexUnreadable | rondo-demo-vmm/src/devices/block.rs:493-514 | a used index that guest memory cuts off counts as 0 |
| VirtioBlocks.VirtioBlock.ReadSectors | rondo-demo-vmm/src/devices/block.rs:640-683 | the loop of an IN request: guest memory, status and count |
| VirtioBlocks.VirtioBlock.WriteSectors | rondo-demo-vmm/src/devices/block.rs:686-730 | the loop of an OUT request: file, status and count |
| VirtioBlocks.VirtioBlock.WalkChain | rondo-demo-vmm/src/devices/block.rs:559-570 | the descriptors after the header, for a chain that ends |
| VirtioBlocks.VirtioBlock.ProcessRequest | rondo-demo-vmm/src/devices/block.rs:532-616 | the whole effect of one request, every malformed header included |
| VirtioBlocks.VirtioBlock.ProcessQueue | rondo-demo-vmm/src/devices/block.rs:457-525 | a notification: the whole new state, what any driver that posted requests finds, the completed operations, and the interrupt, which a well-driven queue gets exactly when not all waiting requests are malformed |

## Left out

- Floating point: values are reals, so rounding and overflow of Sum and Average are not modelled, and no claim is made about the order of additions.
- Timestamps near 2^64: adding 1 or an interval does not wrap.
- The encoding of a value as IEEE 754 bits: SlabRings takes any encoding that decodes to what it encodes. RingBuffers keeps the same ring in arrays of decoded values, and the store is built on that.
- Slabs.Create: words are little-endian, as on the hosts the program supports; native byte order elsewhere is not modelled.
- Files, memory mapping, JSON and sync: saved cursors and indices are values; only success or failure of a save is visible.
- A crash in the middle of a write or of a consolidation pass.
- Consolidation.ConsolidationEngine.Consolidate: which pair a cascade stops at can depend on the hash order of the windows before it, so its error condition speaks of the passes that were made. The destination of the failing pair may hold some of its windows.
- IncrementalRuns.IncrementalEqualsOneShot: like the other theorems of IncrementalRuns it is about sources with one batch per bucket and no gaps, and destinations that are not lapped.
- ThreeTiers.ThreeTiersEqualOne: it asks that the first pass visits its windows in ascending order. The code visits them in hash order, on which the middle tier's newest timestamp depends (Passes.OrderShowsInNewest), and with it what the second pass reads. More than three tiers are not stated.
- Delivery.AtMostOnceIff: restarts happen between ticks, and every handle names a series of its own, as the registry sees to (Registry.SeriesHaveOwnColumns).
- VirtioBlocks.VirtioBlock.WalkChain: requires a chain that ends; on a looping chain the device does not return (Virtqueue.LongWalkNeverEnds).
- VirtioBlocks.VirtioBlock.ProcessQueue: requires the same of every chain it meets; QueueIsFifo derives it for a well-driven queue.
- Flush always succeeds, and so do seeks below 2^63 and writes to the backing file.
- The multiplication of the sector number wraps as in a release build; a debug build stops instead.
- Virtio feature, status and selector registers, configuration space and the dispatch of register accesses: single branches.
- Zero-slot tiers: a ring has at least one slot (Schemas.HugeTierHasNoSlots shows when validation lets one through).
- Schema and layout hashes: opaque library hashing.
- The copy of columns into the slab directory on registration: reads and writes use the handle's column.
- Remote-write encoding and HTTP, KVM set-up, the vCPU loop, metrics, the command line, dashboards.
- Handles and columns out of range: the store and the slab leave them to the caller, and so do the requires clauses.
- Error payloads and messages: only which calls fail and what they leave unchanged.
