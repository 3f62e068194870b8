/**
 The ring buffer and its iterator as objects over fixed-size arrays. Each method
 is proved to do what `RingModel` says the operation does to the ring's value.
 */
module RingBuffers {
  import opened Wrappers
  import opened Floats
  import opened RingModel
  import opened RingRuns
  import Cyclic

  class RingBuffer {
    const interval: nat
    const ts: array<nat>
    const vals: array2<Float>
    var cursor: nat
    var hasWrapped: bool

    /** The objects this ring is made of. */
    ghost function Repr(): set<object> {
      {this, ts, vals}
    }

    ghost predicate Valid()
      reads this
    {
      interval > 0 && cursor < ts.Length && vals.Length1 == ts.Length
    }

    ghost function Column(c: nat): (row: seq<Float>)
      requires c < vals.Length0
      reads vals
    {
      seq(vals.Length1, s requires 0 <= s < vals.Length1 reads vals => vals[c, s])
    }

    /** The value of this ring. */
    ghost function State(): (r: Ring)
      requires Valid()
      reads this, ts, vals
      ensures r.Shaped() && |r.ts| == ts.Length && |r.vals| == vals.Length0
    {
      Ring(interval, ts[..], seq(vals.Length0, c requires 0 <= c < vals.Length0 reads vals => Column(c)),
           cursor, hasWrapped)
    }

    /** Takes over the cells of a slab; the wrap flag is worked out from them. */
    constructor New(interval: nat, ts: array<nat>, vals: array2<Float>, cursor: nat)
      requires interval > 0 && cursor < ts.Length && vals.Length1 == ts.Length
      ensures Valid() && this.ts == ts && this.vals == vals
      ensures this.interval == interval && this.cursor == cursor
      ensures State() == State().Reopened()
    {
      this.interval := interval;
      this.ts := ts;
      this.vals := vals;
      this.cursor := cursor;
      hasWrapped :=
        if cursor == 0 then ts.Length > 1 && ts[1] != 0 else ts[(cursor + 1) % ts.Length] != 0;
    }

    method ComputeSlot(time: nat) returns (slot: nat)
      requires Valid()
      ensures slot == State().SlotOf(time)
    {
      slot := (time / interval) % ts.Length;
    }

    method Write(column: nat, value: Float, time: nat) returns (r: Result<()>)
      requires Valid() && column < vals.Length0
      modifies this, ts, vals
      ensures Valid()
      ensures r.Ok? <==> !value.IsInfinite() && time != 0
      ensures State() == if r.Ok? then old(State()).Write(Batch(time, [(column, value)])) else old(State())
    {
      if value.IsInfinite() {
        return Err;
      }
      if time == 0 {
        return Err;
      }
      ghost var before := State();
      var slot := ComputeSlot(time);
      var currentCursor := cursor;
      if slot < currentCursor && !hasWrapped {
        hasWrapped := true;
      }
      ts[slot] := time;
      vals[column, slot] := value;
      if hasWrapped || slot >= currentCursor {
        cursor := slot;
      }
      ghost var entries := [(column, value)];
      assert entries[..0] == [];
      forall c | 0 <= c < vals.Length0
        ensures Column(c) == StoreAt(before.vals[c], slot, Lookup(entries, c))
      {
      }
      assert State().vals == before.Write(Batch(time, entries)).vals;
      return Ok(());
    }

    method WriteBatch(entries: seq<(nat, Float)>, time: nat) returns (r: Result<()>)
      requires Valid() && InColumns(entries, vals.Length0)
      modifies this, ts, vals
      ensures Valid()
      ensures r.Ok? <==> Acceptable(Batch(time, entries))
      ensures State() == if r.Ok? then old(State()).Write(Batch(time, entries)) else old(State())
    {
      if time == 0 {
        return Err;
      }
      for i := 0 to |entries|
        invariant State() == old(State())
        invariant forall j | 0 <= j < i :: !entries[j].1.IsInfinite()
      {
        if entries[i].1.IsInfinite() {
          return Err;
        }
      }
      ghost var before := State();
      var slot := ComputeSlot(time);
      var currentCursor := cursor;
      if slot < currentCursor && !hasWrapped {
        hasWrapped := true;
      }
      ts[slot] := time;
      StoreEntries(entries, slot);
      if hasWrapped || slot >= currentCursor {
        cursor := slot;
      }
      assert State().vals == before.Write(Batch(time, entries)).vals;
      return Ok(());
    }

    /** The loop of a batch write: every entry goes into the same slot, later entries last. */
    method StoreEntries(entries: seq<(nat, Float)>, slot: nat)
      requires Valid() && InColumns(entries, vals.Length0) && slot < ts.Length
      modifies vals
      ensures forall c | 0 <= c < vals.Length0 ::
                Column(c) == StoreAt(old(Column(c)), slot, Lookup(entries, c))
    {
      for i := 0 to |entries|
        invariant forall c, s | 0 <= c < vals.Length0 && 0 <= s < ts.Length ::
          vals[c, s] == if s == slot && Lookup(entries[..i], c).Some?
                        then Lookup(entries[..i], c).value else old(vals[c, s])
      {
        var (column, value) := entries[i];
        vals[column, slot] := value;
        assert entries[..i + 1][..i] == entries[..i];
      }
      assert entries[..|entries|] == entries;
    }

    method IsEmpty() returns (empty: bool)
      requires Valid()
      ensures empty == State().IsEmpty()
    {
      empty := ts[cursor] == 0;
    }

    method NewestTimestamp() returns (t: Option<nat>)
      requires Valid()
      ensures t == State().Newest()
    {
      var empty := IsEmpty();
      if empty {
        return None;
      }
      var timestamp := ts[cursor];
      if timestamp != 0 {
        return Some(timestamp);
      } else {
        return None;
      }
    }

    method OldestTimestamp() returns (t: Option<nat>)
      requires Valid()
      ensures t == State().Oldest()
    {
      var empty := IsEmpty();
      if empty {
        return None;
      }
      var slotCount := ts.Length;
      if hasWrapped {
        for offset := 1 to slotCount + 1
          invariant State().Oldest() == State().FirstUsed((cursor + offset) % slotCount, slotCount + 1 - offset)
        {
          var slot := (cursor + offset) % slotCount;
          var timestamp := ts[slot];
          if timestamp != 0 {
            return Some(timestamp);
          }
          Cyclic.ModSuccessor(cursor + offset, slotCount);
          NextSlot(slot, slotCount);
        }
        return None;
      } else {
        for slot := 0 to slotCount
          invariant State().Oldest() ==
                    State().FirstUsed(if slot == slotCount then 0 else slot, slotCount - slot)
        {
          var timestamp := ts[slot];
          if timestamp != 0 {
            return Some(timestamp);
          }
          NextSlot(slot, slotCount);
        }
        return None;
      }
    }

    method Read(column: nat, start: nat, end: nat) returns (r: Result<RingIterator>)
      requires Valid() && column < vals.Length0
      ensures r.Ok? <==> start < end
      ensures r.Ok? ==> fresh(r.value) && r.value.Valid() && r.value.ring == this
      ensures r.Ok? ==> r.value.Remaining() == State().Read(column, start, end)
    {
      if start >= end {
        return Err;
      }
      var iter := new RingIterator(this, column, start, end);
      return Ok(iter);
    }
  }

  class RingIterator {
    const ring: RingBuffer
    const column: nat
    const start: nat
    const end: nat
    var currentSlot: nat
    var slotsRemaining: nat

    ghost predicate Valid()
      reads this, ring
    {
      ring.Valid() && column < ring.vals.Length0 && currentSlot < ring.ts.Length
    }

    /** The points still to come. */
    ghost function Remaining(): seq<Point>
      requires Valid()
      reads this, ring, ring.ts, ring.vals
    {
      ring.State().Scan(column, start, end, currentSlot, slotsRemaining)
    }

    constructor (ring: RingBuffer, column: nat, start: nat, end: nat)
      requires ring.Valid() && column < ring.vals.Length0
      ensures Valid() && this.ring == ring
      ensures Remaining() == ring.State().Read(column, start, end)
    {
      this.ring := ring;
      this.column := column;
      this.start := start;
      this.end := end;
      currentSlot := 0;
      slotsRemaining := 0;
      new;
      var empty := ring.IsEmpty();
      if empty {
        return;
      }
      if ring.hasWrapped {
        currentSlot := (ring.cursor + 1) % ring.ts.Length;
        slotsRemaining := ring.ts.Length;
      } else {
        currentSlot := 0;
        slotsRemaining := ring.cursor + 1;
      }
    }

    method Next() returns (p: Option<Point>)
      requires Valid()
      modifies this
      ensures Valid()
      ensures match p
              case Some(point) => old(Remaining()) == [point] + Remaining()
              case None => old(Remaining()) == [] && Remaining() == []
    {
      while slotsRemaining > 0
        invariant Valid()
        invariant Remaining() == old(Remaining())
        decreases slotsRemaining
      {
        var timestamp := ring.ts[currentSlot];
        var value := ring.vals[column, currentSlot];
        assert ring.State().Cell(column, currentSlot) == (timestamp, value);
        currentSlot := (currentSlot + 1) % ring.ts.Length;
        slotsRemaining := slotsRemaining - 1;
        if start <= timestamp < end && !value.NaN? {
          return Some((timestamp, value));
        }
      }
      return None;
    }

    /** Runs the iterator to its end. */
    method Collect() returns (points: seq<Point>)
      requires Valid()
      modifies this
      ensures Valid()
      ensures points == old(Remaining())
    {
      points := [];
      var next := Next();
      while next.Some?
        invariant Valid()
        invariant next.Some? ==> old(Remaining()) == points + [next.value] + Remaining()
        invariant next.None? ==> old(Remaining()) == points
        decreases next.Some?, |Remaining()|
      {
        points := points + [next.value];
        label before:
        next := Next();
        if next.Some? {
          assert old@before(Remaining()) == [next.value] + Remaining();
        }
      }
    }
  }
}
