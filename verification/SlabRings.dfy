/**
 The ring buffer as it lies in its slab: every write goes through the setters of
 the byte file, and what they leave there is the ring after the write; every read
 goes through its readers and yields what the ring's read yields. The encoding of
 values in 64 bits is a parameter.
 */
module SlabRings {
  import opened Wrappers
  import opened Floats
  import opened RingModel
  import opened RingRuns
  import opened Words
  import opened SlabLayouts
  import opened Slabs
  import Cyclic

  /** Values and their bit patterns; several patterns may mean NaN. */
  datatype Codec = Codec(encode: Float -> nat, decode: nat -> Float) {
    ghost predicate Valid() {
      forall v: Float :: encode(v) < U64_LIMIT && decode(encode(v)) == v
    }
  }

  class SlabRing {
    const slab: Slab
    const codec: Codec
    var hasWrapped: bool

    ghost predicate Valid()
      reads this, slab.mmap
    {
      && slab.Valid() && codec.Valid() && 0 < slab.layout.slots < 0x1_0000_0000
      && slab.View(Interval) > 0 && slab.View(WriteCursor) < slab.layout.slots
    }

    ghost function Times(): (ts: seq<nat>)
      requires slab.Valid()
      reads slab.mmap
    {
      seq(slab.layout.slots, s requires 0 <= s < slab.layout.slots && slab.Valid() reads slab.mmap =>
        slab.View(Timestamp(s)))
    }

    ghost function Column(c: nat): (row: seq<Float>)
      requires slab.Valid() && c < slab.layout.series
      reads slab.mmap
    {
      seq(slab.layout.slots,
          s requires 0 <= s < slab.layout.slots && slab.Valid() && c < slab.layout.series reads slab.mmap =>
            codec.decode(slab.View(Value(c, s))))
    }

    ghost function Columns(): (vals: seq<seq<Float>>)
      requires slab.Valid()
      reads slab.mmap
      ensures |vals| == slab.layout.series && forall c | 0 <= c < |vals| :: |vals[c]| == slab.layout.slots
    {
      seq(slab.layout.series, c requires 0 <= c < slab.layout.series && slab.Valid() reads slab.mmap => Column(c))
    }

    /** The ring that the bytes of the slab spell. */
    ghost function State(): (r: Ring)
      requires Valid()
      reads this, slab.mmap
      ensures r.Shaped() && |r.ts| == slab.layout.slots && |r.vals| == slab.layout.series
    {
      Ring(slab.View(Interval), Times(), Columns(), slab.View(WriteCursor), hasWrapped)
    }

    /** Takes over a slab; the wrap flag is worked out from its timestamps. */
    constructor (slab: Slab, codec: Codec)
      requires slab.Valid() && codec.Valid() && 0 < slab.layout.slots < 0x1_0000_0000
      requires slab.View(Interval) > 0 && slab.View(WriteCursor) < slab.layout.slots
      ensures Valid() && this.slab == slab && this.codec == codec
      ensures State() == State().Reopened()
    {
      this.slab := slab;
      this.codec := codec;
      var cursor := slab.ReadWriteCursor();
      if cursor == 0 {
        hasWrapped := false;
        if slab.layout.slots > 1 {
          var t := slab.ReadTimestamp(1);
          hasWrapped := t != 0;
        }
      } else {
        var t := slab.ReadTimestamp((cursor + 1) % slab.layout.slots);
        hasWrapped := t != 0;
      }
    }

    method ComputeSlot(time: nat) returns (slot: nat)
      requires Valid()
      ensures slot == State().SlotOf(time)
    {
      var interval := slab.ReadInterval();
      slot := (time / interval) % slab.layout.slots;
    }

    method StampSlot(slot: nat, time: nat)
      requires slab.Valid() && slot < slab.layout.slots && time < U64_LIMIT
      modifies slab.mmap
      ensures Times() == old(Times())[slot := time] && Columns() == old(Columns())
      ensures slab.View(Interval) == old(slab.View(Interval)) && slab.View(WriteCursor) == old(slab.View(WriteCursor))
    {
      slab.WriteTimestamp(slot, time);
      forall c | 0 <= c < slab.layout.series ensures Column(c) == old(Column(c)) {
      }
    }

    method StoreValue(slot: nat, column: nat, value: Float)
      requires slab.Valid() && codec.Valid() && slot < slab.layout.slots && column < slab.layout.series
      modifies slab.mmap
      ensures Times() == old(Times())
      ensures Columns() == old(Columns())[column := old(Columns())[column][slot := value]]
      ensures slab.View(Interval) == old(slab.View(Interval)) && slab.View(WriteCursor) == old(slab.View(WriteCursor))
    {
      slab.WriteValue(slot, column, codec.encode(value));
      forall c | 0 <= c < slab.layout.series
        ensures Column(c) == if c == column then old(Column(c))[slot := value] else old(Column(c))
      {
      }
    }

    method MoveCursor(slot: nat)
      requires slab.Valid() && slot < 0x1_0000_0000
      modifies slab.mmap
      ensures Times() == old(Times()) && Columns() == old(Columns())
      ensures slab.View(Interval) == old(slab.View(Interval)) && slab.View(WriteCursor) == slot
    {
      slab.SetWriteCursor(slot);
      forall c | 0 <= c < slab.layout.series ensures Column(c) == old(Column(c)) {
      }
    }

    /** One sample: rejected without a trace, or stored with its timestamp and the cursor moved. */
    method Write(column: nat, value: Float, time: nat) returns (r: Result<()>)
      requires Valid() && column < slab.layout.series && time < U64_LIMIT
      modifies this, slab.mmap
      ensures Valid()
      ensures r.Ok? <==> !value.IsInfinite() && time != 0
      ensures State() == if r.Ok? then old(State()).Write(Batch(time, [(column, value)])) else old(State())
    {
      if value.IsInfinite() || time == 0 {
        return Err;
      }
      ghost var before := State();
      var slot := ComputeSlot(time);
      var cursor := slab.ReadWriteCursor();
      if slot < cursor && !hasWrapped {
        hasWrapped := true;
      }
      StampSlot(slot, time);
      StoreValue(slot, column, value);
      if hasWrapped || slot >= cursor {
        MoveCursor(slot);
      }
      WrittenOne(before, State(), column, value, time);
      return Ok(());
    }

    /** All entries under one timestamp, or none. */
    method WriteBatch(entries: seq<(nat, Float)>, time: nat) returns (r: Result<()>)
      requires Valid() && InColumns(entries, slab.layout.series) && time < U64_LIMIT
      modifies this, slab.mmap
      ensures Valid()
      ensures r.Ok? <==> Acceptable(Batch(time, entries))
      ensures State() == if r.Ok? then old(State()).Write(Batch(time, entries)) else old(State())
    {
      if time == 0 {
        return Err;
      }
      for i := 0 to |entries|
        invariant forall j | 0 <= j < i :: !entries[j].1.IsInfinite()
      {
        if entries[i].1.IsInfinite() {
          return Err;
        }
      }
      ghost var before := State();
      var slot := ComputeSlot(time);
      var cursor := slab.ReadWriteCursor();
      if slot < cursor && !hasWrapped {
        hasWrapped := true;
      }
      StampSlot(slot, time);
      StoreEntries(entries, slot);
      if hasWrapped || slot >= cursor {
        MoveCursor(slot);
      }
      WrittenAll(before, State(), entries, time);
      return Ok(());
    }

    /** Stores the entries of one slot; a later entry of a column replaces an earlier one. */
    method StoreEntries(entries: seq<(nat, Float)>, slot: nat)
      requires slab.Valid() && codec.Valid() && InColumns(entries, slab.layout.series) && slot < slab.layout.slots
      modifies slab.mmap
      ensures Times() == old(Times())
      ensures forall c | 0 <= c < slab.layout.series ::
                Columns()[c] == StoreAt(old(Columns())[c], slot, Lookup(entries, c))
      ensures slab.View(Interval) == old(slab.View(Interval)) && slab.View(WriteCursor) == old(slab.View(WriteCursor))
    {
      ghost var before := Columns();
      for i := 0 to |entries|
        invariant Times() == old(Times())
        invariant Stored(before, Columns(), entries[..i], slot)
        invariant slab.View(Interval) == old(slab.View(Interval))
        invariant slab.View(WriteCursor) == old(slab.View(WriteCursor))
      {
        ghost var columns := Columns();
        StoreValue(slot, entries[i].0, entries[i].1);
        StoredNext(before, columns, Columns(), entries, i, slot);
      }
      assert entries[..|entries|] == entries;
    }

    method IsEmpty() returns (empty: bool)
      requires Valid()
      ensures empty == State().IsEmpty()
    {
      var cursor := slab.ReadWriteCursor();
      var t := slab.ReadTimestamp(cursor);
      empty := t == 0;
    }

    method NewestTimestamp() returns (t: Option<nat>)
      requires Valid()
      ensures t == State().Newest()
    {
      var empty := IsEmpty();
      if empty {
        return None;
      }
      var cursor := slab.ReadWriteCursor();
      var timestamp := slab.ReadTimestamp(cursor);
      return if timestamp != 0 then Some(timestamp) else None;
    }

    method OldestTimestamp() returns (t: Option<nat>)
      requires Valid()
      ensures t == State().Oldest()
    {
      var empty := IsEmpty();
      if empty {
        return None;
      }
      var cursor := slab.ReadWriteCursor();
      if hasWrapped {
        t := FirstTimestamp(cursor + 1, slab.layout.slots);
      } else {
        t := FirstTimestamp(0, slab.layout.slots);
      }
    }

    /** The first written slot among `count` from `first` on, going round. */
    method FirstTimestamp(first: nat, count: nat) returns (t: Option<nat>)
      requires Valid()
      ensures t == State().FirstUsed(first % slab.layout.slots, count)
    {
      ghost var r := State();
      var slot := first % slab.layout.slots;
      for i := 0 to count
        invariant slot == (first + i) % slab.layout.slots
        invariant r.FirstUsed(first % slab.layout.slots, count) == r.FirstUsed(slot, count - i)
      {
        var timestamp := slab.ReadTimestamp(slot);
        assert r.ts[slot] == timestamp;
        if timestamp != 0 {
          return Some(timestamp);
        }
        NextSlot(slot, slab.layout.slots);
        Cyclic.ModSuccessor(first + i, slab.layout.slots);
        slot := (first + i + 1) % slab.layout.slots;
      }
      return None;
    }

    /** Where a read starts and how many slots it visits. */
    method ScanRange() returns (slot: nat, count: nat)
      requires Valid()
      ensures slot == State().FirstSlot() && count == State().VisitCount()
    {
      var empty := IsEmpty();
      if empty {
        return 0, 0;
      }
      var cursor := slab.ReadWriteCursor();
      if hasWrapped {
        slot := (cursor + 1) % slab.layout.slots;
        count := slab.layout.slots;
      } else {
        slot := 0;
        count := cursor + 1;
      }
    }

    method SlotAfter(slot: nat) returns (next: nat)
      requires slot < slab.layout.slots
      ensures next == Next(slot, slab.layout.slots)
    {
      NextSlot(slot, slab.layout.slots);
      next := (slot + 1) % slab.layout.slots;
    }

    method ReadCell(slot: nat, column: nat) returns (p: Point)
      requires Valid() && slot < slab.layout.slots && column < slab.layout.series
      ensures p == State().Cell(column, slot)
    {
      var timestamp := slab.ReadTimestamp(slot);
      var bits := slab.ReadValue(slot, column);
      p := (timestamp, codec.decode(bits));
    }

    method Read(column: nat, start: nat, end: nat) returns (r: Result<SlabIterator>)
      requires Valid() && column < slab.layout.series
      ensures r.Ok? <==> start < end
      ensures r.Ok? ==> fresh(r.value) && r.value.Valid() && r.value.ring == this
      ensures r.Ok? ==> r.value.Remaining() == State().Read(column, start, end)
    {
      if start >= end {
        return Err;
      }
      var iter := new SlabIterator(this, column, start, end);
      return Ok(iter);
    }
  }

  class SlabIterator {
    const ring: SlabRing
    const column: nat
    const start: nat
    const end: nat
    var currentSlot: nat
    var slotsRemaining: nat

    ghost predicate Valid()
      reads this, ring, ring.slab.mmap
    {
      ring.Valid() && column < ring.slab.layout.series && currentSlot < ring.slab.layout.slots
    }

    /** The points still to come. */
    ghost function Remaining(): seq<Point>
      requires Valid()
      reads this, ring, ring.slab.mmap
    {
      ring.State().Scan(column, start, end, currentSlot, slotsRemaining)
    }

    constructor (ring: SlabRing, column: nat, start: nat, end: nat)
      requires ring.Valid() && column < ring.slab.layout.series
      ensures Valid() && this.ring == ring
      ensures Remaining() == ring.State().Read(column, start, end)
    {
      this.ring := ring;
      this.column := column;
      this.start := start;
      this.end := end;
      var slot, count := ring.ScanRange();
      currentSlot := slot;
      slotsRemaining := count;
    }

    method Next() returns (p: Option<Point>)
      requires Valid()
      modifies this
      ensures Valid()
      ensures match p
              case Some(point) => old(Remaining()) == [point] + Remaining()
              case None => old(Remaining()) == [] && Remaining() == []
    {
      ghost var r, todo := ring.State(), Remaining();
      while slotsRemaining > 0
        invariant Valid() && ring.State() == r && Remaining() == todo
        decreases slotsRemaining
      {
        ghost var slot, count := currentSlot, slotsRemaining;
        var point := VisitSlot(r);
        YieldsRest(r, column, start, end, slot, count, currentSlot, point, todo, Remaining());
        if start <= point.0 < end && !point.1.NaN? {
          return Some(point);
        }
      }
      return None;
    }

    /** Reads the current slot and moves on. */
    method VisitSlot(ghost r: Ring) returns (p: Point)
      requires Valid() && slotsRemaining > 0 && r == ring.State()
      modifies this
      ensures Valid() && slotsRemaining == old(slotsRemaining) - 1
      ensures Yields(r, column, start, end, old(currentSlot), old(slotsRemaining), currentSlot, p)
    {
      p := ring.ReadCell(currentSlot, column);
      var next := ring.SlotAfter(currentSlot);
      ScanStep(r, column, start, end, currentSlot, next, slotsRemaining, p);
      currentSlot := next;
      slotsRemaining := slotsRemaining - 1;
    }
  }

  /** A scan from `slot` meets `p` there and goes on at `next`. */
  ghost predicate Yields(r: Ring, c: nat, start: nat, end: nat, slot: nat, count: nat, next: nat, p: Point) {
    && r.Shaped() && c < |r.vals| && slot < |r.ts| && next < |r.ts| && count > 0
    && var rest := r.Scan(c, start, end, next, count - 1);
       r.Scan(c, start, end, slot, count) == if start <= p.0 < end && !p.1.NaN? then [p] + rest else rest
  }

  lemma YieldsRest(r: Ring, c: nat, start: nat, end: nat, slot: nat, count: nat, next: nat, p: Point, todo: seq<Point>,
                   rest: seq<Point>)
    requires Yields(r, c, start, end, slot, count, next, p)
    requires todo == r.Scan(c, start, end, slot, count) && rest == r.Scan(c, start, end, next, count - 1)
    ensures todo == if start <= p.0 < end && !p.1.NaN? then [p] + rest else rest
  {
  }

  lemma ScanStep(r: Ring, c: nat, start: nat, end: nat, slot: nat, next: nat, count: nat, p: Point)
    requires r.Shaped() && c < |r.vals| && slot < |r.ts| && count > 0
    requires next == Next(slot, |r.ts|) && p == r.Cell(c, slot)
    ensures Yields(r, c, start, end, slot, count, next, p)
  {
    NextSlot(slot, |r.ts|);
  }

  /** A ring over a new slab is the blank ring. */
  method CreateRing(c: Config, codec: Codec) returns (ring: SlabRing)
    requires c.Fits() && c.slots > 0 && c.interval > 0 && codec.Valid() && codec.decode(NAN_BITS) == NaN
    ensures ring.Valid() && ring.State() == Blank(c.interval, c.slots, c.series)
  {
    var slab := Create(c);
    ring := new SlabRing(slab, codec);
    ghost var r, blank := ring.State(), Blank(c.interval, c.slots, c.series);
    forall k | 0 <= k < c.series ensures r.vals[k] == blank.vals[k] {
    }
    SameRing(r, blank);
  }

  /** What `before` becomes when the entries are stored in one slot. */
  ghost predicate Stored(before: seq<seq<Float>>, after: seq<seq<Float>>, entries: seq<(nat, Float)>, slot: nat) {
    && |after| == |before|
    && forall c | 0 <= c < |before| :: slot < |before[c]| && after[c] == StoreAt(before[c], slot, Lookup(entries, c))
  }

  lemma StoredNext(before: seq<seq<Float>>, columns: seq<seq<Float>>, after: seq<seq<Float>>,
                   entries: seq<(nat, Float)>, i: nat, slot: nat)
    requires i < |entries| && entries[i].0 < |columns| && slot < |columns[entries[i].0]|
    requires Stored(before, columns, entries[..i], slot)
    requires after == columns[entries[i].0 := columns[entries[i].0][slot := entries[i].1]]
    ensures Stored(before, after, entries[..i + 1], slot)
  {
    assert entries[..i + 1][..i] == entries[..i];
  }

  lemma WrittenOne(before: Ring, after: Ring, column: nat, value: Float, time: nat)
    requires before.Shaped() && after.Shaped() && column < |before.vals|
    requires after.interval == before.interval && after.ts == before.ts[before.SlotOf(time) := time]
    requires after.vals == before.vals[column := before.vals[column][before.SlotOf(time) := value]]
    requires after.wrapped == (before.wrapped || before.SlotOf(time) < before.cursor)
    requires after.cursor == before.SlotOf(time)
    ensures after == before.Write(Batch(time, [(column, value)]))
  {
    SingleEntry(column, value);
    CursorIsLastWrite(before, Batch(time, [(column, value)]));
    SameRing(after, before.Write(Batch(time, [(column, value)])));
  }

  lemma WrittenAll(before: Ring, after: Ring, entries: seq<(nat, Float)>, time: nat)
    requires before.Shaped() && after.Shaped() && |after.vals| == |before.vals|
    requires after.interval == before.interval && after.ts == before.ts[before.SlotOf(time) := time]
    requires forall c | 0 <= c < |before.vals| ::
               after.vals[c] == StoreAt(before.vals[c], before.SlotOf(time), Lookup(entries, c))
    requires after.wrapped == (before.wrapped || before.SlotOf(time) < before.cursor)
    requires after.cursor == before.SlotOf(time)
    ensures after == before.Write(Batch(time, entries))
  {
    CursorIsLastWrite(before, Batch(time, entries));
    SameRing(after, before.Write(Batch(time, entries)));
  }

  lemma SingleEntry(column: nat, value: Float)
    ensures forall c :: Lookup([(column, value)], c) == if c == column then Some(value) else None
  {
    assert [(column, value)][..0] == [];
  }

  /** Rings are the same when their parts are. */
  lemma SameRing(x: Ring, y: Ring)
    requires x.Shaped() && y.Shaped() && x.interval == y.interval && x.cursor == y.cursor && x.wrapped == y.wrapped
    requires x.ts == y.ts && |x.vals| == |y.vals| && forall c | 0 <= c < |x.vals| :: x.vals[c] == y.vals[c]
    ensures x == y
  {
  }
}
