/**
 The contents of a ring buffer as a value, and what each operation of the ring
 makes of it. `RingBuffers.RingBuffer` is proved to compute exactly these.
 */
module RingModel {
  import opened Wrappers
  import opened Floats

  /** One accepted write call: every entry is stored at the same timestamp. */
  datatype Batch = Batch(time: nat, entries: seq<(nat, Float)>)

  type Point = (nat, Float)

  /** The entry that remains for a column after the entries are stored in order. */
  function Lookup(entries: seq<(nat, Float)>, column: nat): Option<Float> {
    if entries == [] then None
    else
      var last := entries[|entries| - 1];
      if last.0 == column then Some(last.1) else Lookup(entries[..|entries| - 1], column)
  }

  /** What the ring checks before it changes anything. */
  predicate Acceptable(b: Batch) {
    b.time != 0 && forall i | 0 <= i < |b.entries| :: !b.entries[i].1.IsInfinite()
  }

  predicate InColumns(entries: seq<(nat, Float)>, columns: nat) {
    forall i | 0 <= i < |entries| :: entries[i].0 < columns
  }

  predicate Writable(b: Batch, columns: nat) {
    Acceptable(b) && InColumns(b.entries, columns)
  }

  function StoreAt(row: seq<Float>, slot: nat, v: Option<Float>): (r: seq<Float>)
    requires slot < |row|
    ensures |r| == |row|
  {
    match v
    case None => row
    case Some(x) => row[slot := x]
  }

  /**
   `ts[s]` is the timestamp of slot `s`, 0 when the slot was never written;
   `vals[c][s]` is the value of series column `c` in that slot.
   */
  datatype Ring = Ring(interval: nat, ts: seq<nat>, vals: seq<seq<Float>>, cursor: nat, wrapped: bool) {
    ghost predicate Shaped() {
      && interval > 0
      && cursor < |ts|
      && forall c | 0 <= c < |vals| :: |vals[c]| == |ts|
    }

    function SlotOf(time: nat): (s: nat)
      requires Shaped()
      ensures s < |ts|
    {
      (time / interval) % |ts|
    }

    ghost function Write(b: Batch): (r: Ring)
      requires Shaped()
      ensures r.Shaped() && r.interval == interval && |r.ts| == |ts| && |r.vals| == |vals|
    {
      var slot := SlotOf(b.time);
      var wraps := wrapped || slot < cursor;
      Ring(
        interval,
        ts[slot := b.time],
        seq(|vals|, c requires 0 <= c < |vals| => StoreAt(vals[c], slot, Lookup(b.entries, c))),
        if wraps || slot >= cursor then slot else cursor,
        wraps)
    }

    predicate IsEmpty()
      requires Shaped()
    {
      ts[cursor] == 0
    }

    function Newest(): Option<nat>
      requires Shaped()
    {
      if ts[cursor] == 0 then None else Some(ts[cursor])
    }

    function Oldest(): Option<nat>
      requires Shaped()
    {
      if IsEmpty() then None
      else if wrapped then FirstUsed((cursor + 1) % |ts|, |ts|)
      else FirstUsed(0, |ts|)
    }

    /** The timestamp of the first written slot among `count` slots, going round from `slot`. */
    function FirstUsed(slot: nat, count: nat): (t: Option<nat>)
      requires Shaped() && slot < |ts|
      decreases count
    {
      if count == 0 then None
      else if ts[slot] != 0 then Some(ts[slot])
      else FirstUsed((slot + 1) % |ts|, count - 1)
    }

    /** Does a read of `column` over `[start, end)` return this slot? */
    predicate Qualifies(column: nat, start: nat, end: nat, slot: nat)
      requires Shaped() && column < |vals| && slot < |ts|
    {
      start <= ts[slot] < end && !vals[column][slot].NaN?
    }

    function Cell(column: nat, slot: nat): Point
      requires Shaped() && column < |vals| && slot < |ts|
    {
      (ts[slot], vals[column][slot])
    }

    /** The points the iterator still returns when `count` slots from `slot` on remain. */
    function Scan(column: nat, start: nat, end: nat, slot: nat, count: nat): seq<Point>
      requires Shaped() && column < |vals| && slot < |ts|
      decreases count
    {
      if count == 0 then []
      else
        var rest := Scan(column, start, end, (slot + 1) % |ts|, count - 1);
        if Qualifies(column, start, end, slot) then [Cell(column, slot)] + rest else rest
    }

    /** Where the iterator starts and how many slots it visits. */
    function FirstSlot(): (s: nat)
      requires Shaped()
      ensures s < |ts|
    {
      if !IsEmpty() && wrapped then (cursor + 1) % |ts| else 0
    }

    function VisitCount(): nat
      requires Shaped()
    {
      if IsEmpty() then 0 else if wrapped then |ts| else cursor + 1
    }

    function Read(column: nat, start: nat, end: nat): seq<Point>
      requires Shaped() && column < |vals|
    {
      Scan(column, start, end, FirstSlot(), VisitCount())
    }

    /** The wrap flag a ring gets when it is rebuilt from its stored cells and cursor. */
    function Reopened(): Ring
      requires Shaped()
    {
      this.(wrapped :=
        if cursor == 0 then |ts| > 1 && ts[1] != 0
        else ts[(cursor + 1) % |ts|] != 0)
    }
  }

  function Blank(interval: nat, slots: nat, columns: nat): (r: Ring)
    requires interval > 0 && slots > 0
    ensures r.Shaped()
  {
    Ring(interval, seq(slots, _ => 0), seq(columns, _ => seq(slots, _ => NaN)), 0, false)
  }

  /** The state after a run of accepted writes. */
  ghost function Run(r: Ring, log: seq<Batch>): (r': Ring)
    requires r.Shaped()
    ensures r'.Shaped() && r'.interval == r.interval
    ensures |r'.ts| == |r.ts| && |r'.vals| == |r.vals|
  {
    if log == [] then r else Run(r, log[..|log| - 1]).Write(log[|log| - 1])
  }

  ghost predicate WritableRun(log: seq<Batch>, columns: nat) {
    forall i | 0 <= i < |log| :: Writable(log[i], columns)
  }
}
