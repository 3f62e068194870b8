/** The slab file as a byte array that the setters update in place. */
module Slabs {
  import opened Wrappers
  import opened SlabLayouts
  import opened Words

  const SLAB_MAGIC: nat := 0x4F_44_4E_52 // "RNDO", first byte lowest
  const SLAB_VERSION: nat := 1
  const NO_COLUMN: nat := 0xFFFF_FFFF
  const NAN_BITS: nat := 0x7FF8_0000_0000_0000

  // ------------------------------------------------------------------ cells

  /** What the reader of a cell returns. */
  function Get(l: Layout, bytes: seq<byte>, cell: Cell): nat
    requires Offset(l, cell) + Width(cell) <= |bytes|
  {
    Decode(bytes[Offset(l, cell)..Offset(l, cell) + Width(cell)])
  }

  predicate FitsCell(cell: Cell, v: nat) {
    v < Pow256(Width(cell))
  }

  ghost predicate IsFile(l: Layout, bytes: seq<byte>) {
    |bytes| == l.FileSize()
  }

  lemma CellFits(l: Layout, cell: Cell, bytes: seq<byte>)
    requires InLayout(l, cell) && IsFile(l, bytes)
    ensures Offset(l, cell) + Width(cell) <= |bytes|
  {
    CellInFile(l, cell);
  }

  /** A writer changes what its own reader sees, and what no other reader sees. */
  lemma PutChangesOneCell(l: Layout, bytes: seq<byte>, cell: Cell, v: nat, other: Cell)
    requires InLayout(l, cell) && InLayout(l, other) && IsFile(l, bytes) && FitsCell(cell, v)
    ensures Offset(l, cell) + Width(cell) <= |bytes| && Offset(l, other) + Width(other) <= |bytes|
    ensures Get(l, Put(bytes, Offset(l, cell), Width(cell), v), other)
            == if other == cell then v else Get(l, bytes, other)
  {
    CellFits(l, cell, bytes);
    if other == cell {
      PutHere(bytes, Offset(l, cell), Width(cell), v);
    } else {
      PutSparesOthers(l, bytes, cell, v, other);
    }
  }

  lemma PutSparesOthers(l: Layout, bytes: seq<byte>, cell: Cell, v: nat, other: Cell)
    requires InLayout(l, cell) && InLayout(l, other) && IsFile(l, bytes) && other != cell
    ensures Offset(l, cell) + Width(cell) <= |bytes| && Offset(l, other) + Width(other) <= |bytes|
    ensures Get(l, Put(bytes, Offset(l, cell), Width(cell), v), other) == Get(l, bytes, other)
  {
    CellFits(l, cell, bytes);
    CellFits(l, other, bytes);
    CellsAreDisjoint(l, cell, other);
    PutElsewhere(bytes, Offset(l, cell), Width(cell), v, Offset(l, other), Width(other));
  }

  // ------------------------------------------------------- creating a file

  /** The configuration a slab is created with. */
  datatype Config = Config(schemaHash: nat, slots: nat, series: nat, interval: nat) {
    predicate Fits() {
      schemaHash < U64_LIMIT && slots < 0x1_0000_0000 && series < 0x1_0000_0000 && interval < U64_LIMIT
    }

    function LayoutOf(): Layout { Layout(slots, series) }
  }

  /** What every cell of a new file holds. */
  function Initial(c: Config, cell: Cell): nat {
    match cell
    case Magic => SLAB_MAGIC
    case Version => SLAB_VERSION
    case SchemaHash => c.schemaHash
    case SlotCount => c.slots
    case MaxSeries => c.series
    case Interval => c.interval
    case WriteCursor => 0
    case SeriesCount => 0
    case Directory(_) => NO_COLUMN
    case Timestamp(_) => 0
    case Value(_, _) => NAN_BITS
  }

  /** What a new file holds, in numbers: the magic word spells RNDO. */
  lemma InitialContents(c: Config, i: nat, s: nat, k: nat)
    ensures Encode(Initial(c, Magic), 4) == [0x52, 0x4E, 0x44, 0x4F] && Initial(c, Version) == 1
    ensures Initial(c, SchemaHash) == c.schemaHash && Initial(c, Interval) == c.interval
    ensures Initial(c, SlotCount) == c.slots && Initial(c, MaxSeries) == c.series
    ensures Initial(c, WriteCursor) == 0 && Initial(c, SeriesCount) == 0
    ensures Initial(c, Directory(i)) == 0xFFFF_FFFF && Initial(c, Timestamp(s)) == 0
    ensures Initial(c, Value(k, s)) == 0x7FF8_0000_0000_0000
  {
    assert Encode(0x4F_44_4E_52, 4) == [0x52] + Encode(0x4F_44_4E, 3);
    assert Encode(0x4F_44_4E, 3) == [0x4E] + Encode(0x4F_44, 2);
    assert Encode(0x4F_44, 2) == [0x44] + Encode(0x4F, 1);
    assert Encode(0x4F, 1) == [0x4F] + Encode(0, 0);
  }

  lemma InitialFits(c: Config, cell: Cell)
    requires c.Fits()
    ensures FitsCell(cell, Initial(c, cell))
  {
    WordLimits();
  }

  /** Reads a number, lowest byte first. */
  method ReadWord(mmap: array<byte>, offset: nat, width: nat) returns (v: nat)
    requires offset + width <= mmap.Length
    ensures v == Decode(mmap[offset..offset + width])
  {
    v := 0;
    var i := width;
    while i > 0
      invariant 0 <= i <= width
      invariant v == Decode(mmap[offset + i..offset + width])
    {
      i := i - 1;
      DecodeFirst(mmap[offset + i], mmap[offset + i + 1..offset + width], mmap[offset + i..offset + width]);
      v := mmap[offset + i] + 256 * v;
    }
  }

  class Slab {
    const layout: Layout
    const mmap: array<byte>

    ghost predicate Valid() {
      mmap.Length == layout.FileSize()
    }

    /** What the reader of a cell sees in this slab. */
    ghost function View(cell: Cell): nat
      requires Valid() && InLayout(layout, cell)
      reads mmap
    {
      CellFits(layout, cell, mmap[..]);
      Get(layout, mmap[..], cell)
    }

    constructor (layout: Layout, mmap: array<byte>)
      requires mmap.Length == layout.FileSize()
      ensures Valid() && this.layout == layout && this.mmap == mmap
    {
      this.layout := layout;
      this.mmap := mmap;
    }

    /** Stores a number at an offset, lowest byte first. */
    method WriteWord(offset: nat, width: nat, v: nat)
      requires offset + width <= mmap.Length
      modifies mmap
      ensures mmap[..] == Put(old(mmap[..]), offset, width, v)
    {
      var rest := v;
      ghost var before, word := mmap[..], Encode(v, width);
      for i := 0 to width
        invariant forall k | 0 <= k < mmap.Length ::
          mmap[k] == if offset <= k < offset + i then word[k - offset] else before[k]
        invariant |word| == width && Encode(rest, width - i) == word[i..]
      {
        assert word[i] == Encode(rest, width - i)[0] == rest % 256;
        mmap[offset + i] := rest % 256;
        assert Encode(rest / 256, width - i - 1) == Encode(rest, width - i)[1..] == word[i + 1..];
        rest := rest / 256;
      }
      assert mmap[..] == Put(before, offset, width, v);
    }

    /** Stores `v` in one cell: its reader sees `v`, all others see what they saw. */
    method WriteCell(offset: nat, width: nat, v: nat, ghost cell: Cell)
      requires Valid() && InLayout(layout, cell) && FitsCell(cell, v)
      requires offset == Offset(layout, cell) && width == Width(cell)
      modifies mmap
      ensures View(cell) == v
      ensures forall other | InLayout(layout, other) && other != cell :: View(other) == old(View(other))
    {
      CellFits(layout, cell, mmap[..]);
      ghost var before := mmap[..];
      WriteWord(offset, width, v);
      forall other | InLayout(layout, other)
        ensures View(other) == if other == cell then v else old(View(other))
      {
        PutChangesOneCell(layout, before, cell, v, other);
      }
    }

    method ReadWriteCursor() returns (pos: nat)
      requires Valid()
      ensures pos == View(WriteCursor)
    {
      CellFits(layout, WriteCursor, mmap[..]);
      pos := ReadWord(mmap, 32, 4);
      assert mmap[..][32..36] == mmap[32..36];
    }

    method ReadInterval() returns (interval: nat)
      requires Valid()
      ensures interval == View(Interval)
    {
      CellFits(layout, Interval, mmap[..]);
      interval := ReadWord(mmap, 24, 8);
      assert mmap[..][24..32] == mmap[24..32];
    }

    method SetWriteCursor(pos: nat)
      requires Valid() && pos < 0x1_0000_0000
      modifies mmap
      ensures View(WriteCursor) == pos
      ensures forall other | InLayout(layout, other) && other != WriteCursor :: View(other) == old(View(other))
    {
      WordLimits();
      WriteCell(32, 4, pos, WriteCursor);
    }

    method SetSeriesCount(count: nat)
      requires Valid() && count < 0x1_0000_0000
      modifies mmap
      ensures View(SeriesCount) == count
      ensures forall other | InLayout(layout, other) && other != SeriesCount :: View(other) == old(View(other))
    {
      WordLimits();
      WriteCell(36, 4, count, SeriesCount);
    }

    method WriteTimestamp(slot: nat, timestamp: nat)
      requires Valid() && slot < layout.slots && timestamp < U64_LIMIT
      modifies mmap
      ensures View(Timestamp(slot)) == timestamp
      ensures forall other | InLayout(layout, other) && other != Timestamp(slot) :: View(other) == old(View(other))
    {
      WordLimits();
      WriteCell(layout.TimestampOffset() + slot * 8, 8, timestamp, Timestamp(slot));
    }

    method WriteValue(slot: nat, column: nat, bits: nat)
      requires Valid() && slot < layout.slots && column < layout.series && bits < U64_LIMIT
      modifies mmap
      ensures View(Value(column, slot)) == bits
      ensures forall other | InLayout(layout, other) && other != Value(column, slot) :: View(other) == old(View(other))
    {
      WordLimits();
      var columnOffset := layout.ColumnOffset(column);
      WriteCell(columnOffset + slot * 8, 8, bits, Value(column, slot));
    }

    method SetSeriesColumn(id: nat, column: nat)
      requires Valid() && id < layout.series && column < 0x1_0000_0000
      modifies mmap
      ensures View(Directory(id)) == column
      ensures forall other | InLayout(layout, other) && other != Directory(id) :: View(other) == old(View(other))
    {
      WordLimits();
      WriteCell(layout.DirectoryOffset() + id * 4, 4, column, Directory(id));
    }

    method ReadTimestamp(slot: nat) returns (t: nat)
      requires Valid() && slot < layout.slots
      ensures t == View(Timestamp(slot))
    {
      CellFits(layout, Timestamp(slot), mmap[..]);
      t := ReadWord(mmap, layout.TimestampOffset() + slot * 8, 8);
      assert mmap[..][Offset(layout, Timestamp(slot))..Offset(layout, Timestamp(slot)) + 8]
             == mmap[Offset(layout, Timestamp(slot))..Offset(layout, Timestamp(slot)) + 8];
    }

    method ReadValue(slot: nat, column: nat) returns (bits: nat)
      requires Valid() && slot < layout.slots && column < layout.series
      ensures bits == View(Value(column, slot))
    {
      CellFits(layout, Value(column, slot), mmap[..]);
      ghost var o := Offset(layout, Value(column, slot));
      bits := ReadWord(mmap, layout.ColumnOffset(column) + slot * 8, 8);
      assert mmap[..][o..o + 8] == mmap[o..o + 8];
    }

    /** The column registered for a series id, if any. */
    method GetSeriesColumn(id: nat) returns (column: Option<nat>)
      requires Valid() && View(MaxSeries) == layout.series
      ensures column == if id < layout.series && View(Directory(id)) != NO_COLUMN
                        then Some(View(Directory(id))) else None
    {
      CellFits(layout, MaxSeries, mmap[..]);
      assert mmap[..][20..24] == mmap[20..24];
      var maxSeries := ReadWord(mmap, 20, 4);
      if id >= maxSeries {
        return None;
      }
      CellFits(layout, Directory(id), mmap[..]);
      ghost var o := Offset(layout, Directory(id));
      var c := ReadWord(mmap, layout.DirectoryOffset() + id * 4, 4);
      assert mmap[..][o..o + 4] == mmap[o..o + 4];
      return if c == NO_COLUMN then None else Some(c);
    }
  }

  // --------------------------------------------------------- create and open

  /** Cells already initialized when the loops of `Create` stand at these counters. */
  predicate Done(cell: Cell, directory: nat, slots: nat, columns: nat, rows: nat) {
    match cell
    case Directory(i) => i < directory
    case Timestamp(s) => s < slots
    case Value(c, s) => c < columns || (c == columns && s < rows)
    case _ => true
  }

  ghost predicate Initialized(slab: Slab, c: Config, directory: nat, slots: nat, columns: nat, rows: nat)
    requires slab.Valid()
    reads slab.mmap
  {
    forall cell | InLayout(slab.layout, cell) && Done(cell, directory, slots, columns, rows) ::
      slab.View(cell) == Initial(c, cell)
  }

  /** Writes one header field. */
  method InitializeField(slab: Slab, c: Config, cell: Cell, ghost written: set<Cell>)
    requires slab.Valid() && c.Fits() && InHeader(cell)
    requires forall x | x in written :: InHeader(x) && slab.View(x) == Initial(c, x)
    modifies slab.mmap
    ensures forall x | x in written + {cell} :: InHeader(x) && slab.View(x) == Initial(c, x)
  {
    InitialFits(c, cell);
    slab.WriteCell(Offset(slab.layout, cell), Width(cell), Initial(c, cell), cell);
  }

  method InitializeHeader(slab: Slab, c: Config)
    requires slab.Valid() && c.Fits()
    modifies slab.mmap
    ensures Initialized(slab, c, 0, 0, 0, 0)
  {
    InitializeSizes(slab, c);
    InitializeField(slab, c, Interval, {Magic, Version, SchemaHash, SlotCount, MaxSeries});
    InitializeField(slab, c, WriteCursor, {Magic, Version, SchemaHash, SlotCount, MaxSeries, Interval});
    InitializeField(slab, c, SeriesCount, {Magic, Version, SchemaHash, SlotCount, MaxSeries, Interval, WriteCursor});
  }

  method InitializeSizes(slab: Slab, c: Config)
    requires slab.Valid() && c.Fits()
    modifies slab.mmap
    ensures forall x | x in {Magic, Version, SchemaHash, SlotCount, MaxSeries} ::
              InHeader(x) && slab.View(x) == Initial(c, x)
  {
    InitializeField(slab, c, Magic, {});
    InitializeField(slab, c, Version, {Magic});
    InitializeField(slab, c, SchemaHash, {Magic, Version});
    InitializeField(slab, c, SlotCount, {Magic, Version, SchemaHash});
    InitializeField(slab, c, MaxSeries, {Magic, Version, SchemaHash, SlotCount});
  }

  /** Zero timestamps, then NaN in every value cell. */
  method InitializeDataRegion(slab: Slab, c: Config)
    requires slab.Valid() && c.Fits() && slab.layout == c.LayoutOf()
    requires Initialized(slab, c, c.series, 0, 0, 0)
    modifies slab.mmap
    ensures Initialized(slab, c, c.series, c.slots, c.series, 0)
  {
    for i := 0 to c.slots
      invariant Initialized(slab, c, c.series, i, 0, 0)
    {
      slab.WriteTimestamp(i, 0);
    }
    for column := 0 to c.series
      invariant Initialized(slab, c, c.series, c.slots, column, 0)
    {
      InitializeColumn(slab, c, column);
    }
  }

  method InitializeColumn(slab: Slab, c: Config, column: nat)
    requires slab.Valid() && c.Fits() && slab.layout == c.LayoutOf() && column < c.series
    requires Initialized(slab, c, c.series, c.slots, column, 0)
    modifies slab.mmap
    ensures Initialized(slab, c, c.series, c.slots, column + 1, 0)
  {
    for i := 0 to c.slots
      invariant Initialized(slab, c, c.series, c.slots, column, i)
    {
      slab.WriteValue(i, column, NAN_BITS);
    }
  }

  /** A new file: the header, an empty directory, no timestamps and no values. */
  method Create(c: Config) returns (slab: Slab)
    requires c.Fits()
    ensures fresh(slab) && fresh(slab.mmap) && slab.Valid() && slab.layout == c.LayoutOf()
    ensures forall cell | InLayout(slab.layout, cell) :: slab.View(cell) == Initial(c, cell)
  {
    var mmap := new byte[c.LayoutOf().FileSize()](_ => 0);
    slab := new Slab(c.LayoutOf(), mmap);
    InitializeHeader(slab, c);
    for i := 0 to c.series
      invariant Initialized(slab, c, i, 0, 0, 0)
    {
      slab.SetSeriesColumn(i, NO_COLUMN);
    }
    InitializeDataRegion(slab, c);
    assert forall cell | InLayout(slab.layout, cell) :: Done(cell, c.series, c.slots, c.series, 0);
  }

  /** Are these the bytes of a slab: long enough, right magic and version, and of the size the header implies? */
  ghost predicate IsSlabFile(bytes: seq<byte>) {
    && |bytes| >= HEADER_SIZE
    && Decode(bytes[0..4]) == SLAB_MAGIC && Decode(bytes[4..8]) == SLAB_VERSION
    && |bytes| == Layout(Decode(bytes[16..20]), Decode(bytes[20..24])).FileSize()
  }

  /** Opens a mapped file; nothing in it is changed. */
  method Open(mmap: array<byte>) returns (r: Result<Slab>)
    ensures r.Ok? <==> IsSlabFile(mmap[..])
    ensures r.Ok? ==> fresh(r.value) && r.value.Valid() && r.value.mmap == mmap
                      && r.value.layout == Layout(Decode(mmap[16..20]), Decode(mmap[20..24]))
  {
    ghost var bytes := mmap[..];
    if mmap.Length < HEADER_SIZE {
      return Err;
    }
    assert bytes[0..4] == mmap[0..4] && bytes[4..8] == mmap[4..8];
    assert bytes[16..20] == mmap[16..20] && bytes[20..24] == mmap[20..24];
    var magic := ReadWord(mmap, 0, 4);
    var version := ReadWord(mmap, 4, 4);
    if magic != SLAB_MAGIC || version != SLAB_VERSION {
      return Err;
    }
    var slots := ReadWord(mmap, 16, 4);
    var series := ReadWord(mmap, 20, 4);
    var layout := Layout(slots, series);
    if mmap.Length != layout.FileSize() {
      return Err;
    }
    var slab := new Slab(layout, mmap);
    return Ok(slab);
  }

  /** A slab whose fixed header fields still hold what they were created with. */
  ghost predicate KeepsHeader(slab: Slab, c: Config)
    reads slab.mmap
  {
    && slab.Valid() && slab.layout == c.LayoutOf()
    && forall cell | cell in {Magic, Version, SlotCount, MaxSeries} :: slab.View(cell) == Initial(c, cell)
  }

  /**
   Opening the file of a slab that was created and then written through any of
   its setters gives back a slab over the same bytes with the same layout, so
   every reader sees what it saw.
   */
  method Reopen(slab: Slab, c: Config) returns (again: Slab)
    requires KeepsHeader(slab, c)
    ensures again.Valid() && again.layout == slab.layout
    ensures forall cell | InLayout(slab.layout, cell) :: again.View(cell) == slab.View(cell)
  {
    CellInFile(slab.layout, Magic);
    ghost var bytes := slab.mmap[..];
    assert slab.View(Magic) == Decode(bytes[0..4]) && slab.View(Version) == Decode(bytes[4..8]);
    assert slab.View(SlotCount) == Decode(bytes[16..20]) && slab.View(MaxSeries) == Decode(bytes[20..24]);
    assert Initial(c, Magic) == SLAB_MAGIC && Initial(c, Version) == SLAB_VERSION;
    assert Initial(c, SlotCount) == c.slots && Initial(c, MaxSeries) == c.series;
    assert IsSlabFile(bytes);
    var r := Open(slab.mmap);
    again := r.value;
    assert slab.mmap[16..20] == bytes[16..20] && slab.mmap[20..24] == bytes[20..24];
  }
}
