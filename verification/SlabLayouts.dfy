/** The byte layout of a slab file: where each header field, directory entry, timestamp and value lies. */
module SlabLayouts {
  import opened Words
  import Cyclic

  const HEADER_SIZE: nat := 64

  /** Slot and series counts determine the whole layout. */
  datatype Layout = Layout(slots: nat, series: nat) {
    function DirectoryOffset(): nat { HEADER_SIZE }

    function TimestampOffset(): nat { DirectoryOffset() + series * 4 }

    function ValuesOffset(): nat { TimestampOffset() + slots * 8 }

    function ColumnSize(): nat { slots * 8 }

    function FileSize(): nat { ValuesOffset() + series * ColumnSize() }

    function ColumnOffset(c: nat): nat { ValuesOffset() + c * ColumnSize() }
  }

  /** Everything a slab file stores. */
  datatype Cell =
    | Magic | Version | SchemaHash | SlotCount | MaxSeries | Interval | WriteCursor | SeriesCount
    | Directory(id: nat) | Timestamp(slot: nat) | Value(column: nat, slot: nat)

  predicate InLayout(l: Layout, cell: Cell) {
    match cell
    case Directory(i) => i < l.series
    case Timestamp(s) => s < l.slots
    case Value(c, s) => c < l.series && s < l.slots
    case _ => true
  }

  predicate InHeader(cell: Cell) {
    !cell.Directory? && !cell.Timestamp? && !cell.Value?
  }

  function Offset(l: Layout, cell: Cell): nat {
    match cell
    case Magic => 0
    case Version => 4
    case SchemaHash => 8
    case SlotCount => 16
    case MaxSeries => 20
    case Interval => 24
    case WriteCursor => 32
    case SeriesCount => 36
    case Directory(i) => l.DirectoryOffset() + i * 4
    case Timestamp(s) => l.TimestampOffset() + s * 8
    case Value(c, s) => l.ColumnOffset(c) + s * 8
  }

  function Width(cell: Cell): nat {
    match cell
    case SchemaHash => 8
    case Interval => 8
    case Timestamp(_) => 8
    case Value(_, _) => 8
    case _ => 4
  }

  /** Where the documented format puts each field: header, directory, timestamps, then the columns one after the other. */
  lemma DocumentedPositions(l: Layout, i: nat, s: nat, c: nat)
    ensures (Offset(l, Magic), Width(Magic)) == (0, 4) && (Offset(l, Version), Width(Version)) == (4, 4)
    ensures (Offset(l, SchemaHash), Width(SchemaHash)) == (8, 8) && (Offset(l, SlotCount), Width(SlotCount)) == (16, 4)
    ensures (Offset(l, MaxSeries), Width(MaxSeries)) == (20, 4) && (Offset(l, Interval), Width(Interval)) == (24, 8)
    ensures (Offset(l, WriteCursor), Width(WriteCursor)) == (32, 4)
    ensures (Offset(l, SeriesCount), Width(SeriesCount)) == (36, 4)
    ensures (Offset(l, Directory(i)), Width(Directory(i))) == (64 + i * 4, 4)
    ensures (Offset(l, Timestamp(s)), Width(Timestamp(s))) == (64 + l.series * 4 + s * 8, 8)
    ensures (Offset(l, Value(c, s)), Width(Value(c, s))) == (64 + l.series * 4 + l.slots * 8 + c * l.slots * 8 + s * 8, 8)
    ensures l.FileSize() == 64 + l.series * 4 + l.slots * 8 + l.slots * l.series * 8
  {
    assert c * (l.slots * 8) == c * l.slots * 8;
    assert l.series * (l.slots * 8) == l.slots * l.series * 8;
  }

  /** The documented example: 600 slots of 30 series. */
  lemma DocumentedSize()
    ensures Layout(600, 30).FileSize() == 148_984
  {
    DocumentedPositions(Layout(600, 30), 0, 0, 0);
  }

  lemma ColumnsBefore(c: nat, d: nat, size: nat)
    requires c < d
    ensures c * size + size <= d * size
  {
    Cyclic.ProductAtLeast(d - c, size);
    assert d * size == c * size + (d - c) * size;
  }

  /** Cells lie within their part of the file. */
  lemma CellInFile(l: Layout, cell: Cell)
    requires InLayout(l, cell)
    ensures InHeader(cell) ==> Offset(l, cell) + Width(cell) <= 40
    ensures cell.Directory? ==> HEADER_SIZE <= Offset(l, cell) && Offset(l, cell) + 4 <= l.TimestampOffset()
    ensures cell.Timestamp? ==> l.TimestampOffset() <= Offset(l, cell) && Offset(l, cell) + 8 <= l.ValuesOffset()
    ensures cell.Value? ==> l.ColumnOffset(cell.column) <= Offset(l, cell)
                            && Offset(l, cell) + 8 <= l.ColumnOffset(cell.column) + l.ColumnSize() <= l.FileSize()
    ensures HEADER_SIZE <= l.ValuesOffset() <= l.FileSize()
    ensures Offset(l, cell) + Width(cell) <= l.FileSize()
  {
    assert l.series * l.ColumnSize() >= 0;
    if cell.Value? {
      ColumnsBefore(cell.column, l.series, l.ColumnSize());
    }
  }

  /** No two different cells share a byte. */
  lemma CellsAreDisjoint(l: Layout, x: Cell, y: Cell)
    requires InLayout(l, x) && InLayout(l, y) && x != y
    ensures Offset(l, x) + Width(x) <= Offset(l, y) || Offset(l, y) + Width(y) <= Offset(l, x)
  {
    if x.Value? && y.Value? {
      ValuesAreDisjoint(l, x.column, x.slot, y.column, y.slot);
    } else if x.Value? {
      ValuesComeLast(l, y, x);
    } else if y.Value? {
      ValuesComeLast(l, x, y);
    } else {
      CellInFile(l, x);
      CellInFile(l, y);
    }
  }

  lemma ValuesComeLast(l: Layout, x: Cell, y: Cell)
    requires InLayout(l, x) && InLayout(l, y) && !x.Value? && y.Value?
    ensures Offset(l, x) + Width(x) <= Offset(l, y)
  {
    CellInFile(l, x);
    assert y.column * l.ColumnSize() >= 0;
  }

  lemma ValuesAreDisjoint(l: Layout, c: nat, s: nat, d: nat, t: nat)
    requires s < l.slots && t < l.slots && (c, s) != (d, t)
    ensures l.ColumnOffset(c) + s * 8 + 8 <= l.ColumnOffset(d) + t * 8
            || l.ColumnOffset(d) + t * 8 + 8 <= l.ColumnOffset(c) + s * 8
  {
    if c < d {
      ColumnsBefore(c, d, l.ColumnSize());
    } else if d < c {
      ColumnsBefore(d, c, l.ColumnSize());
    }
  }

  ghost predicate Covers(l: Layout, cell: Cell, p: nat) {
    InLayout(l, cell) && !InHeader(cell) && Offset(l, cell) <= p < Offset(l, cell) + Width(cell)
  }

  lemma ValueCellAt(l: Layout, p: nat) returns (cell: Cell)
    requires l.ValuesOffset() <= p < l.FileSize()
    ensures Covers(l, cell, p)
  {
    var size := l.ColumnSize();
    NonEmptyColumns(l.series, size, p - l.ValuesOffset());
    var c, r := ColumnAt(p - l.ValuesOffset(), size, l.series);
    cell := Value(c, r / 8);
    assert Offset(l, cell) == l.ValuesOffset() + c * size + r / 8 * 8;
  }

  lemma NonEmptyColumns(series: nat, size: nat, q: nat)
    requires q < series * size
    ensures size > 0
  {
  }

  lemma ColumnAt(q: nat, size: nat, series: nat) returns (c: nat, r: nat)
    requires size > 0 && q < series * size
    ensures c < series && r < size && q == c * size + r
  {
    c, r := q / size, q % size;
    assert q == c * size + r;
    if c >= series {
      if c > series { ColumnsBefore(series, c, size); }
    }
  }

  /**
   Directory, timestamp and value cells tile the file behind the header exactly:
   every byte from 64 to the end of the file lies in one cell, and in only one.
   */
  lemma CellsTileTheFile(l: Layout, p: nat)
    requires HEADER_SIZE <= p < l.FileSize()
    ensures exists cell :: Covers(l, cell, p)
    ensures forall x, y | Covers(l, x, p) && Covers(l, y, p) :: x == y
  {
    var cell: Cell;
    if p < l.TimestampOffset() {
      cell := Directory((p - HEADER_SIZE) / 4);
    } else if p < l.ValuesOffset() {
      cell := Timestamp((p - l.TimestampOffset()) / 8);
    } else {
      cell := ValueCellAt(l, p);
    }
    assert Covers(l, cell, p);
    forall x, y | Covers(l, x, p) && Covers(l, y, p) ensures x == y {
      if x != y {
        CellsAreDisjoint(l, x, y);
      }
    }
  }

  /** Within the limits of a validated schema no offset overflows 64 bits. */
  lemma LayoutFits64Bits(l: Layout)
    requires l.slots <= 1_000_000_000 && l.series < 0x8000_0000
    ensures l.FileSize() < U64_LIMIT
  {
    var size := l.ColumnSize();
    var d, e := 8_000_000_000 - size, 0x8000_0000 - l.series;
    assert d * l.series >= 0;
    assert (size + d) * l.series == size * l.series + d * l.series;
    assert l.series * size == size * l.series;
  }
}
