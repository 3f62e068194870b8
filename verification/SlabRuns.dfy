/** A slab over its whole life: created, written through its setters, closed and opened again. */
module SlabRuns {
  import opened SlabLayouts
  import opened Words
  import opened Slabs

  /** One call of a setter. */
  datatype SetOp =
    | SetCursor(pos: nat) | SetCount(count: nat) | SetTime(slot: nat, time: nat)
    | SetBits(slot: nat, column: nat, bits: nat) | SetColumn(id: nat, column: nat)
  {
    function Target(): Cell {
      match this
      case SetCursor(_) => WriteCursor
      case SetCount(_) => SeriesCount
      case SetTime(slot, _) => Timestamp(slot)
      case SetBits(slot, column, _) => Value(column, slot)
      case SetColumn(id, _) => Directory(id)
    }

    function Word(): nat {
      match this
      case SetCursor(pos) => pos
      case SetCount(count) => count
      case SetTime(_, time) => time
      case SetBits(_, _, bits) => bits
      case SetColumn(_, column) => column
    }

    /** What the setters leave to their callers: indices in bounds and words of the cell's width. */
    predicate Allowed(l: Layout) {
      InLayout(l, Target()) && Word() < if SetTime? || SetBits? then U64_LIMIT else 0x1_0000_0000
    }
  }

  ghost predicate AllAllowed(l: Layout, ops: seq<SetOp>) {
    forall i | 0 <= i < |ops| :: ops[i].Allowed(l)
  }

  /** The last word set in a cell, or its initial one. */
  ghost function LastSet(c: Config, ops: seq<SetOp>, cell: Cell): nat {
    if ops == [] then Initial(c, cell)
    else if ops[|ops| - 1].Target() == cell then ops[|ops| - 1].Word()
    else LastSet(c, ops[..|ops| - 1], cell)
  }

  method Set(slab: Slab, op: SetOp)
    requires slab.Valid() && op.Allowed(slab.layout)
    modifies slab.mmap
    ensures forall cell | InLayout(slab.layout, cell) ::
              slab.View(cell) == if cell == op.Target() then op.Word() else old(slab.View(cell))
  {
    match op {
      case SetCursor(pos) => slab.SetWriteCursor(pos);
      case SetCount(count) => slab.SetSeriesCount(count);
      case SetTime(slot, time) => slab.WriteTimestamp(slot, time);
      case SetBits(slot, column, bits) => slab.WriteValue(slot, column, bits);
      case SetColumn(id, column) => slab.SetSeriesColumn(id, column);
    }
  }

  lemma {:induction false} HeaderIsNotSet(c: Config, ops: seq<SetOp>, cell: Cell)
    requires InHeader(cell) && cell != WriteCursor && cell != SeriesCount
    ensures LastSet(c, ops, cell) == Initial(c, cell)
  {
    if ops != [] {
      HeaderIsNotSet(c, ops[..|ops| - 1], cell);
    }
  }

  /**
   Create, any run of setters, open: the file is accepted, and every reader of
   the opened slab sees the last word set in its cell.
   */
  method CreateSetReopen(c: Config, ops: seq<SetOp>) returns (again: Slab)
    requires c.Fits() && AllAllowed(c.LayoutOf(), ops)
    ensures again.Valid() && again.layout == c.LayoutOf()
    ensures forall cell | InLayout(again.layout, cell) :: again.View(cell) == LastSet(c, ops, cell)
  {
    var slab := Create(c);
    for i := 0 to |ops|
      invariant forall cell | InLayout(slab.layout, cell) :: slab.View(cell) == LastSet(c, ops[..i], cell)
    {
      assert ops[..i + 1][..i] == ops[..i];
      Set(slab, ops[i]);
    }
    assert ops[..|ops|] == ops;
    forall cell | cell in {Magic, Version, SlotCount, MaxSeries} ensures slab.View(cell) == Initial(c, cell) {
      HeaderIsNotSet(c, ops, cell);
    }
    again := Reopen(slab, c);
  }
}
