/**
 One block request, from the head of its descriptor chain to its status byte
 (section 5.2.6 of the VIRTIO specification, version 1.2).
 */
module Requests {
  import opened Wrappers
  import opened Words
  import opened Virtqueue
  import opened BlockIo

  const TYPE_IN: nat := 0
  const TYPE_OUT: nat := 1
  const TYPE_FLUSH: nat := 4

  const STATUS_OK: byte := 0
  const STATUS_IOERR: byte := 1
  const STATUS_UNSUPP: byte := 2

  const HEADER_BYTES: nat := 16
  const U32_LIMIT: nat := 0x1_0000_0000

  datatype IoOp = Read | Write | Flush

  datatype CompletedIo = CompletedIo(op: IoOp, bytes: nat)

  /** What an I/O handler leaves behind and returns. */
  datatype Handled = Handled(mem: Memory, disk: Disk, status: byte, io: CompletedIo)

  datatype Outcome = Outcome(mem: Memory, disk: Disk, usedLen: nat, completed: Option<CompletedIo>)

  // ------------------------------------------------------------ the chain

  /** The header's type and sector; None when the header cannot be read. */
  function ReadHeader(mem: Memory, header: Descriptor): Option<(nat, nat)> {
    if header.len < HEADER_BYTES || header.addr + HEADER_BYTES > |mem| then None
    else Some((Decode(mem[header.addr..header.addr + 4]), Decode(mem[header.addr + 8..header.addr + 16])))
  }

  /** The chain's last descriptor takes the status byte if it is writable and one byte long. */
  predicate HasStatus(chain: seq<Descriptor>) {
    chain != [] && chain[|chain| - 1].len == 1 && chain[|chain| - 1].IsWritable()
  }

  function DataOf(chain: seq<Descriptor>): seq<Descriptor> {
    if HasStatus(chain) then chain[..|chain| - 1] else chain
  }

  /** The walk along the chain that starts at `head` comes to an end. */
  predicate Ends(q: Queue, mem: Memory, head: nat) {
    ReadDescriptor(q, mem, head).Some? ==> Chain(q, mem, ReadDescriptor(q, mem, head).value, q.num).Some?
  }

  /** The descriptors after the header; none when there is no header. */
  function ChainOf(q: Queue, mem: Memory, head: nat): seq<Descriptor>
    requires Ends(q, mem, head)
  {
    match ReadDescriptor(q, mem, head)
    case None => []
    case Some(header) => Chain(q, mem, header, q.num).value
  }

  // ---------------------------------------------------------- the request

  function Dispatch(mem: Memory, disk: Disk, kind: nat, sector: nat, data: seq<Descriptor>): (h: Handled)
    ensures |h.mem| == |mem|
  {
    if kind == TYPE_IN then
      var r := HandleRead(disk, mem, SectorOffset(sector), data);
      Handled(r.mem, disk, if r.ok then STATUS_OK else STATUS_IOERR, CompletedIo(Read, r.total))
    else if kind == TYPE_OUT then
      var r := HandleWrite(mem, disk, SectorOffset(sector), data);
      Handled(mem, r.disk, if r.ok then STATUS_OK else STATUS_IOERR, CompletedIo(Write, r.total))
    else if kind == TYPE_FLUSH then
      Handled(mem, disk, STATUS_OK, CompletedIo(Flush, 0))
    else
      Handled(mem, disk, STATUS_UNSUPP, CompletedIo(Read, 0))
  }

  /** One status byte if there is room for it, and a read's bytes: a saturating 32-bit sum of a truncated count. */
  function UsedLength(status: bool, io: CompletedIo): (n: nat)
    ensures n < U32_LIMIT
  {
    var s := if status then 1 else 0;
    if io.op != Read then s else Smaller(s + io.bytes % 0x1_0000_0000, U32_LIMIT - 1)
  }

  function WriteStatus(mem: Memory, chain: seq<Descriptor>, status: byte): (r: Memory)
    ensures |r| == |mem|
  {
    if HasStatus(chain) then WriteGuest(mem, chain[|chain| - 1].addr, [status]) else mem
  }

  function Process(q: Queue, mem: Memory, disk: Disk, head: nat): (o: Outcome)
    requires Ends(q, mem, head)
    ensures |o.mem| == |mem| && o.usedLen < U32_LIMIT
  {
    match ReadDescriptor(q, mem, head)
    case None => Outcome(mem, disk, 0, None)
    case Some(header) =>
      match ReadHeader(mem, header)
      case None => Outcome(mem, disk, 0, None)
      case Some((kind, sector)) =>
        var chain := ChainOf(q, mem, head);
        var h := Dispatch(mem, disk, kind, sector, DataOf(chain));
        Outcome(WriteStatus(h.mem, chain, h.status), h.disk, UsedLength(HasStatus(chain), h.io), Some(h.io))
  }

  // ------------------------------------------------------------- footprint

  /** A request, well-formed or not, changes guest memory only inside its chain's writable buffers. */
  lemma ProcessStaysInBuffers(q: Queue, mem: Memory, disk: Disk, head: nat, p: nat)
    requires Ends(q, mem, head) && p < |mem| && Spared(ChainOf(q, mem, head), p)
    ensures Process(q, mem, disk, head).mem[p] == mem[p]
  {
    var header := ReadDescriptor(q, mem, head);
    if header.Some? && ReadHeader(mem, header.value).Some? {
      var (kind, sector) := ReadHeader(mem, header.value).value;
      var chain := ChainOf(q, mem, head);
      assert Spared(DataOf(chain), p);
      InStaysInBuffers(disk, mem, SectorOffset(sector), DataOf(chain), p);
      var h := Dispatch(mem, disk, kind, sector, DataOf(chain));
      if HasStatus(chain) {
        WriteGuestAt(h.mem, chain[|chain| - 1].addr, [h.status], p);
      }
    }
  }

  // ----------------------------------------------------------- used length

  /** An IN request that fails has served a prefix of its descriptors completely and nothing after them. */
  lemma {:induction false} InServesPrefix(disk: Disk, mem: Memory, offset: nat, descs: seq<Descriptor>)
      returns (n: nat)
    ensures n <= |descs|
    ensures var r := HandleRead(disk, mem, offset, descs);
            && HandleRead(disk, mem, offset, descs[..n]) == ReadOutcome(r.mem, r.total, true)
            && (r.ok <==> n == |descs|)
    decreases descs
  {
    n := 0;
    if descs != [] {
      var d := descs[0];
      if !d.IsWritable() {
        var k := InServesPrefix(disk, mem, offset, descs[1..]);
        n := k + 1;
      } else if CanRead(disk, offset, d.len) && d.addr < |mem| {
        var mem1 := WriteGuest(mem, d.addr, FileBytes(disk, offset, d.len));
        var k := InServesPrefix(disk, mem1, offset + d.len, descs[1..]);
        n := k + 1;
      }
      if n > 0 {
        assert descs[..n][0] == d && descs[..n][1..] == descs[1..][..n - 1];
      }
    }
  }

  /** What a served request reports lies in the file, unless it is empty. */
  lemma {:induction false} ServedWithinFile(disk: Disk, mem: Memory, offset: nat, descs: seq<Descriptor>)
    requires HandleRead(disk, mem, offset, descs).ok
    ensures HandleRead(disk, mem, offset, descs).total == TotalLength(descs, true)
    ensures TotalLength(descs, true) > 0 ==> offset + TotalLength(descs, true) <= |disk|
    decreases descs
  {
    if descs != [] {
      var d := descs[0];
      if !d.IsWritable() {
        ServedWithinFile(disk, mem, offset, descs[1..]);
      } else {
        ServedWithinFile(disk, WriteGuest(mem, d.addr, FileBytes(disk, offset, d.len)), offset + d.len, descs[1..]);
      }
    }
  }

  /** Bytes that the writable buffers can take in a guest memory of `size` bytes. */
  function Room(size: nat, descs: seq<Descriptor>): nat {
    if descs == [] then 0
    else
      (if descs[0].IsWritable() && descs[0].addr < size then Smaller(descs[0].len, size - descs[0].addr) else 0)
      + Room(size, descs[1..])
  }

  predicate FitsOne(size: nat, d: Descriptor) {
    d.IsWritable() && d.len > 0 ==> d.addr + d.len <= size
  }

  ghost predicate Fits(size: nat, descs: seq<Descriptor>) {
    forall i | 0 <= i < |descs| :: FitsOne(size, descs[i])
  }

  lemma {:induction false} RoomIffFits(size: nat, descs: seq<Descriptor>)
    ensures Room(size, descs) <= TotalLength(descs, true)
    ensures Room(size, descs) == TotalLength(descs, true) <==> Fits(size, descs)
  {
    if descs != [] {
      RoomIffFits(size, descs[1..]);
      assert Fits(size, descs) <==> FitsOne(size, descs[0]) && Fits(size, descs[1..]) by {
        FitsSplits(size, descs);
      }
    }
  }

  lemma FitsSplits(size: nat, descs: seq<Descriptor>)
    requires descs != []
    ensures Fits(size, descs) <==> FitsOne(size, descs[0]) && Fits(size, descs[1..])
  {
    var rest := descs[1..];
    if Fits(size, descs) {
      forall i | 0 <= i < |rest| ensures FitsOne(size, rest[i]) { assert rest[i] == descs[i + 1]; }
    }
    if FitsOne(size, descs[0]) && Fits(size, rest) {
      forall i | 0 <= i < |descs| ensures FitsOne(size, descs[i]) {
        if i > 0 { assert descs[i] == rest[i - 1]; }
      }
    }
  }

  /** A request whose header can be read and whose chain ends in a status byte. */
  predicate WellFormed(q: Queue, mem: Memory, head: nat) {
    HeaderOk(q, mem, head) && HasStatus(ChainOf(q, mem, head))
  }

  function KindOf(q: Queue, mem: Memory, head: nat): nat
    requires WellFormed(q, mem, head)
  {
    ReadHeader(mem, ReadDescriptor(q, mem, head).value).value.0
  }

  function OffsetOf(q: Queue, mem: Memory, head: nat): nat
    requires WellFormed(q, mem, head)
  {
    SectorOffset(ReadHeader(mem, ReadDescriptor(q, mem, head).value).value.1)
  }

  function BuffersOf(q: Queue, mem: Memory, head: nat): seq<Descriptor>
    requires WellFormed(q, mem, head)
  {
    DataOf(ChainOf(q, mem, head))
  }

  /** A request whose header can be read; the others report nothing and store nothing. */
  predicate HeaderOk(q: Queue, mem: Memory, head: nat) {
    && ReadDescriptor(q, mem, head).Some? && Ends(q, mem, head)
    && ReadHeader(mem, ReadDescriptor(q, mem, head).value).Some?
  }

  /** How many of a request's data descriptors are served in full by an IN request; no other request fills any. */
  ghost predicate Serves(q: Queue, mem: Memory, disk: Disk, head: nat, n: nat)
    requires HeaderOk(q, mem, head)
  {
    var data := DataOf(ChainOf(q, mem, head));
    var (kind, sector) := ReadHeader(mem, ReadDescriptor(q, mem, head).value).value;
    && n <= |data|
    && if kind != TYPE_IN then n == 0
       else
         var whole, part := HandleRead(disk, mem, SectorOffset(sector), data),
                            HandleRead(disk, mem, SectorOffset(sector), data[..n]);
         part == ReadOutcome(whole.mem, whole.total, true) && (whole.ok <==> n == |data|)
  }

  /** Status bytes that a chain asks for, and those that guest memory can take. */
  function StatusBytes(chain: seq<Descriptor>): nat { if HasStatus(chain) then 1 else 0 }

  predicate StatusInside(size: nat, chain: seq<Descriptor>) {
    HasStatus(chain) ==> chain[|chain| - 1].addr < size
  }

  /** The bytes of guest memory that a request stores to: its served buffers and its status, as far as they fit. */
  function Stored(size: nat, chain: seq<Descriptor>, n: nat): nat
    requires n <= |DataOf(chain)|
  {
    Room(size, DataOf(chain)[..n]) + if StatusInside(size, chain) then StatusBytes(chain) else 0
  }

  /** The bytes a request means to store. */
  function Meant(chain: seq<Descriptor>, n: nat): nat
    requires n <= |DataOf(chain)|
  {
    TotalLength(DataOf(chain)[..n], true) + StatusBytes(chain)
  }

  /**
   The used length of a request of any type, with or without a status byte. It
   is the number of bytes stored in guest memory exactly when the served buffers
   and the status byte lie in guest memory, as long as the 32-bit sum does not
   saturate; and when they do, exactly when it does not.
   */
  lemma UsedLengthIsStored(q: Queue, mem: Memory, disk: Disk, head: nat) returns (n: nat)
    requires HeaderOk(q, mem, head)
    ensures Serves(q, mem, disk, head, n)
    ensures var chain, usedLen := ChainOf(q, mem, head), Process(q, mem, disk, head).usedLen;
            var fits := Fits(|mem|, DataOf(chain)[..n]) && StatusInside(|mem|, chain);
            && (Meant(chain, n) < U32_LIMIT ==> (usedLen == Stored(|mem|, chain, n) <==> fits))
            && (fits ==> (usedLen == Stored(|mem|, chain, n) <==> Meant(chain, n) < U32_LIMIT))
  {
    var chain := ChainOf(q, mem, head);
    var data := DataOf(chain);
    var (kind, sector) := ReadHeader(mem, ReadDescriptor(q, mem, head).value).value;
    n := 0;
    if kind == TYPE_IN {
      n := InServesPrefix(disk, mem, SectorOffset(sector), data);
      ServedWithinFile(disk, mem, SectorOffset(sector), data[..n]);
    }
    RoomIffFits(|mem|, data[..n]);
    UsedLengthSums(HasStatus(chain), Dispatch(mem, disk, kind, sector, data).io, TotalLength(data[..n], true));
  }

  /** Without saturation the used length is the sum of status and data bytes. */
  lemma UsedLengthSums(status: bool, io: CompletedIo, t: nat)
    requires t == if io.op == Read then io.bytes else 0
    ensures var m := t + if status then 1 else 0;
            UsedLength(status, io) == m <==> m < U32_LIMIT
  {
  }

  /**
   Neither half of that can be dropped: when the sum wraps and buffers stick
   out, the two errors can cancel. Here 2^32 + 3 bytes are meant and 4 are stored.
   */
  lemma WrappedCountCanAgree(size: nat)
    requires size >= 4
    ensures var d := (len: nat) => Descriptor(size - 1, len, 2, 0);
            var served := [d(0x8000_0000), d(0x8000_0000), d(3)];
            && TotalLength(served, true) == 0x1_0000_0003 && !Fits(size, served)
            && UsedLength(true, CompletedIo(Read, TotalLength(served, true))) == Room(size, served) + 1
  {
    var d := (len: nat) => Descriptor(size - 1, len, 2, 0);
    var served := [d(0x8000_0000), d(0x8000_0000), d(3)];
    var two, one := served[1..], served[1..][1..];
    assert one[1..] == [];
    assert TotalLength(one, true) == 3 && Room(size, one) == 1;
    assert TotalLength(two, true) == 0x8000_0003 && Room(size, two) == 2;
    RoomIffFits(size, served);
  }

  /** A descriptor whose four numbers are single bytes. */
  lemma SmallDescriptor(q: Queue, mem: Memory, index: nat, raw: seq<byte>)
    requires index < q.num && q.descTable + index * 16 + 16 <= |mem|
    requires raw == mem[q.descTable + index * 16..q.descTable + index * 16 + 16]
    requires forall k | 0 <= k < 16 && k !in {0, 8, 12, 14} :: raw[k] == 0
    ensures ReadDescriptor(q, mem, index) == Some(Descriptor(raw[0], raw[8], raw[12], raw[14]))
  {
    var a := q.descTable + index * 16;
    assert mem[a..a + 8] == raw[..8] && mem[a + 8..a + 12] == raw[8..12];
    assert mem[a + 12..a + 14] == raw[12..14] && mem[a + 14..a + 16] == raw[14..16];
    DecodeLowByte(raw[..8]);
    DecodeLowByte(raw[8..12]);
    DecodeLowByte(raw[12..14]);
    DecodeLowByte(raw[14..16]);
  }

  ghost const HEADER_BITS: seq<byte> := [0, 0, 0, 0, 0, 0, 0, 0, 16, 0, 0, 0, 1, 0, 1, 0]
  ghost const STATUS_BITS: seq<byte> := [64, 0, 0, 0, 0, 0, 0, 0, 1, 0, 0, 0, 2, 0, 0, 0]

  /** One byte is reported here and none is stored: the status byte's descriptor points beyond guest memory. */
  lemma StatusOutsideOverreports(disk: Disk)
    ensures var q, mem := Queue(2, 0, 0, 0), HEADER_BITS + STATUS_BITS;
            && HeaderOk(q, mem, 0)
            && Process(q, mem, disk, 0).mem == mem && Process(q, mem, disk, 0).usedLen == 1
  {
    var q, mem := Queue(2, 0, 0, 0), HEADER_BITS + STATUS_BITS;
    var header, status := Descriptor(0, 16, 1, 1), Descriptor(64, 1, 2, 0);
    assert mem[0..16] == HEADER_BITS && mem[16..32] == STATUS_BITS;
    SmallDescriptor(q, mem, 0, HEADER_BITS);
    SmallDescriptor(q, mem, 1, STATUS_BITS);
    ChainOfTwo(q, mem, header, status);
    assert mem[0..4] == [0, 0, 0, 0];
    DecodeZeros(mem[0..4], 0);
    StatusOnly(q, mem, disk, 0, status);
  }

  lemma ChainOfTwo(q: Queue, mem: Memory, header: Descriptor, last: Descriptor)
    requires q.num > 0 && header.HasNext() && ReadDescriptor(q, mem, header.next) == Some(last) && !last.HasNext()
    ensures Chain(q, mem, header, q.num) == Some([last])
  {
    assert Walk(q, mem, last, q.num - 1, [last]) == Some([last]);
    assert [] + [last] == [last];
  }

  /** An IN request without data buffers whose status byte lies outside guest memory. */
  lemma StatusOnly(q: Queue, mem: Memory, disk: Disk, head: nat, status: Descriptor)
    requires HeaderOk(q, mem, head) && ChainOf(q, mem, head) == [status]
    requires ReadHeader(mem, ReadDescriptor(q, mem, head).value).value.0 == TYPE_IN
    requires status.len == 1 && status.IsWritable() && status.addr >= |mem|
    ensures Process(q, mem, disk, head).mem == mem && Process(q, mem, disk, head).usedLen == 1
  {
    assert DataOf([status]) == [];
    StatusStaysOut(mem, [status], STATUS_OK);
  }

  lemma StatusStaysOut(mem: Memory, chain: seq<Descriptor>, code: byte)
    requires !StatusInside(|mem|, chain)
    ensures WriteStatus(mem, chain, code) == mem
  {
  }

  // ------------------------------------------------------------- IN request

  /** What an IN request leaves: its served buffers filled, its status stored, all else as it was. */
  ghost predicate Delivered(mem: Memory, mem': Memory, disk: Disk, offset: nat, served: seq<Descriptor>,
                            status: Descriptor, code: byte)
  {
    && |mem'| == |mem| && AllInside(mem', served, true) && Inside(mem', status)
    && (TotalLength(served, true) > 0 ==> Holds(mem', disk, offset, served))
    && mem'[status.addr] == code
    && forall p | 0 <= p < |mem| && Spared(served, p) && p != status.addr :: mem'[p] == mem[p]
  }

  lemma {:induction false} GatherSame(mem: Memory, mem': Memory, descs: seq<Descriptor>)
    requires |mem'| == |mem| && AllInside(mem, descs, true) && AllInside(mem', descs, true)
    requires forall p | 0 <= p < |mem| && !Spared(descs, p) :: mem'[p] == mem[p]
    ensures Gather(mem', descs, true) == Gather(mem, descs, true)
  {
    if descs != [] {
      var d := descs[0];
      if d.IsWritable() {
        forall p | d.addr <= p < d.addr + d.len ensures mem'[p] == mem[p] { assert Within(descs[0], p); }
        assert mem'[d.addr..d.addr + d.len] == mem[d.addr..d.addr + d.len];
      }
      forall p | 0 <= p < |mem| && !Spared(descs[1..], p) ensures mem'[p] == mem[p] {
        NotSparedTail(descs, p);
      }
      GatherSame(mem, mem', descs[1..]);
    }
  }

  lemma NotSparedTail(descs: seq<Descriptor>, p: nat)
    requires descs != [] && !Spared(descs[1..], p)
    ensures !Spared(descs, p)
  {
    var i :| 0 <= i < |descs| - 1 && descs[1..][i].IsWritable() && Within(descs[1..][i], p);
    assert Within(descs[i + 1], p);
  }

  lemma ServedIsFilled(disk: Disk, mem: Memory, offset: nat, descs: seq<Descriptor>)
    requires AllInside(mem, descs, true) && PairwiseApart(descs) && |disk| < SEEK_LIMIT
    requires HandleRead(disk, mem, offset, descs).ok && TotalLength(descs, true) > 0
    ensures Holds(HandleRead(disk, mem, offset, descs).mem, disk, offset, descs)
  {
    ServedWithinFile(disk, mem, offset, descs);
    InFillsBuffers(disk, mem, offset, descs);
  }

  lemma StatusIsApart(mem: Memory, chain: seq<Descriptor>, n: nat)
    requires HasStatus(chain) && AllInside(mem, chain, true) && PairwiseApart(chain)
    requires n <= |DataOf(chain)|
    ensures var served, status := DataOf(chain)[..n], chain[|chain| - 1];
            && AllInside(mem, served, true) && PairwiseApart(served) && Inside(mem, status)
            && Spared(served, status.addr)
  {
    var served, status := DataOf(chain)[..n], chain[|chain| - 1];
    forall i | 0 <= i < |served| ensures served[i] == chain[i] {
    }
    forall i | 0 <= i < |served| && served[i].IsWritable() ensures !Within(served[i], status.addr) {
      assert Apart(chain[i], chain[|chain| - 1]);
    }
  }

  lemma StatusAfterData(disk: Disk, mem: Memory, offset: nat, data: seq<Descriptor>, status: Descriptor, code: byte)
    requires AllInside(mem, data, true) && PairwiseApart(data) && |disk| < SEEK_LIMIT
    requires Inside(mem, status) && status.len == 1 && Spared(data, status.addr)
    requires HandleRead(disk, mem, offset, data).ok
    ensures Delivered(mem, WriteGuest(HandleRead(disk, mem, offset, data).mem, status.addr, [code]), disk, offset,
                      data, status, code)
  {
    var mem1 := HandleRead(disk, mem, offset, data).mem;
    var mem2 := WriteGuest(mem1, status.addr, [code]);
    forall p | 0 <= p < |mem| ensures mem2[p] == if p == status.addr then code else mem1[p] {
      WriteGuestAt(mem1, status.addr, [code], p);
    }
    if TotalLength(data, true) > 0 {
      ServedIsFilled(disk, mem, offset, data);
      GatherSame(mem1, mem2, data);
    }
    forall p | 0 <= p < |mem| && Spared(data, p) && p != status.addr ensures mem2[p] == mem[p] {
      InStaysInBuffers(disk, mem, offset, data, p);
    }
  }

  /**
   An IN request over disjoint buffers fills a prefix of them, in order, with
   the file's bytes at its sector, stores its status byte, and changes no other
   byte of guest memory. It reports success exactly when it served every buffer.
   */
  lemma InDelivers(q: Queue, mem: Memory, disk: Disk, head: nat) returns (n: nat)
    requires WellFormed(q, mem, head) && KindOf(q, mem, head) == TYPE_IN && |disk| < SEEK_LIMIT
    requires AllInside(mem, ChainOf(q, mem, head), true) && PairwiseApart(ChainOf(q, mem, head))
    ensures var chain, data := ChainOf(q, mem, head), BuffersOf(q, mem, head);
            n <= |data|
            && Delivered(mem, Process(q, mem, disk, head).mem, disk, OffsetOf(q, mem, head), data[..n],
                         chain[|chain| - 1], if n == |data| then STATUS_OK else STATUS_IOERR)
  {
    var chain, offset := ChainOf(q, mem, head), OffsetOf(q, mem, head);
    n := InServesPrefix(disk, mem, offset, DataOf(chain));
    StatusIsApart(mem, chain, n);
    StatusAfterData(disk, mem, offset, DataOf(chain)[..n], chain[|chain| - 1],
                    if n == |DataOf(chain)| then STATUS_OK else STATUS_IOERR);
  }

  // ------------------------------------------------------------- round trip

  /** The bytes an OUT request carries all lie in guest memory and in the reach of the file. */
  ghost predicate Storable(q: Queue, mem: Memory, head: nat) {
    && WellFormed(q, mem, head) && KindOf(q, mem, head) == TYPE_OUT
    && AllInside(mem, BuffersOf(q, mem, head), false)
    && OffsetOf(q, mem, head) + TotalLength(BuffersOf(q, mem, head), false) < SEEK_LIMIT
  }

  ghost function Payload(q: Queue, mem: Memory, head: nat): seq<byte>
    requires Storable(q, mem, head)
  {
    Gather(mem, BuffersOf(q, mem, head), false)
  }

  /** An OUT request stores its payload at its sector, and its status byte is all it writes to guest memory. */
  lemma OutStores(q: Queue, mem: Memory, disk: Disk, head: nat)
    requires Storable(q, mem, head)
    ensures var o := Process(q, mem, disk, head);
            && o.disk == WriteFile(disk, OffsetOf(q, mem, head), Payload(q, mem, head))
            && o.usedLen == 1
            && o.mem == WriteStatus(mem, ChainOf(q, mem, head), STATUS_OK)
            && o.completed == Some(CompletedIo(Write, |Payload(q, mem, head)|))
  {
    OutWritesGather(mem, disk, OffsetOf(q, mem, head), BuffersOf(q, mem, head));
  }

  /** A well-formed IN request that the file can serve in full. */
  ghost predicate Answerable(q: Queue, mem: Memory, size: nat, head: nat) {
    && WellFormed(q, mem, head) && KindOf(q, mem, head) == TYPE_IN
    && AllInside(mem, ChainOf(q, mem, head), true) && PairwiseApart(ChainOf(q, mem, head))
    && OffsetOf(q, mem, head) + TotalLength(BuffersOf(q, mem, head), true) <= size < SEEK_LIMIT
  }

  lemma InFills(q: Queue, mem: Memory, disk: Disk, head: nat)
    requires Answerable(q, mem, |disk|, head)
    ensures Holds(Process(q, mem, disk, head).mem, disk, OffsetOf(q, mem, head), BuffersOf(q, mem, head))
  {
    var chain, offset, data := ChainOf(q, mem, head), OffsetOf(q, mem, head), BuffersOf(q, mem, head);
    assert data[..|data|] == data;
    StatusIsApart(mem, chain, |data|);
    InFillsBuffers(disk, mem, offset, data);
    StatusAfterData(disk, mem, offset, data, chain[|chain| - 1], STATUS_OK);
  }

  /** A request that reads what an earlier request stored gets exactly that, however either is scattered. */
  lemma StoredIsDelivered(q: Queue, mem: Memory, mem': Memory, disk: Disk, out: nat, in_: nat)
    requires Storable(q, mem, out) && Payload(q, mem, out) != []
    requires Answerable(q, mem', |WriteFile(disk, OffsetOf(q, mem, out), Payload(q, mem, out))|, in_)
    requires OffsetOf(q, mem', in_) == OffsetOf(q, mem, out)
    requires TotalLength(BuffersOf(q, mem', in_), true) == |Payload(q, mem, out)|
    ensures var mem'' := Process(q, mem', Process(q, mem, disk, out).disk, in_).mem;
            var buffers := BuffersOf(q, mem', in_);
            AllInside(mem'', buffers, true) && Gather(mem'', buffers, true) == Payload(q, mem, out)
  {
    OutStores(q, mem, disk, out);
    InFills(q, mem', Process(q, mem, disk, out).disk, in_);
    WrittenIsRead(disk, OffsetOf(q, mem, out), Payload(q, mem, out));
  }

  lemma WrittenIsRead(disk: Disk, offset: nat, data: seq<byte>)
    requires data != []
    ensures |WriteFile(disk, offset, data)| >= offset + |data|
    ensures WriteFile(disk, offset, data)[offset..offset + |data|] == data
  {
    WriteFileAt(disk, offset, data);
  }
}
