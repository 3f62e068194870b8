/**
 Block requests as a guest driver writes them: descriptors and request headers
 byte by byte (sections 2.7.5 and 5.2.6 of the VIRTIO specification, version
 1.2), and what the driver finds in memory and in the file afterwards.
 */
module GuestRequests {
  import opened Wrappers
  import opened Words
  import opened Virtqueue
  import opened BlockIo
  import opened Requests
  import Sequences

  // ------------------------------------------------------------ the bytes

  /** Guest memory holds these bytes from `addr` on. */
  ghost predicate Spells(mem: Memory, addr: nat, bytes: seq<byte>) {
    addr + |bytes| <= |mem| && mem[addr..addr + |bytes|] == bytes
  }

  /** Address, length, flags and next index, lowest byte first. */
  function DescriptorBytes(d: Descriptor): (bytes: seq<byte>)
    ensures |bytes| == 16
  {
    Encode(d.addr, 8) + Encode(d.len, 4) + Encode(d.flags, 2) + Encode(d.next, 2)
  }

  /** Request type, a reserved word, and the sector, lowest byte first. */
  function HeaderBytes(kind: nat, reserved: nat, sector: nat): (bytes: seq<byte>)
    ensures |bytes| == 16
  {
    Encode(kind, 4) + Encode(reserved, 4) + Encode(sector, 8)
  }

  predicate FieldsFit(d: Descriptor) {
    d.addr < 0x1_0000_0000_0000_0000 && d.len < 0x1_0000_0000 && d.flags < 0x1_0000 && d.next < 0x1_0000
  }

  lemma Widths()
    ensures Pow256(2) == 0x1_0000 && Pow256(4) == 0x1_0000_0000 && Pow256(8) == 0x1_0000_0000_0000_0000
  {
    assert Pow256(1) == 256 && Pow256(2) == 0x1_0000;
    WordLimits();
  }

  /** A field of what is spelled is read back. */
  lemma FieldReads(mem: Memory, addr: nat, bytes: seq<byte>, at: nat, width: nat, v: nat)
    requires Spells(mem, addr, bytes) && at + width <= |bytes|
    requires bytes[at..at + width] == Encode(v, width) && v < Pow256(width)
    ensures Decode(mem[addr + at..addr + at + width]) == v
  {
    Sequences.SliceOfSlice(mem, addr, addr + |bytes|, at, at + width);
    DecodeEncode(v, width);
  }

  lemma FourParts<T>(a: seq<T>, b: seq<T>, c: seq<T>, d: seq<T>)
    ensures var all, i, j, k := a + b + c + d, |a|, |a| + |b|, |a| + |b| + |c|;
            all[0..i] == a && all[i..j] == b && all[j..k] == c && all[k..k + |d|] == d
  {
  }

  /** A descriptor is read as the driver wrote it, at 16 bytes for each index. */
  lemma DescriptorReads(q: Queue, mem: Memory, index: nat, d: Descriptor)
    requires index < q.num && FieldsFit(d) && Spells(mem, q.descTable + 16 * index, DescriptorBytes(d))
    ensures ReadDescriptor(q, mem, index) == Some(d)
  {
    Widths();
    var a, bytes := q.descTable + 16 * index, DescriptorBytes(d);
    FourParts(Encode(d.addr, 8), Encode(d.len, 4), Encode(d.flags, 2), Encode(d.next, 2));
    FieldReads(mem, a, bytes, 0, 8, d.addr);
    FieldReads(mem, a, bytes, 8, 4, d.len);
    FieldReads(mem, a, bytes, 12, 2, d.flags);
    FieldReads(mem, a, bytes, 14, 2, d.next);
  }

  /** A header is read as the driver wrote it; the reserved word does not matter. */
  lemma HeaderReads(mem: Memory, header: Descriptor, kind: nat, reserved: nat, sector: nat)
    requires kind < 0x1_0000_0000 && reserved < 0x1_0000_0000 && sector < 0x1_0000_0000_0000_0000
    requires header.len >= 16 && Spells(mem, header.addr, HeaderBytes(kind, reserved, sector))
    ensures ReadHeader(mem, header) == Some((kind, sector))
  {
    Widths();
    var bytes := HeaderBytes(kind, reserved, sector);
    FourParts(Encode(kind, 4), Encode(reserved, 4), Encode(sector, 8), []);
    assert bytes + [] == bytes;
    FieldReads(mem, header.addr, bytes, 0, 4, kind);
    FieldReads(mem, header.addr, bytes, 8, 8, sector);
  }

  // ------------------------------------------------------------ the chain

  /** Bit 0 of the flags: another descriptor follows. */
  predicate Continues(d: Descriptor) {
    d.flags % 2 == 1
  }

  /** Bit 1 of the flags: the device writes into this buffer. */
  predicate ForDevice(d: Descriptor) {
    d.flags % 4 >= 2
  }

  lemma FlagBits(d: Descriptor)
    ensures d.HasNext() <==> Continues(d)
    ensures d.IsWritable() <==> ForDevice(d)
  {
    SecondBit(d.flags);
  }

  lemma SecondBit(x: nat)
    ensures (x / 2) % 2 == 1 <==> x % 4 >= 2
  {
    var q, r := x / 4, x % 4;
    assert x == 2 * (2 * q + r / 2) + r % 2;
    assert x / 2 == 2 * q + r / 2;
  }

  /**
   The driver has written the descriptors at these indices of the table, each one
   naming the next; the last names none, or none that the table has.
   */
  ghost predicate Posted(q: Queue, mem: Memory, at: seq<nat>, descs: seq<Descriptor>) {
    && at != [] && |at| == |descs|
    && (forall i | 0 <= i < |at| :: PostedAt(q, mem, at[i], descs[i]))
    && (forall i | 0 <= i < |at| - 1 :: Continues(descs[i]) && descs[i].next == at[i + 1])
    && (!Continues(descs[|at| - 1]) || descs[|at| - 1].next >= q.num)
  }

  ghost predicate PostedAt(q: Queue, mem: Memory, index: nat, d: Descriptor) {
    index < q.num && FieldsFit(d) && Spells(mem, q.descTable + 16 * index, DescriptorBytes(d))
  }

  /** The walk from the `k`th descriptor on collects the rest. */
  ghost predicate WalksFrom(q: Queue, mem: Memory, n: nat, descs: seq<Descriptor>, k: nat) {
    0 < k <= n == |descs| && Walk(q, mem, descs[k - 1], n - k, descs[1..k]) == Some(descs[1..])
  }

  lemma {:induction false} PostedWalk(q: Queue, mem: Memory, at: seq<nat>, descs: seq<Descriptor>, k: nat)
    requires Posted(q, mem, at, descs) && 0 < k <= |at|
    ensures WalksFrom(q, mem, |at|, descs, k)
    decreases |at| - k
  {
    if k < |at| {
      PostedWalk(q, mem, at, descs, k + 1);
      WalkPosted(q, mem, at, descs, k);
    } else {
      WalkEnds(q, mem, at, descs);
    }
  }

  lemma WalkPosted(q: Queue, mem: Memory, at: seq<nat>, descs: seq<Descriptor>, k: nat)
    requires Posted(q, mem, at, descs) && 0 < k < |at| && WalksFrom(q, mem, |at|, descs, k + 1)
    ensures WalksFrom(q, mem, |at|, descs, k)
  {
    WalkOn(q, mem, descs[k - 1], |at| - k, descs[1..k]);
    PostedNext(q, mem, at, descs, k);
    Sequences.SliceNext(descs, 1, k);
  }

  lemma WalkEnds(q: Queue, mem: Memory, at: seq<nat>, descs: seq<Descriptor>)
    requires Posted(q, mem, at, descs)
    ensures WalksFrom(q, mem, |at|, descs, |at|)
  {
    WalkOn(q, mem, descs[|at| - 1], 0, descs[1..|at|]);
    PostedLast(q, mem, at, descs);
    assert descs[1..|at|] == descs[1..];
  }

  lemma PostedLast(q: Queue, mem: Memory, at: seq<nat>, descs: seq<Descriptor>)
    requires Posted(q, mem, at, descs)
    ensures !descs[|at| - 1].HasNext() || ReadDescriptor(q, mem, descs[|at| - 1].next).None?
  {
    FlagBits(descs[|at| - 1]);
  }

  lemma WalkOn(q: Queue, mem: Memory, d: Descriptor, fuel: nat, seen: seq<Descriptor>)
    ensures !d.HasNext() || ReadDescriptor(q, mem, d.next).None? ==> Walk(q, mem, d, fuel, seen) == Some(seen)
    ensures d.HasNext() && ReadDescriptor(q, mem, d.next).Some? && fuel > 0 ==>
              var next := ReadDescriptor(q, mem, d.next).value;
              Walk(q, mem, d, fuel, seen) == Walk(q, mem, next, fuel - 1, seen + [next])
  {
  }

  lemma PostedNext(q: Queue, mem: Memory, at: seq<nat>, descs: seq<Descriptor>, k: nat)
    requires Posted(q, mem, at, descs) && 0 < k < |at|
    ensures descs[k - 1].HasNext() && ReadDescriptor(q, mem, descs[k - 1].next) == Some(descs[k])
  {
    FlagBits(descs[k - 1]);
    assert PostedAt(q, mem, at[k], descs[k]) && descs[k - 1].next == at[k];
    DescriptorReads(q, mem, at[k], descs[k]);
  }

  /** How many steps a walk may take does not matter once they are enough. */
  lemma {:induction false} EnoughSteps(q: Queue, mem: Memory, d: Descriptor, f: nat, g: nat, seen: seq<Descriptor>)
    requires Walk(q, mem, d, f, seen).Some? && Walk(q, mem, d, g, seen).Some?
    ensures Walk(q, mem, d, f, seen) == Walk(q, mem, d, g, seen)
    decreases f
  {
    if d.HasNext() && ReadDescriptor(q, mem, d.next).Some? {
      var next := ReadDescriptor(q, mem, d.next).value;
      EnoughSteps(q, mem, next, f - 1, g - 1, seen + [next]);
    }
  }

  /** The device follows the chain as the driver linked it. */
  lemma ChainReads(q: Queue, mem: Memory, at: seq<nat>, descs: seq<Descriptor>)
    requires Posted(q, mem, at, descs)
    ensures ReadDescriptor(q, mem, at[0]) == Some(descs[0])
    ensures Ends(q, mem, at[0]) && ChainOf(q, mem, at[0]) == descs[1..]
  {
    assert PostedAt(q, mem, at[0], descs[0]);
    DescriptorReads(q, mem, at[0], descs[0]);
    PostedWalk(q, mem, at, descs, 1);
    assert descs[1..1] == [];
    ChainEndsWithinQueue(q, mem, descs[0], |at| - 1);
    EnoughSteps(q, mem, descs[0], |at| - 1, q.num, []);
  }

  // ---------------------------------------------------------- the request

  /** A request as the driver lays it out: a header, data buffers, and a byte for the status. */
  ghost predicate Request(q: Queue, mem: Memory, at: seq<nat>, header: Descriptor, data: seq<Descriptor>,
                          status: Descriptor, kind: nat, reserved: nat, sector: nat) {
    && Posted(q, mem, at, [header] + data + [status])
    && header.len >= 16 && Spells(mem, header.addr, HeaderBytes(kind, reserved, sector))
    && kind < 0x1_0000_0000 && reserved < 0x1_0000_0000 && sector < 0x1_0000_0000_0000_0000
    && status.len == 1 && ForDevice(status)
  }

  lemma RequestReads(q: Queue, mem: Memory, at: seq<nat>, header: Descriptor, data: seq<Descriptor>,
                     status: Descriptor, kind: nat, reserved: nat, sector: nat)
    requires Request(q, mem, at, header, data, status, kind, reserved, sector)
    ensures WellFormed(q, mem, at[0]) && ChainOf(q, mem, at[0]) == data + [status]
    ensures BuffersOf(q, mem, at[0]) == data
    ensures ReadHeader(mem, ReadDescriptor(q, mem, at[0]).value) == Some((kind, sector))
  {
    var descs := [header] + data + [status];
    ChainReads(q, mem, at, descs);
    AllButFirst(header, data, status);
    HeaderReads(mem, header, kind, reserved, sector);
    FlagBits(status);
  }

  lemma AllButFirst(header: Descriptor, data: seq<Descriptor>, status: Descriptor)
    ensures var descs := [header] + data + [status];
            && descs[0] == header && descs[1..] == data + [status]
            && (data + [status])[..|data|] == data && (data + [status])[|data|] == status
  {
  }

  /** The bytes of a buffer that the device reads: what lies beyond guest memory counts as zeros. */
  function Filled(mem: Memory, d: Descriptor): (bytes: seq<byte>)
    ensures |bytes| == d.len
  {
    if d.addr + d.len <= |mem| then mem[d.addr..d.addr + d.len]
    else if d.addr <= |mem| then mem[d.addr..] + seq(d.addr + d.len - |mem|, _ => 0)
    else seq(d.len, _ => 0)
  }

  /** The bytes that the device reads for a write, buffer by buffer. */
  function Outgoing(mem: Memory, descs: seq<Descriptor>): seq<byte> {
    if descs == [] then []
    else if ForDevice(descs[0]) then Outgoing(mem, descs[1..])
    else Filled(mem, descs[0]) + Outgoing(mem, descs[1..])
  }

  /** Every buffer that the device reads begins in guest memory. */
  ghost predicate BuffersBegin(mem: Memory, descs: seq<Descriptor>) {
    forall i | 0 <= i < |descs| :: Begins(mem, descs[i])
  }

  predicate Begins(mem: Memory, d: Descriptor) {
    ForDevice(d) || d.addr < |mem|
  }

  lemma BufferReads(mem: Memory, d: Descriptor)
    requires d.addr < |mem|
    ensures ReadGuest(mem, d.addr, d.len) == Some(Filled(mem, d))
  {
  }

  lemma {:induction false} OutgoingLength(mem: Memory, descs: seq<Descriptor>)
    ensures |Outgoing(mem, descs)| == TotalLength(descs, false)
  {
    if descs != [] {
      FlagBits(descs[0]);
      OutgoingLength(mem, descs[1..]);
    }
  }

  /** The first buffer of a write. */
  lemma FirstIsSent(mem: Memory, offset: nat, descs: seq<Descriptor>)
    requires descs != [] && Begins(mem, descs[0]) && offset < SEEK_LIMIT
    ensures Sent(mem, offset, descs)
            == if ForDevice(descs[0]) then Sent(mem, offset, descs[1..])
               else Filled(mem, descs[0]) + Sent(mem, offset + descs[0].len, descs[1..])
  {
    FlagBits(descs[0]);
    if !ForDevice(descs[0]) {
      BufferReads(mem, descs[0]);
    }
  }

  /** Where the bytes after a buffer's go. */
  function NextOffset(offset: nat, d: Descriptor): nat {
    if ForDevice(d) then offset else offset + d.len
  }

  /** `part` are the buffers of `descs` whose bytes are sent. */
  lemma FirstOutgoingIsSent(mem: Memory, offset: nat, descs: seq<Descriptor>, part: seq<Descriptor>)
    requires descs != [] && Begins(mem, descs[0]) && offset < SEEK_LIMIT && part != [] && part[0] == descs[0]
    requires Sent(mem, NextOffset(offset, descs[0]), descs[1..]) == Outgoing(mem, part[1..])
    ensures Sent(mem, offset, descs) == Outgoing(mem, part)
  {
    FirstIsSent(mem, offset, descs);
  }

  lemma LengthOfFirst(descs: seq<Descriptor>)
    requires descs != []
    ensures TotalLength(descs, false) == TotalLength(descs[1..], false) + if ForDevice(descs[0]) then 0 else descs[0].len
  {
    FlagBits(descs[0]);
  }

  lemma {:induction false} OutgoingIsSent(mem: Memory, offset: nat, descs: seq<Descriptor>)
    requires BuffersBegin(mem, descs) && offset + TotalLength(descs, false) < SEEK_LIMIT
    ensures Sent(mem, offset, descs) == Outgoing(mem, descs)
    decreases descs
  {
    if descs != [] {
      LengthOfFirst(descs);
      OutgoingIsSent(mem, NextOffset(offset, descs[0]), descs[1..]);
      FirstOutgoingIsSent(mem, offset, descs, descs);
    }
  }

  lemma {:induction false} OutgoingSucceeds(mem: Memory, disk: Disk, offset: nat, descs: seq<Descriptor>)
    requires BuffersBegin(mem, descs) && offset + TotalLength(descs, false) < SEEK_LIMIT
    ensures HandleWrite(mem, disk, offset, descs).ok
    decreases descs
  {
    if descs != [] {
      FlagBits(descs[0]);
      if descs[0].IsWritable() {
        OutgoingSucceeds(mem, disk, offset, descs[1..]);
      } else {
        var data := ReadGuest(mem, descs[0].addr, descs[0].len).value;
        OutgoingSucceeds(mem, WriteFile(disk, offset, data), offset + descs[0].len, descs[1..]);
      }
    }
  }

  /** The bytes in the buffers for the device, one after the other. */
  function Incoming(mem: Memory, descs: seq<Descriptor>): seq<byte>
    requires BuffersInside(mem, descs)
  {
    if descs == [] then []
    else
      var d := descs[0];
      RestInside(mem, descs);
      (if ForDevice(d) then mem[d.addr..d.addr + d.len] else []) + Incoming(mem, descs[1..])
  }

  ghost predicate BuffersInside(mem: Memory, descs: seq<Descriptor>) {
    forall i | 0 <= i < |descs| && ForDevice(descs[i]) ::
      descs[i].addr < |mem| && descs[i].addr + descs[i].len <= |mem|
  }

  lemma InsideIsInside(mem: Memory, descs: seq<Descriptor>)
    ensures BuffersInside(mem, descs) <==> AllInside(mem, descs, true)
  {
    forall i | 0 <= i < |descs| ensures descs[i].IsWritable() <==> ForDevice(descs[i]) {
      FlagBits(descs[i]);
    }
  }

  lemma RestInside(mem: Memory, descs: seq<Descriptor>)
    requires descs != [] && BuffersInside(mem, descs)
    ensures BuffersInside(mem, descs[1..])
  {
    forall i | 0 <= i < |descs| - 1 && ForDevice(descs[1..][i])
      ensures descs[1..][i].addr < |mem| && descs[1..][i].addr + descs[1..][i].len <= |mem|
    {
      assert descs[1..][i] == descs[i + 1];
    }
  }

  /** The first buffer of a read request. */
  lemma FirstIncoming(mem: Memory, descs: seq<Descriptor>)
    requires descs != [] && BuffersInside(mem, descs) && AllInside(mem, descs, true)
    ensures BuffersInside(mem, descs[1..]) && AllInside(mem, descs[1..], true)
    ensures Gather(mem, descs[1..], true) == Incoming(mem, descs[1..]) ==>
              Gather(mem, descs, true) == Incoming(mem, descs)
  {
    RestInside(mem, descs);
    InsideIsInside(mem, descs[1..]);
    FlagBits(descs[0]);
    if !ForDevice(descs[0]) {
      assert [] + Incoming(mem, descs[1..]) == Incoming(mem, descs[1..]);
    }
  }

  lemma {:induction false} IncomingIsGathered(mem: Memory, descs: seq<Descriptor>)
    requires BuffersInside(mem, descs)
    ensures AllInside(mem, descs, true) && Gather(mem, descs, true) == Incoming(mem, descs)
    ensures |Incoming(mem, descs)| == TotalLength(descs, true)
  {
    InsideIsInside(mem, descs);
    if descs != [] {
      FirstIncoming(mem, descs);
      IncomingIsGathered(mem, descs[1..]);
    }
  }

  /** One byte of guest memory was set, and nothing else. */
  ghost predicate OnlyByte(mem: Memory, mem': Memory, addr: nat, v: byte) {
    |mem'| == |mem| && forall p | 0 <= p < |mem| :: mem'[p] == if p == addr then v else mem[p]
  }

  lemma StatusIsOnlyByte(mem: Memory, chain: seq<Descriptor>, v: byte)
    requires HasStatus(chain)
    ensures OnlyByte(mem, WriteStatus(mem, chain, v), chain[|chain| - 1].addr, v)
  {
  }

  /** The byte at which a sector begins: 512 times its number, as a 64-bit product. */
  function SectorStart(sector: nat): nat {
    512 * sector % 0x1_0000_0000_0000_0000
  }

  lemma SectorStarts(sector: nat)
    ensures SectorOffset(sector) == SectorStart(sector)
    ensures sector < 0x80_0000_0000_0000 ==> SectorStart(sector) == 512 * sector
  {
  }

  // ----------------------------------------------------- what the guest finds

  /** The file with the bytes at this position, or as it was when there are none. */
  ghost predicate FileHas(disk: Disk, disk': Disk, offset: nat, bytes: seq<byte>) {
    if bytes == [] then disk' == disk else IsWritten(disk, offset, bytes, disk')
  }

  /**
   A write request of any layout: the bytes of its readable buffers stand in the
   file from the start of the sector on, everything else in the file is kept,
   and the status byte, 0, is all that changes in guest memory.
   */
  lemma GuestWrites(q: Queue, mem: Memory, disk: Disk, at: seq<nat>, header: Descriptor, data: seq<Descriptor>,
                    status: Descriptor, reserved: nat, sector: nat) returns (o: Outcome)
    requires Request(q, mem, at, header, data, status, 1, reserved, sector) && BuffersBegin(mem, data)
    requires SectorStart(sector) + |Outgoing(mem, data)| < 0x8000_0000_0000_0000
    ensures Ends(q, mem, at[0]) && o == Process(q, mem, disk, at[0])
    ensures FileHas(disk, o.disk, SectorStart(sector), Outgoing(mem, data)) && OnlyByte(mem, o.mem, status.addr, 0)
    ensures o.usedLen == 1 && o.completed == Some(CompletedIo(Write, |Outgoing(mem, data)|))
  {
    RequestReads(q, mem, at, header, data, status, 1, reserved, sector);
    SectorStarts(sector);
    o := Process(q, mem, disk, at[0]);
    OutIsStored(q, mem, disk, at[0], data, status, SectorStart(sector));
    FileTakes(disk, SectorStart(sector), Outgoing(mem, data));
  }

  lemma FileTakes(disk: Disk, offset: nat, bytes: seq<byte>)
    ensures FileHas(disk, WriteFile(disk, offset, bytes), offset, bytes)
  {
    if bytes != [] {
      WriteFileAt(disk, offset, bytes);
    }
  }

  lemma OutIsStored(q: Queue, mem: Memory, disk: Disk, head: nat, data: seq<Descriptor>, status: Descriptor, offset: nat)
    requires WellFormed(q, mem, head) && KindOf(q, mem, head) == TYPE_OUT && OffsetOf(q, mem, head) == offset
    requires ChainOf(q, mem, head) == data + [status] && BuffersOf(q, mem, head) == data
    requires BuffersBegin(mem, data) && offset + |Outgoing(mem, data)| < SEEK_LIMIT
    ensures var o := Process(q, mem, disk, head);
            && o.disk == WriteFile(disk, offset, Outgoing(mem, data)) && OnlyByte(mem, o.mem, status.addr, 0)
            && o.usedLen == 1 && o.completed == Some(CompletedIo(Write, |Outgoing(mem, data)|))
  {
    OutgoingIsHandled(mem, disk, offset, data);
    assert (data + [status])[|data|] == status;
    StatusIsOnlyByte(mem, data + [status], 0);
  }

  lemma OutgoingIsHandled(mem: Memory, disk: Disk, offset: nat, data: seq<Descriptor>)
    requires BuffersBegin(mem, data) && offset + |Outgoing(mem, data)| < SEEK_LIMIT
    ensures HandleWrite(mem, disk, offset, data)
            == WriteOutcome(WriteFile(disk, offset, Outgoing(mem, data)), |Outgoing(mem, data)|, true)
  {
    OutgoingLength(mem, data);
    OutgoingIsSent(mem, offset, data);
    OutgoingSucceeds(mem, disk, offset, data);
    OutWritesSent(mem, disk, offset, data);
    OutReportsSent(mem, disk, offset, data);
  }

  /** A buffer that a write reads, and that begins outside guest memory, after others that begin inside. */
  ghost predicate FirstMissing(mem: Memory, descs: seq<Descriptor>, n: nat) {
    n < |descs| && !Begins(mem, descs[n]) && forall i | 0 <= i < n :: Begins(mem, descs[i])
  }

  /** What the buffers before the `n`th carry. */
  function Upto(mem: Memory, descs: seq<Descriptor>, n: nat): seq<byte>
    requires n <= |descs|
  {
    Outgoing(mem, descs[..n])
  }

  lemma RestMissing(mem: Memory, descs: seq<Descriptor>, n: nat)
    requires FirstMissing(mem, descs, n) && n > 0
    ensures FirstMissing(mem, descs[1..], n - 1) && descs[..n][0] == descs[0] && descs[..n][1..] == descs[1..][..n - 1]
  {
    assert descs[1..][n - 1] == descs[n];
    forall i | 0 <= i < n - 1 ensures Begins(mem, descs[1..][i]) {
      assert descs[1..][i] == descs[i + 1];
    }
  }

  lemma {:induction false} SendingStops(mem: Memory, offset: nat, descs: seq<Descriptor>, n: nat)
    requires FirstMissing(mem, descs, n) && offset + TotalLength(descs[..n], false) < SEEK_LIMIT
    ensures Sent(mem, offset, descs) == Upto(mem, descs, n)
    decreases descs
  {
    if n == 0 {
      FlagBits(descs[0]);
    } else {
      RestMissing(mem, descs, n);
      LengthOfFirst(descs[..n]);
      SendingStops(mem, NextOffset(offset, descs[0]), descs[1..], n - 1);
      FirstOutgoingIsSent(mem, offset, descs, descs[..n]);
    }
  }

  lemma {:induction false} MissingFails(mem: Memory, disk: Disk, offset: nat, descs: seq<Descriptor>, n: nat)
    requires FirstMissing(mem, descs, n)
    ensures !HandleWrite(mem, disk, offset, descs).ok
    decreases descs
  {
    FlagBits(descs[0]);
    if n > 0 {
      RestMissing(mem, descs, n);
      if descs[0].IsWritable() {
        MissingFails(mem, disk, offset, descs[1..], n - 1);
      } else if offset < SEEK_LIMIT {
        var data := ReadGuest(mem, descs[0].addr, descs[0].len).value;
        MissingFails(mem, WriteFile(disk, offset, data), offset + descs[0].len, descs[1..], n - 1);
      }
    }
  }

  /** A write with a buffer that begins outside guest memory: what comes before it is stored, and the status byte is 1. */
  lemma GuestWriteFails(q: Queue, mem: Memory, disk: Disk, at: seq<nat>, header: Descriptor, data: seq<Descriptor>,
                        status: Descriptor, reserved: nat, sector: nat, n: nat) returns (o: Outcome)
    requires Request(q, mem, at, header, data, status, 1, reserved, sector) && FirstMissing(mem, data, n)
    requires SectorStart(sector) + |Upto(mem, data, n)| < 0x8000_0000_0000_0000
    ensures Ends(q, mem, at[0]) && o == Process(q, mem, disk, at[0])
    ensures FileHas(disk, o.disk, SectorStart(sector), Upto(mem, data, n)) && OnlyByte(mem, o.mem, status.addr, 1)
    ensures o.usedLen == 1 && o.completed == Some(CompletedIo(Write, |Upto(mem, data, n)|))
  {
    RequestReads(q, mem, at, header, data, status, 1, reserved, sector);
    SectorStarts(sector);
    o := Process(q, mem, disk, at[0]);
    OutIsCutShort(q, mem, disk, at[0], data, status, SectorStart(sector), n);
    FileTakes(disk, SectorStart(sector), Upto(mem, data, n));
  }

  lemma OutIsCutShort(q: Queue, mem: Memory, disk: Disk, head: nat, data: seq<Descriptor>, status: Descriptor,
                      offset: nat, n: nat)
    requires WellFormed(q, mem, head) && KindOf(q, mem, head) == TYPE_OUT && OffsetOf(q, mem, head) == offset
    requires ChainOf(q, mem, head) == data + [status] && BuffersOf(q, mem, head) == data
    requires FirstMissing(mem, data, n) && offset + |Upto(mem, data, n)| < SEEK_LIMIT
    ensures var o := Process(q, mem, disk, head);
            && o.disk == WriteFile(disk, offset, Upto(mem, data, n)) && OnlyByte(mem, o.mem, status.addr, 1)
            && o.usedLen == 1 && o.completed == Some(CompletedIo(Write, |Upto(mem, data, n)|))
  {
    OutgoingLength(mem, data[..n]);
    SendingStops(mem, offset, data, n);
    MissingFails(mem, disk, offset, data, n);
    OutWritesSent(mem, disk, offset, data);
    OutReportsSent(mem, disk, offset, data);
    assert (data + [status])[|data|] == status;
    StatusIsOnlyByte(mem, data + [status], 1);
  }

  lemma {:induction false} NothingSentBeyond(mem: Memory, disk: Disk, offset: nat, descs: seq<Descriptor>)
    requires offset >= SEEK_LIMIT
    ensures Sent(mem, offset, descs) == []
    ensures HandleWrite(mem, disk, offset, descs).ok ==> forall i | 0 <= i < |descs| :: ForDevice(descs[i])
    decreases |descs|
  {
    if descs != [] {
      FlagBits(descs[0]);
      if ForDevice(descs[0]) {
        NothingSentBeyond(mem, disk, offset, descs[1..]);
        forall i | 0 <= i < |descs| && HandleWrite(mem, disk, offset, descs).ok ensures ForDevice(descs[i]) {
          assert i > 0 ==> descs[i] == descs[1..][i - 1];
        }
      }
    }
  }

  /** A write at a sector that no file offset reaches: nothing is stored, and the status byte is 1. */
  lemma GuestWriteTooFar(q: Queue, mem: Memory, disk: Disk, at: seq<nat>, header: Descriptor, data: seq<Descriptor>,
                         status: Descriptor, reserved: nat, sector: nat, i: nat) returns (o: Outcome)
    requires Request(q, mem, at, header, data, status, 1, reserved, sector) && i < |data| && !ForDevice(data[i])
    requires SectorStart(sector) >= 0x8000_0000_0000_0000
    ensures Ends(q, mem, at[0]) && o == Process(q, mem, disk, at[0])
    ensures o.disk == disk && OnlyByte(mem, o.mem, status.addr, 1)
  {
    RequestReads(q, mem, at, header, data, status, 1, reserved, sector);
    SectorStarts(sector);
    o := Process(q, mem, disk, at[0]);
    OutIsRefused(q, mem, disk, at[0], data, status, SectorStart(sector), i);
  }

  lemma OutIsRefused(q: Queue, mem: Memory, disk: Disk, head: nat, data: seq<Descriptor>, status: Descriptor, offset: nat,
                     i: nat)
    requires WellFormed(q, mem, head) && KindOf(q, mem, head) == TYPE_OUT && OffsetOf(q, mem, head) == offset
    requires ChainOf(q, mem, head) == data + [status] && BuffersOf(q, mem, head) == data
    requires offset >= SEEK_LIMIT && i < |data| && !ForDevice(data[i])
    ensures var o := Process(q, mem, disk, head); o.disk == disk && OnlyByte(mem, o.mem, status.addr, 1)
  {
    NothingSentBeyond(mem, disk, offset, data);
    OutWritesSent(mem, disk, offset, data);
    assert (data + [status])[|data|] == status;
    StatusIsOnlyByte(mem, data + [status], 1);
  }

  lemma {:induction false} NothingReadBeyond(disk: Disk, mem: Memory, offset: nat, descs: seq<Descriptor>, i: nat)
    requires i < |descs| && ForDevice(descs[i]) && (offset >= SEEK_LIMIT || descs[i].addr >= |mem|)
    ensures !HandleRead(disk, mem, offset, descs).ok
    decreases |descs|
  {
    FlagBits(descs[0]);
    if i > 0 {
      assert descs[i] == descs[1..][i - 1];
      if !ForDevice(descs[0]) {
        NothingReadBeyond(disk, mem, offset, descs[1..], i - 1);
      } else if CanRead(disk, offset, descs[0].len) && descs[0].addr < |mem| {
        var mem1 := WriteGuest(mem, descs[0].addr, FileBytes(disk, offset, descs[0].len));
        NothingReadBeyond(disk, mem1, offset + descs[0].len, descs[1..], i - 1);
      }
    }
  }

  /**
   A read at a sector that no file offset reaches, or with a buffer that begins
   outside guest memory: the status byte is 1, and besides only buffers changed.
   */
  lemma GuestReadRefused(q: Queue, mem: Memory, disk: Disk, at: seq<nat>, header: Descriptor, data: seq<Descriptor>,
                         status: Descriptor, reserved: nat, sector: nat, i: nat) returns (o: Outcome)
    requires Request(q, mem, at, header, data, status, 0, reserved, sector) && status.addr < |mem|
    requires i < |data| && ForDevice(data[i])
    requires SectorStart(sector) >= 0x8000_0000_0000_0000 || data[i].addr >= |mem|
    ensures Ends(q, mem, at[0]) && o == Process(q, mem, disk, at[0])
    ensures o.disk == disk && OnlyBuffers(mem, o.mem, data, status.addr) && o.mem[status.addr] == 1
  {
    RequestReads(q, mem, at, header, data, status, 0, reserved, sector);
    SectorStarts(sector);
    o := Process(q, mem, disk, at[0]);
    NothingReadBeyond(disk, mem, SectorStart(sector), data, i);
    assert (data + [status])[|data|] == status;
    var r := HandleRead(disk, mem, SectorStart(sector), data);
    StatusIsOnlyByte(r.mem, data + [status], 1);
    forall p | 0 <= p < |mem| && p != status.addr && OutsideBuffers(data, p) ensures o.mem[p] == mem[p] {
      OutsideIsSpared(data, p);
      InStaysInBuffers(disk, mem, SectorStart(sector), data, p);
    }
  }

  ghost predicate DeviceBuffersApart(descs: seq<Descriptor>) {
    forall i, j | 0 <= i < j < |descs| && ForDevice(descs[i]) && ForDevice(descs[j]) :: Apart(descs[i], descs[j])
  }

  /** A byte that no buffer for the device covers. */
  ghost predicate OutsideBuffers(descs: seq<Descriptor>, p: nat) {
    forall i | 0 <= i < |descs| && ForDevice(descs[i]) :: p < descs[i].addr || descs[i].addr + descs[i].len <= p
  }

  lemma OutsideIsSpared(descs: seq<Descriptor>, p: nat)
    ensures OutsideBuffers(descs, p) <==> Spared(descs, p)
    ensures DeviceBuffersApart(descs) <==> PairwiseApart(descs)
  {
    forall i | 0 <= i < |descs| ensures descs[i].IsWritable() <==> ForDevice(descs[i]) {
      FlagBits(descs[i]);
    }
    if Spared(descs, p) {
      forall i | 0 <= i < |descs| && ForDevice(descs[i]) ensures p < descs[i].addr || descs[i].addr + descs[i].len <= p {
        assert !Within(descs[i], p);
      }
    }
  }

  /** A read request with room for the answer: its buffers for the device lie in guest memory, apart from each other. */
  ghost predicate ReadRequest(q: Queue, mem: Memory, at: seq<nat>, header: Descriptor, data: seq<Descriptor>,
                              status: Descriptor, reserved: nat, sector: nat) {
    && Request(q, mem, at, header, data, status, 0, reserved, sector)
    && BuffersInside(mem, data + [status]) && DeviceBuffersApart(data + [status])
  }

  /** Nothing changed but the device's buffers and the status byte. */
  ghost predicate OnlyBuffers(mem: Memory, mem': Memory, data: seq<Descriptor>, status: nat) {
    |mem'| == |mem| && forall p | 0 <= p < |mem| && p != status && OutsideBuffers(data, p) :: mem'[p] == mem[p]
  }

  lemma ReadRequestReads(q: Queue, mem: Memory, at: seq<nat>, header: Descriptor, data: seq<Descriptor>,
                         status: Descriptor, reserved: nat, sector: nat)
    requires ReadRequest(q, mem, at, header, data, status, reserved, sector)
    ensures WellFormed(q, mem, at[0]) && ChainOf(q, mem, at[0]) == data + [status]
    ensures BuffersOf(q, mem, at[0]) == data && KindOf(q, mem, at[0]) == TYPE_IN
    ensures OffsetOf(q, mem, at[0]) == SectorOffset(sector)
    ensures AllInside(mem, data + [status], true) && PairwiseApart(data + [status])
    ensures BuffersInside(mem, data)
  {
    RequestReads(q, mem, at, header, data, status, 0, reserved, sector);
    InsideIsInside(mem, data + [status]);
    OutsideIsSpared(data + [status], 0);
    forall i | 0 <= i < |data| && ForDevice(data[i])
      ensures data[i].addr < |mem| && data[i].addr + data[i].len <= |mem|
    {
      assert (data + [status])[i] == data[i];
    }
  }

  /**
   A read request of any layout that the file can answer: its buffers hold the
   file's bytes from the start of the sector on, in order, the status byte is
   0, and nothing else in guest memory or in the file changes.
   */
  lemma GuestReads(q: Queue, mem: Memory, disk: Disk, at: seq<nat>, header: Descriptor, data: seq<Descriptor>,
                   status: Descriptor, reserved: nat, sector: nat) returns (o: Outcome)
    requires ReadRequest(q, mem, at, header, data, status, reserved, sector) && BuffersInside(mem, data)
    requires SectorStart(sector) + |Incoming(mem, data)| <= |disk| < 0x8000_0000_0000_0000
    ensures Ends(q, mem, at[0]) && o == Process(q, mem, disk, at[0])
    ensures o.disk == disk && OnlyBuffers(mem, o.mem, data, status.addr) && BuffersInside(o.mem, data)
    ensures Incoming(o.mem, data) == disk[SectorStart(sector)..SectorStart(sector) + |Incoming(mem, data)|]
    ensures status.addr < |o.mem| && o.mem[status.addr] == 0
    ensures o.completed == Some(CompletedIo(Read, |Incoming(mem, data)|))
    ensures |Incoming(mem, data)| + 1 < 0x1_0000_0000 ==> o.usedLen == |Incoming(mem, data)| + 1
  {
    ReadRequestReads(q, mem, at, header, data, status, reserved, sector);
    IncomingIsGathered(mem, data);
    SectorStarts(sector);
    AnswerIsDelivered(q, mem, disk, at[0], data, status, SectorStart(sector));
    o := Process(q, mem, disk, at[0]);
    forall p | 0 <= p < |mem| && p != status.addr && OutsideBuffers(data, p) ensures o.mem[p] == mem[p] {
      OutsideIsSpared(data, p);
    }
    InsideIsInside(o.mem, data);
    IncomingIsGathered(o.mem, data);
  }

  lemma AnswerIsDelivered(q: Queue, mem: Memory, disk: Disk, head: nat, data: seq<Descriptor>, status: Descriptor,
                          offset: nat)
    requires WellFormed(q, mem, head) && KindOf(q, mem, head) == TYPE_IN && OffsetOf(q, mem, head) == offset
    requires ChainOf(q, mem, head) == data + [status] && BuffersOf(q, mem, head) == data
    requires AllInside(mem, data + [status], true) && PairwiseApart(data + [status])
    requires offset + TotalLength(data, true) <= |disk| < SEEK_LIMIT
    ensures var o, n := Process(q, mem, disk, head), TotalLength(data, true);
            && o.disk == disk && |o.mem| == |mem| && Inside(mem, status) && o.mem[status.addr] == 0
            && AllInside(o.mem, data, true) && Gather(o.mem, data, true) == disk[offset..offset + n]
            && (forall p | 0 <= p < |mem| && p != status.addr && Spared(data, p) :: o.mem[p] == mem[p])
            && o.completed == Some(CompletedIo(Read, n)) && (n + 1 < 0x1_0000_0000 ==> o.usedLen == n + 1)
  {
    AnswerIsServed(mem, disk, offset, data, status);
    assert (data + [status])[|data|] == status && HasStatus(data + [status]);
    UsedLengthSums(true, CompletedIo(Read, TotalLength(data, true)), TotalLength(data, true));
  }

  lemma AnswerIsServed(mem: Memory, disk: Disk, offset: nat, data: seq<Descriptor>, status: Descriptor)
    requires HasStatus(data + [status]) && AllInside(mem, data + [status], true) && PairwiseApart(data + [status])
    requires offset + TotalLength(data, true) <= |disk| < SEEK_LIMIT
    ensures var r := HandleRead(disk, mem, offset, data);
            var mem', n := WriteGuest(r.mem, status.addr, [STATUS_OK]), TotalLength(data, true);
            && r.ok && r.total == n && Inside(mem, status) && mem'[status.addr] == 0
            && AllInside(mem', data, true) && Gather(mem', data, true) == disk[offset..offset + n]
            && forall p | 0 <= p < |mem| && p != status.addr && Spared(data, p) :: mem'[p] == mem[p]
  {
    var chain := data + [status];
    assert chain[|data|] == status && DataOf(chain) == data && data[..|data|] == data;
    StatusIsApart(mem, chain, |data|);
    InFillsBuffers(disk, mem, offset, data);
    StatusAfterData(disk, mem, offset, data, status, STATUS_OK);
  }

  /** When the file ends before the request does, the status byte is 1. */
  lemma GuestReadFails(q: Queue, mem: Memory, disk: Disk, at: seq<nat>, header: Descriptor, data: seq<Descriptor>,
                       status: Descriptor, reserved: nat, sector: nat) returns (o: Outcome)
    requires ReadRequest(q, mem, at, header, data, status, reserved, sector) && BuffersInside(mem, data)
    requires Incoming(mem, data) != [] && SectorStart(sector) < 0x8000_0000_0000_0000
    requires |disk| < SectorStart(sector) + |Incoming(mem, data)| && |disk| < 0x8000_0000_0000_0000
    ensures Ends(q, mem, at[0]) && o == Process(q, mem, disk, at[0])
    ensures o.disk == disk && OnlyBuffers(mem, o.mem, data, status.addr)
    ensures status.addr < |o.mem| && o.mem[status.addr] == 1
  {
    ReadRequestReads(q, mem, at, header, data, status, reserved, sector);
    IncomingIsGathered(mem, data);
    SectorStarts(sector);
    o := Process(q, mem, disk, at[0]);
    ShortFileIsReported(q, mem, disk, at[0], data, status, SectorStart(sector));
    forall p | 0 <= p < |mem| && p != status.addr && OutsideBuffers(data, p) ensures o.mem[p] == mem[p] {
      OutsideIsSpared(data, p);
    }
  }

  lemma ShortFileIsReported(q: Queue, mem: Memory, disk: Disk, head: nat, data: seq<Descriptor>, status: Descriptor,
                            offset: nat)
    requires WellFormed(q, mem, head) && KindOf(q, mem, head) == TYPE_IN && OffsetOf(q, mem, head) == offset
    requires ChainOf(q, mem, head) == data + [status] && BuffersOf(q, mem, head) == data
    requires AllInside(mem, data + [status], true) && PairwiseApart(data + [status])
    requires TotalLength(data, true) > 0 && |disk| < offset + TotalLength(data, true) && |disk| < SEEK_LIMIT
    ensures var o := Process(q, mem, disk, head);
            && o.disk == disk && |o.mem| == |mem| && Inside(mem, status) && o.mem[status.addr] == 1
            && forall p | 0 <= p < |mem| && p != status.addr && Spared(data, p) :: o.mem[p] == mem[p]
  {
    var n := InDelivers(q, mem, disk, head);
    assert (data + [status])[|data|] == status;
    assert data[..|data|] == data;
    forall p | 0 <= p < |mem| && Spared(data, p) ensures Spared(data[..n], p) {
      PrefixSpares(data, n, p);
    }
  }

  lemma PrefixSpares(descs: seq<Descriptor>, n: nat, p: nat)
    requires n <= |descs| && Spared(descs, p)
    ensures Spared(descs[..n], p)
  {
  }

  /** A flush changes nothing but its status byte, to 0. */
  lemma GuestFlushes(q: Queue, mem: Memory, disk: Disk, at: seq<nat>, header: Descriptor, data: seq<Descriptor>,
                     status: Descriptor, reserved: nat, sector: nat) returns (o: Outcome)
    requires Request(q, mem, at, header, data, status, 4, reserved, sector)
    ensures Ends(q, mem, at[0]) && o == Process(q, mem, disk, at[0])
    ensures o.disk == disk && OnlyByte(mem, o.mem, status.addr, 0)
    ensures o.usedLen == 1 && o.completed == Some(CompletedIo(Flush, 0))
  {
    RequestReads(q, mem, at, header, data, status, 4, reserved, sector);
    o := Process(q, mem, disk, at[0]);
    StatusIsOnlyByte(mem, data + [status], 0);
  }

  /** A request of any other type changes nothing but its status byte, to 2. */
  lemma GuestUnsupported(q: Queue, mem: Memory, disk: Disk, at: seq<nat>, header: Descriptor, data: seq<Descriptor>,
                         status: Descriptor, kind: nat, reserved: nat, sector: nat) returns (o: Outcome)
    requires Request(q, mem, at, header, data, status, kind, reserved, sector)
    requires kind != 0 && kind != 1 && kind != 4
    ensures Ends(q, mem, at[0]) && o == Process(q, mem, disk, at[0])
    ensures o.disk == disk && OnlyByte(mem, o.mem, status.addr, 2) && o.usedLen == 1
  {
    RequestReads(q, mem, at, header, data, status, kind, reserved, sector);
    o := Process(q, mem, disk, at[0]);
    NothingElseDone(mem, disk, kind, sector, data, status);
    StatusIsOnlyByte(mem, data + [status], 2);
  }

  lemma NothingElseDone(mem: Memory, disk: Disk, kind: nat, sector: nat, data: seq<Descriptor>, status: Descriptor)
    requires kind != 0 && kind != 1 && kind != 4
    ensures Dispatch(mem, disk, kind, sector, data) == Handled(mem, disk, 2, CompletedIo(Read, 0))
    ensures (data + [status])[|data + [status]| - 1] == status && UsedLength(true, CompletedIo(Read, 0)) == 1
  {
  }

  /** Without a last descriptor of one byte for the device, a write has no status: guest memory stays as it is. */
  lemma GuestWritesUnanswered(q: Queue, mem: Memory, disk: Disk, at: seq<nat>, header: Descriptor,
                              data: seq<Descriptor>, reserved: nat, sector: nat) returns (o: Outcome)
    requires Posted(q, mem, at, [header] + data) && BuffersBegin(mem, data)
    requires header.len >= 16 && Spells(mem, header.addr, HeaderBytes(1, reserved, sector))
    requires reserved < 0x1_0000_0000 && sector < 0x1_0000_0000_0000_0000
    requires data != [] ==> !(data[|data| - 1].len == 1 && ForDevice(data[|data| - 1]))
    requires SectorStart(sector) + |Outgoing(mem, data)| < 0x8000_0000_0000_0000
    ensures Ends(q, mem, at[0]) && o == Process(q, mem, disk, at[0])
    ensures FileHas(disk, o.disk, SectorStart(sector), Outgoing(mem, data)) && o.mem == mem
    ensures o.usedLen == 0 && o.completed == Some(CompletedIo(Write, |Outgoing(mem, data)|))
  {
    ChainReads(q, mem, at, [header] + data);
    assert ([header] + data)[1..] == data;
    HeaderReads(mem, header, 1, reserved, sector);
    if data != [] {
      FlagBits(data[|data| - 1]);
    }
    SectorStarts(sector);
    OutgoingIsHandled(mem, disk, SectorStart(sector), data);
    o := Process(q, mem, disk, at[0]);
    FileTakes(disk, SectorStart(sector), Outgoing(mem, data));
  }

  /** A header of fewer than 16 bytes, or one that guest memory cuts off, is no request: nothing changes. */
  lemma GuestHeaderUnreadable(q: Queue, mem: Memory, disk: Disk, at: seq<nat>, descs: seq<Descriptor>)
    requires Posted(q, mem, at, descs) && (descs[0].len < 16 || descs[0].addr + 16 > |mem|)
    ensures Ends(q, mem, at[0]) && Process(q, mem, disk, at[0]) == Outcome(mem, disk, 0, None)
  {
    ChainReads(q, mem, at, descs);
  }

  /** Nor is a head that the descriptor table does not have. */
  lemma GuestHeadUnreadable(q: Queue, mem: Memory, disk: Disk, head: nat)
    requires head >= q.num || q.descTable + 16 * head + 16 > |mem|
    ensures Ends(q, mem, head) && Process(q, mem, disk, head) == Outcome(mem, disk, 0, None)
  {
  }
}
