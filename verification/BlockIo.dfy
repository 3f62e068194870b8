/**
 Block I/O over scattered guest buffers (section 5.2.6 of the VIRTIO
 specification, version 1.2): the buffers of a request behave like one flat run
 of bytes at the request's sector.
 */
module BlockIo {
  import opened Wrappers
  import opened Words
  import opened Virtqueue

  /** The backing file. */
  type Disk = seq<byte>

  /** A file offset is a signed 64-bit number; seeking beyond fails. */
  const SEEK_LIMIT: nat := 0x8000_0000_0000_0000

  /** Byte offset of a sector, as the 64-bit product. */
  function SectorOffset(sector: nat): nat {
    (sector * 512) % 0x1_0000_0000_0000_0000
  }

  function Zeros(n: nat): (z: seq<byte>)
    ensures |z| == n
  {
    seq(n, _ => 0)
  }

  /** Writing past the end extends the file; a gap reads as zeros. */
  function WriteFile(disk: Disk, offset: nat, data: seq<byte>): Disk {
    if data == [] then disk
    else
      var end := offset + |data|;
      var d := if |disk| < end then disk + Zeros(end - |disk|) else disk;
      d[..offset] + data + d[end..]
  }

  datatype WriteOutcome = WriteOutcome(disk: Disk, total: nat, ok: bool)
  datatype ReadOutcome = ReadOutcome(mem: Memory, total: nat, ok: bool)

  /** Device-readable buffers go to the file one after the other; the first failure ends the request. */
  function HandleWrite(mem: Memory, disk: Disk, offset: nat, descs: seq<Descriptor>): WriteOutcome
    decreases descs
  {
    if descs == [] then WriteOutcome(disk, 0, true)
    else if descs[0].IsWritable() then HandleWrite(mem, disk, offset, descs[1..])
    else
      match ReadGuest(mem, descs[0].addr, descs[0].len)
      case None => WriteOutcome(disk, 0, false)
      case Some(data) =>
        if offset >= SEEK_LIMIT then WriteOutcome(disk, 0, false)
        else
          var rest := HandleWrite(mem, WriteFile(disk, offset, data), offset + |data|, descs[1..]);
          WriteOutcome(rest.disk, |data| + rest.total, rest.ok)
  }

  predicate CanRead(disk: Disk, offset: nat, len: nat) {
    offset < SEEK_LIMIT && (len == 0 || offset + len <= |disk|)
  }

  function FileBytes(disk: Disk, offset: nat, len: nat): (data: seq<byte>)
    requires CanRead(disk, offset, len)
    ensures |data| == len
  {
    if len == 0 then [] else disk[offset..offset + len]
  }

  /** File bytes go to the device-writable buffers one after the other; the first failure ends the request. */
  function HandleRead(disk: Disk, mem: Memory, offset: nat, descs: seq<Descriptor>): (r: ReadOutcome)
    ensures |r.mem| == |mem|
    decreases descs
  {
    if descs == [] then ReadOutcome(mem, 0, true)
    else if !descs[0].IsWritable() then HandleRead(disk, mem, offset, descs[1..])
    else
      var d := descs[0];
      if !CanRead(disk, offset, d.len) || d.addr >= |mem| then ReadOutcome(mem, 0, false)
      else
        var rest := HandleRead(disk, WriteGuest(mem, d.addr, FileBytes(disk, offset, d.len)), offset + d.len, descs[1..]);
        ReadOutcome(rest.mem, d.len + rest.total, rest.ok)
  }

  // -------------------------------------------------------------- buffers

  predicate Inside(mem: Memory, d: Descriptor) {
    d.addr < |mem| && d.addr + d.len <= |mem|
  }

  /** The buffers of one kind, device-writable or device-readable, lie in guest memory. */
  ghost predicate AllInside(mem: Memory, descs: seq<Descriptor>, writable: bool) {
    forall i | 0 <= i < |descs| && descs[i].IsWritable() == writable :: Inside(mem, descs[i])
  }

  /** The bytes of the buffers of one kind, one after the other. */
  function Gather(mem: Memory, descs: seq<Descriptor>, writable: bool): (bytes: seq<byte>)
    requires AllInside(mem, descs, writable)
    ensures |bytes| == TotalLength(descs, writable)
  {
    if descs == [] then []
    else if descs[0].IsWritable() != writable then Gather(mem, descs[1..], writable)
    else mem[descs[0].addr..descs[0].addr + descs[0].len] + Gather(mem, descs[1..], writable)
  }

  function TotalLength(descs: seq<Descriptor>, writable: bool): nat {
    if descs == [] then 0
    else (if descs[0].IsWritable() == writable then descs[0].len else 0) + TotalLength(descs[1..], writable)
  }

  // ---------------------------------------------------------- OUT requests

  /** `r` is `disk` with `data` at `offset`: grown if need be, the rest kept, a gap read as zeros. */
  ghost predicate IsWritten(disk: Disk, offset: nat, data: seq<byte>, r: Disk) {
    && |r| == (if |disk| < offset + |data| then offset + |data| else |disk|)
    && forall p | 0 <= p < |r| ::
         r[p] == if offset <= p < offset + |data| then data[p - offset] else if p < |disk| then disk[p] else 0
  }

  lemma WriteFileAt(disk: Disk, offset: nat, data: seq<byte>)
    requires data != []
    ensures IsWritten(disk, offset, data, WriteFile(disk, offset, data))
  {
  }

  lemma JoinWrites(disk: Disk, disk1: Disk, disk2: Disk, offset: nat, a: seq<byte>, b: seq<byte>, r: Disk)
    requires IsWritten(disk, offset, a, disk1) && IsWritten(disk1, offset + |a|, b, disk2)
    requires IsWritten(disk, offset, a + b, r)
    ensures disk2 == r
  {
    forall p | 0 <= p < |r| ensures disk2[p] == r[p] {
    }
  }

  /** Two adjoining writes are one. */
  lemma WriteFileJoins(disk: Disk, offset: nat, a: seq<byte>, b: seq<byte>)
    ensures WriteFile(WriteFile(disk, offset, a), offset + |a|, b) == WriteFile(disk, offset, a + b)
  {
    if a == [] {
      assert a + b == b;
    } else if b == [] {
      assert a + b == a;
    } else {
      var disk1 := WriteFile(disk, offset, a);
      WriteFileAt(disk, offset, a);
      WriteFileAt(disk1, offset + |a|, b);
      WriteFileAt(disk, offset, a + b);
      JoinWrites(disk, disk1, WriteFile(disk1, offset + |a|, b), offset, a, b, WriteFile(disk, offset, a + b));
    }
  }

  lemma InsideRead(mem: Memory, d: Descriptor)
    requires Inside(mem, d)
    ensures ReadGuest(mem, d.addr, d.len) == Some(mem[d.addr..d.addr + d.len])
  {
  }

  /** The bytes an OUT request sends before it ends or fails. */
  function Sent(mem: Memory, offset: nat, descs: seq<Descriptor>): seq<byte>
    decreases descs
  {
    if descs == [] then []
    else if descs[0].IsWritable() then Sent(mem, offset, descs[1..])
    else
      match ReadGuest(mem, descs[0].addr, descs[0].len)
      case None => []
      case Some(data) =>
        if offset >= SEEK_LIMIT then [] else data + Sent(mem, offset + |data|, descs[1..])
  }

  lemma {:induction false} OutReportsSent(mem: Memory, disk: Disk, offset: nat, descs: seq<Descriptor>)
    ensures HandleWrite(mem, disk, offset, descs).total == |Sent(mem, offset, descs)|
    decreases descs
  {
    if descs != [] {
      if descs[0].IsWritable() {
        OutReportsSent(mem, disk, offset, descs[1..]);
      } else {
        var data := ReadGuest(mem, descs[0].addr, descs[0].len);
        if data.Some? && offset < SEEK_LIMIT {
          OutReportsSent(mem, WriteFile(disk, offset, data.value), offset + |data.value|, descs[1..]);
        }
      }
    }
  }

  /** However it ends, an OUT request has written exactly what it sent, in one run. */
  lemma {:induction false} OutWritesSent(mem: Memory, disk: Disk, offset: nat, descs: seq<Descriptor>)
    ensures HandleWrite(mem, disk, offset, descs).disk == WriteFile(disk, offset, Sent(mem, offset, descs))
    decreases descs
  {
    if descs != [] {
      if descs[0].IsWritable() {
        OutWritesSent(mem, disk, offset, descs[1..]);
      } else {
        var data := ReadGuest(mem, descs[0].addr, descs[0].len);
        if data.Some? && offset < SEEK_LIMIT {
          var disk1, sent := WriteFile(disk, offset, data.value), Sent(mem, offset + |data.value|, descs[1..]);
          OutWritesSent(mem, disk1, offset + |data.value|, descs[1..]);
          assert HandleWrite(mem, disk, offset, descs).disk == WriteFile(disk1, offset + |data.value|, sent);
          WriteFileJoins(disk, offset, data.value, sent);
          assert Sent(mem, offset, descs) == data.value + sent;
        }
      }
    }
  }

  lemma {:induction false} AllIsSent(mem: Memory, offset: nat, descs: seq<Descriptor>)
    requires AllInside(mem, descs, false) && offset + TotalLength(descs, false) < SEEK_LIMIT
    ensures Sent(mem, offset, descs) == Gather(mem, descs, false)
    decreases descs
  {
    if descs != [] {
      if descs[0].IsWritable() {
        AllIsSent(mem, offset, descs[1..]);
      } else {
        InsideRead(mem, descs[0]);
        AllIsSent(mem, offset + descs[0].len, descs[1..]);
      }
    }
  }

  lemma {:induction false} OutSucceeds(mem: Memory, disk: Disk, offset: nat, descs: seq<Descriptor>)
    requires AllInside(mem, descs, false) && offset + TotalLength(descs, false) < SEEK_LIMIT
    ensures HandleWrite(mem, disk, offset, descs).ok
    decreases descs
  {
    if descs != [] {
      if descs[0].IsWritable() {
        OutSucceeds(mem, disk, offset, descs[1..]);
      } else {
        var data := ReadGuest(mem, descs[0].addr, descs[0].len).value;
        OutSucceeds(mem, WriteFile(disk, offset, data), offset + descs[0].len, descs[1..]);
      }
    }
  }

  /**
   An OUT request over any split of its data writes exactly the concatenated
   readable buffers at its offset, and reports their length.
   */
  lemma OutWritesGather(mem: Memory, disk: Disk, offset: nat, descs: seq<Descriptor>)
    requires AllInside(mem, descs, false) && offset + TotalLength(descs, false) < SEEK_LIMIT
    ensures HandleWrite(mem, disk, offset, descs)
            == WriteOutcome(WriteFile(disk, offset, Gather(mem, descs, false)), TotalLength(descs, false), true)
  {
    OutWritesSent(mem, disk, offset, descs);
    OutReportsSent(mem, disk, offset, descs);
    AllIsSent(mem, offset, descs);
    OutSucceeds(mem, disk, offset, descs);
  }

  // ----------------------------------------------------------- IN requests

  predicate Apart(d: Descriptor, e: Descriptor) {
    d.addr + d.len <= e.addr || e.addr + e.len <= d.addr
  }

  /** No two writable buffers share a byte. */
  ghost predicate PairwiseApart(descs: seq<Descriptor>) {
    forall i, j | 0 <= i < j < |descs| && descs[i].IsWritable() && descs[j].IsWritable() :: Apart(descs[i], descs[j])
  }

  predicate Within(d: Descriptor, p: nat) {
    d.addr <= p < d.addr + d.len
  }

  /** A byte outside every writable buffer. */
  ghost predicate Spared(descs: seq<Descriptor>, p: nat) {
    forall i | 0 <= i < |descs| && descs[i].IsWritable() :: !Within(descs[i], p)
  }

  /** An IN request touches no byte outside its writable buffers, however it ends. */
  lemma {:induction false} InStaysInBuffers(disk: Disk, mem: Memory, offset: nat, descs: seq<Descriptor>, p: nat)
    requires p < |mem| && Spared(descs, p)
    ensures HandleRead(disk, mem, offset, descs).mem[p] == mem[p]
    decreases descs
  {
    if descs != [] {
      var d := descs[0];
      if !d.IsWritable() {
        InStaysInBuffers(disk, mem, offset, descs[1..], p);
      } else if CanRead(disk, offset, d.len) && d.addr < |mem| {
        var data := FileBytes(disk, offset, d.len);
        WriteGuestAt(mem, d.addr, data, p);
        InStaysInBuffers(disk, WriteGuest(mem, d.addr, data), offset + d.len, descs[1..], p);
      }
    }
  }

  /** The writable buffers hold the file's bytes at `offset`, in order. */
  ghost predicate Holds(mem: Memory, disk: Disk, offset: nat, descs: seq<Descriptor>) {
    && AllInside(mem, descs, true) && offset + TotalLength(descs, true) <= |disk|
    && Gather(mem, descs, true) == disk[offset..offset + TotalLength(descs, true)]
  }

  /** The first buffer keeps what it was given: the later ones lie elsewhere. */
  lemma FirstBufferStays(disk: Disk, mem: Memory, offset: nat, descs: seq<Descriptor>, data: seq<byte>)
    requires descs != [] && descs[0].IsWritable() && Inside(mem, descs[0]) && |data| == descs[0].len
    requires PairwiseApart(descs)
    ensures var d := descs[0];
            HandleRead(disk, WriteGuest(mem, d.addr, data), offset, descs[1..]).mem[d.addr..d.addr + d.len] == data
  {
    var d := descs[0];
    var mem1 := WriteGuest(mem, d.addr, data);
    var r := HandleRead(disk, mem1, offset, descs[1..]);
    forall p | d.addr <= p < d.addr + d.len ensures r.mem[p] == data[p - d.addr] {
      forall i | 0 <= i < |descs| - 1 && descs[1..][i].IsWritable() ensures !Within(descs[1..][i], p) {
        assert Apart(descs[0], descs[i + 1]);
      }
      InStaysInBuffers(disk, mem1, offset, descs[1..], p);
      WriteGuestAt(mem, d.addr, data, p);
    }
  }

  lemma JoinFileBytes(disk: Disk, offset: nat, a: nat, b: nat)
    requires offset + a + b <= |disk|
    ensures disk[offset..offset + a] + disk[offset + a..offset + a + b] == disk[offset..offset + (a + b)]
  {
  }

  lemma HoldsFirst(mem: Memory, disk: Disk, offset: nat, descs: seq<Descriptor>)
    requires descs != [] && AllInside(mem, descs, true)
    requires if descs[0].IsWritable() then
               && Holds(mem, disk, offset + descs[0].len, descs[1..])
               && mem[descs[0].addr..descs[0].addr + descs[0].len] == disk[offset..offset + descs[0].len]
             else Holds(mem, disk, offset, descs[1..])
    ensures Holds(mem, disk, offset, descs)
  {
    if descs[0].IsWritable() {
      JoinFileBytes(disk, offset, descs[0].len, TotalLength(descs[1..], true));
    }
  }

  lemma TailApart(descs: seq<Descriptor>)
    requires descs != [] && PairwiseApart(descs)
    ensures PairwiseApart(descs[1..])
  {
    var rest := descs[1..];
    forall i, j | 0 <= i < j < |rest| && rest[i].IsWritable() && rest[j].IsWritable() ensures Apart(rest[i], rest[j]) {
      assert rest[i] == descs[i + 1] && rest[j] == descs[j + 1];
    }
  }

  /**
   An IN request over any split into disjoint buffers leaves in them, in order,
   exactly the file's bytes at its offset, and reports their length.
   */
  lemma {:induction false} InFillsBuffers(disk: Disk, mem: Memory, offset: nat, descs: seq<Descriptor>)
    requires AllInside(mem, descs, true) && PairwiseApart(descs)
    requires offset + TotalLength(descs, true) <= |disk| < SEEK_LIMIT
    ensures var r := HandleRead(disk, mem, offset, descs);
            r.ok && r.total == TotalLength(descs, true) && Holds(r.mem, disk, offset, descs)
    decreases descs
  {
    if descs != [] {
      TailApart(descs);
      var d := descs[0];
      if !d.IsWritable() {
        InFillsBuffers(disk, mem, offset, descs[1..]);
      } else {
        var data := FileBytes(disk, offset, d.len);
        InFillsBuffers(disk, WriteGuest(mem, d.addr, data), offset + d.len, descs[1..]);
        FirstBufferStays(disk, mem, offset + d.len, descs, data);
      }
      HoldsFirst(HandleRead(disk, mem, offset, descs).mem, disk, offset, descs);
    }
  }

  // ------------------------------------------------------------- round trip

  /**
   What an OUT request wrote at a sector is what a later IN request of the same
   length reads there, whatever buffers either of them is split into.
   */
  lemma OutThenIn(mem: Memory, mem': Memory, disk: Disk, offset: nat, out: seq<Descriptor>, in_: seq<Descriptor>)
    requires AllInside(mem, out, false) && AllInside(mem', in_, true) && PairwiseApart(in_)
    requires TotalLength(out, false) == TotalLength(in_, true) > 0
    requires |disk| < SEEK_LIMIT && offset + TotalLength(out, false) < SEEK_LIMIT
    ensures var disk' := HandleWrite(mem, disk, offset, out).disk;
            var r := HandleRead(disk', mem', offset, in_);
            r.ok && AllInside(r.mem, in_, true) && Gather(r.mem, in_, true) == Gather(mem, out, false)
  {
    var data := Gather(mem, out, false);
    OutWritesGather(mem, disk, offset, out);
    WriteFileAt(disk, offset, data);
    InFillsBuffers(WriteFile(disk, offset, data), mem', offset, in_);
    assert WriteFile(disk, offset, data)[offset..offset + |data|] == data;
  }

  /** And no other byte of the file changed, except that it may have grown. */
  lemma OutChangesOnlyItsSectors(mem: Memory, disk: Disk, offset: nat, out: seq<Descriptor>, p: nat)
    requires AllInside(mem, out, false) && offset + TotalLength(out, false) < SEEK_LIMIT
    requires p < |disk| && !(offset <= p < offset + TotalLength(out, false))
    ensures var disk' := HandleWrite(mem, disk, offset, out).disk;
            p < |disk'| && disk'[p] == disk[p]
  {
    OutWritesGather(mem, disk, offset, out);
    if Gather(mem, out, false) != [] {
      WriteFileAt(disk, offset, Gather(mem, out, false));
    }
  }
}
