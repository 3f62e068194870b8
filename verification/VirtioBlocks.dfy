/**
 The block device as an object over guest memory: its loops are proved to do what
 `BlockIo`, `Requests` and `BlockQueue` say of their values.
 */
module VirtioBlocks {
  import opened Wrappers
  import opened Words
  import opened Virtqueue
  import opened BlockIo
  import opened Requests
  import opened QueueOrder
  import opened BlockQueue
  import opened GuestQueues

  /** Stores bytes in guest memory, as far as they fit. */
  method Store(ram: array<byte>, addr: nat, data: seq<byte>)
    modifies ram
    ensures ram[..] == WriteGuest(old(ram[..]), addr, data)
  {
    if addr < ram.Length {
      var n := Smaller(|data|, ram.Length - addr);
      forall k | 0 <= k < n {
        ram[addr + k] := data[k];
      }
    }
  }

  lemma Regroup<T>(a: seq<T>, b: seq<T>, c: seq<T>, bc: seq<T>)
    requires bc == b + c
    ensures a + bc == a + b + c
  {
  }

  lemma OneServed(q: Queue, d: Device, head: u16, o: Outcome, mem: Memory)
    requires q.num > 0 && Servable(q, d) && HeadAt(q, d.mem, d.last) == Some(head)
    requires o == Process(q, d.mem, d.disk, head) && mem == Publish(q, o.mem, head, o.usedLen)
    ensures Next(q, d) == o && ServeOne(q, d) == Device(mem, o.disk, (d.last + 1) % 0x1_0000)
  {
  }

  lemma FirstServed(q: Queue, d: Device, d': Device, avail: u16, completed: Option<CompletedIo>,
                    whole: BlockQueue.Served, rest: BlockQueue.Served)
    requires q.num > 0 && d.last != avail && Servable(q, d) && d' == ServeOne(q, d)
    requires completed == Next(q, d).completed
    requires whole == Serve(q, d, avail) && whole.ends && rest == Serve(q, d', avail)
    ensures rest.ends && rest.device == whole.device && whole.ios == Listed(completed) + rest.ios
    ensures Pending(d'.last, avail) == Pending(d.last, avail) - 1
  {
    ServeNext(q, d, avail);
    OneLessPending(q, d, avail);
  }

  lemma OneLessPending(q: Queue, d: Device, avail: u16)
    requires q.num > 0 && d.last != avail && Servable(q, d)
    ensures Pending(ServeOne(q, d).last, avail) == Pending(d.last, avail) - 1
  {
    PendingStep(d.last, avail);
  }

  class VirtioBlock {
    var backing: Disk
    var interruptStatus: bv32
    var ready: bool
    var queue: Queue
    var lastAvailIdx: u16

    constructor (backing: Disk)
      ensures this.backing == backing && interruptStatus == 0
      ensures !ready && queue == Queue(0, 0, 0, 0) && lastAvailIdx == 0
    {
      this.backing := backing;
      interruptStatus, ready, queue, lastAvailIdx := 0, false, Queue(0, 0, 0, 0), 0;
    }

    ghost function State(ram: array<byte>): Device
      reads this, ram
    {
      Device(ram[..], backing, lastAvailIdx)
    }

    /** An IN request, one buffer at a time. */
    method ReadSectors(sector: nat, descs: seq<Descriptor>, ram: array<byte>) returns (status: byte, total: nat)
      modifies ram
      ensures var r := HandleRead(backing, old(ram[..]), SectorOffset(sector), descs);
              ram[..] == r.mem && total == r.total && status == if r.ok then STATUS_OK else STATUS_IOERR
    {
      var offset: nat := SectorOffset(sector);
      total := 0;
      var i: nat := 0;
      ghost var whole := HandleRead(backing, ram[..], offset, descs);
      while i < |descs|
        invariant i <= |descs|
        invariant var rest := HandleRead(backing, ram[..], offset, descs[i..]);
                  whole == ReadOutcome(rest.mem, total + rest.total, rest.ok)
      {
        var d := descs[i];
        assert descs[i..][0] == d && descs[i..][1..] == descs[i + 1..];
        i := i + 1;
        if !d.IsWritable() {
          continue;
        }
        if !CanRead(backing, offset, d.len) || d.addr >= ram.Length {
          return STATUS_IOERR, total;
        }
        Store(ram, d.addr, FileBytes(backing, offset, d.len));
        offset := offset + d.len;
        total := total + d.len;
      }
      status := STATUS_OK;
    }

    /** An OUT request, one buffer at a time. */
    method WriteSectors(sector: nat, descs: seq<Descriptor>, ram: array<byte>) returns (status: byte, total: nat)
      modifies this`backing
      ensures var r := HandleWrite(ram[..], old(backing), SectorOffset(sector), descs);
              backing == r.disk && total == r.total && status == if r.ok then STATUS_OK else STATUS_IOERR
    {
      var offset: nat := SectorOffset(sector);
      total := 0;
      var i: nat := 0;
      ghost var whole := HandleWrite(ram[..], backing, offset, descs);
      while i < |descs|
        invariant i <= |descs|
        invariant var rest := HandleWrite(ram[..], backing, offset, descs[i..]);
                  whole == WriteOutcome(rest.disk, total + rest.total, rest.ok)
      {
        var d := descs[i];
        assert descs[i..][0] == d && descs[i..][1..] == descs[i + 1..];
        i := i + 1;
        if d.IsWritable() {
          continue;
        }
        var data := ReadGuest(ram[..], d.addr, d.len);
        if data.None? || offset >= SEEK_LIMIT {
          return STATUS_IOERR, total;
        }
        backing := WriteFile(backing, offset, data.value);
        offset := offset + d.len;
        total := total + d.len;
      }
      status := STATUS_OK;
    }

    method ReadDesc(index: nat, ram: array<byte>) returns (d: Option<Descriptor>)
      ensures d == ReadDescriptor(queue, ram[..], index)
    {
      var addr := queue.descTable + index * 16;
      if index >= queue.num || addr + 16 > ram.Length {
        return None;
      }
      return Some(Descriptor(Decode(ram[addr..addr + 8]), Decode(ram[addr + 8..addr + 12]),
                             Decode(ram[addr + 12..addr + 14]), Decode(ram[addr + 14..addr + 16])));
    }

    /** Follows the chain from its header; the walk has no step limit of its own. */
    method WalkChain(header: Descriptor, ram: array<byte>) returns (descs: seq<Descriptor>)
      requires Chain(queue, ram[..], header, queue.num).Some?
      ensures descs == Chain(queue, ram[..], header, queue.num).value
    {
      descs := [];
      var current := header;
      ghost var fuel := queue.num;
      while current.HasNext()
        invariant Chain(queue, ram[..], header, queue.num) == Walk(queue, ram[..], current, fuel, descs)
        decreases fuel
      {
        WalkStep(queue, ram[..], current, fuel, descs);
        var next := ReadDesc(current.next, ram);
        if next.None? {
          break;
        }
        descs, current := descs + [next.value], next.value;
        fuel := fuel - 1;
      }
    }

    method DispatchRequest(kind: nat, sector: nat, data: seq<Descriptor>, ram: array<byte>)
        returns (status: byte, io: CompletedIo)
      modifies this`backing, ram
      ensures Handled(ram[..], backing, status, io)
              == Dispatch(old(ram[..]), old(backing), kind, sector, data)
    {
      if kind == TYPE_IN {
        var total;
        status, total := ReadSectors(sector, data, ram);
        io := CompletedIo(Read, total);
      } else if kind == TYPE_OUT {
        var total;
        status, total := WriteSectors(sector, data, ram);
        io := CompletedIo(Write, total);
      } else if kind == TYPE_FLUSH {
        status, io := STATUS_OK, CompletedIo(Flush, 0);
      } else {
        status, io := STATUS_UNSUPP, CompletedIo(Read, 0);
      }
    }

    /** One request, from the head of its chain to its status byte. */
    method ProcessRequest(head: nat, ram: array<byte>) returns (usedLen: nat, completed: Option<CompletedIo>)
      requires Ends(queue, ram[..], head)
      modifies this`backing, ram
      ensures Outcome(ram[..], backing, usedLen, completed)
              == Process(queue, old(ram[..]), old(backing), head)
    {
      var header := ReadDesc(head, ram);
      if header.None? {
        return 0, None;
      }
      var fields := ReadHeader(ram[..], header.value);
      if fields.None? {
        return 0, None;
      }
      var chain := WalkChain(header.value, ram);
      var status, io := DispatchRequest(fields.value.0, fields.value.1, DataOf(chain), ram);
      usedLen := 0;
      if HasStatus(chain) {
        Store(ram, chain[|chain| - 1].addr, [status]);
        usedLen := 1;
      }
      if io.op == Read {
        usedLen := Smaller(usedLen + io.bytes % 0x1_0000_0000, U32_LIMIT - 1);
      }
      completed := Some(io);
    }

    /** Stores one element of the used ring. */
    method StoreElem(slot: nat, head: u16, usedLen: nat, ram: array<byte>)
      modifies ram
      ensures ram[..] == PutElem(old(ram[..]), slot, head, usedLen)
    {
      Store(ram, slot, Encode(head, 4));
      Store(ram, slot + 4, Encode(usedLen, 4));
    }

    /** Hands a chain back on the used ring. */
    method PublishUsed(head: u16, usedLen: nat, ram: array<byte>)
      requires queue.num > 0
      modifies ram
      ensures ram[..] == Publish(queue, old(ram[..]), head, usedLen)
    {
      var usedIdx := UsedIdx(queue, ram[..]);
      StoreElem(SlotAddr(queue, usedIdx % queue.num), head, usedLen, ram);
      Store(ram, queue.usedRing + 2, Encode((usedIdx + 1) % 0x1_0000, 2));
    }

    /** One turn of the queue loop. */
    method ServeHead(head: u16, ram: array<byte>) returns (completed: Option<CompletedIo>)
      requires queue.num > 0 && HeadAt(queue, ram[..], lastAvailIdx) == Some(head) && Servable(queue, State(ram))
      modifies this`backing, this`lastAvailIdx, ram
      ensures State(ram) == ServeOne(queue, old(State(ram)))
      ensures completed == Next(queue, old(State(ram))).completed
    {
      ghost var before := State(ram);
      var usedLen;
      usedLen, completed := ProcessRequest(head, ram);
      ghost var o := Outcome(ram[..], backing, usedLen, completed);
      PublishUsed(head, usedLen, ram);
      lastAvailIdx := (lastAvailIdx + 1) % 0x1_0000;
      OneServed(queue, before, head, o, ram[..]);
    }

    /** The same turn, seen as the first step of serving all that is pending. */
    method ServeFirstHead(head: u16, ram: array<byte>, ghost avail: u16, ghost whole: BlockQueue.Served)
        returns (completed: Option<CompletedIo>, ghost rest: BlockQueue.Served)
      requires queue.num > 0 && lastAvailIdx != avail && HeadAt(queue, ram[..], lastAvailIdx) == Some(head)
      requires whole == Serve(queue, State(ram), avail) && whole.ends
      modifies this`backing, this`lastAvailIdx, ram
      ensures Pending(lastAvailIdx, avail) == Pending(old(lastAvailIdx), avail) - 1
      ensures rest == Serve(queue, State(ram), avail) && rest.ends
      ensures rest.device == whole.device && whole.ios == Listed(completed) + rest.ios
    {
      ghost var before := State(ram);
      ServeNext(queue, before, avail);
      completed := ServeHead(head, ram);
      rest := Serve(queue, State(ram), avail);
      FirstServed(queue, before, State(ram), avail, completed, whole, rest);
    }

    /** Serves everything between the consumed index and `avail`. */
    method ServePending(avail: u16, ram: array<byte>) returns (completed: seq<CompletedIo>)
      requires queue.num > 0 && Serve(queue, State(ram), avail).ends
      modifies this`backing, this`lastAvailIdx, ram
      ensures State(ram) == Serve(queue, old(State(ram)), avail).device
      ensures completed == Serve(queue, old(State(ram)), avail).ios
    {
      completed := [];
      ghost var whole := Serve(queue, State(ram), avail);
      ghost var rest := whole;
      while lastAvailIdx != avail
        invariant rest == Serve(queue, State(ram), avail) && rest.ends && rest.device == whole.device
        invariant whole.ios == completed + rest.ios
        decreases Pending(lastAvailIdx, avail)
      {
        var head := HeadAt(queue, ram[..], lastAvailIdx);
        if head.None? {
          break;
        }
        var io;
        ghost var ios := rest.ios;
        io, rest := ServeFirstHead(head.value, ram, avail, rest);
        Regroup(completed, Listed(io), rest.ios, ios);
        completed := completed + Listed(io);
      }
      ServeStops(queue, State(ram), avail);
    }

    /**
     A queue notification. It does nothing unless the queue is ready and the
     available index readable; otherwise it serves what is pending, and raises
     the used-buffer interrupt when at least one request was carried out.
     */
    method ProcessQueue(ram: array<byte>) returns (needsInterrupt: bool, completed: seq<CompletedIo>)
      requires Notifiable(ram) ==> Served(ram).ends
      modifies this`backing, this`lastAvailIdx, this`interruptStatus, ram
      ensures !old(Notifiable(ram)) ==> State(ram) == old(State(ram)) && completed == []
      ensures old(Notifiable(ram)) ==>
                State(ram) == old(Served(ram)).device && completed == old(Served(ram)).ios
      ensures old(ready) ==> DriversSee(queue, old(State(ram)), State(ram), completed)
      ensures needsInterrupt <==> completed != []
      ensures old(WellDriven(ram)) ==> (needsInterrupt <==> !old(OnlyMalformed(ram)))
      ensures interruptStatus == if needsInterrupt then old(interruptStatus) | 1 else old(interruptStatus)
    {
      needsInterrupt, completed := false, [];
      ghost var before := State(ram);
      if !ready || queue.num == 0 {
        NobodyPosted(queue, before, before, []);
        return;
      }
      var availIdx := AvailIdx(queue, ram[..]);
      if availIdx.None? {
        NobodyPosted(queue, before, before, []);
        return;
      }
      DriversSeeServed(queue, before, availIdx.value);
      completed := ServePending(availIdx.value, ram);
      if Driven(queue, before, availIdx.value) {
        SignalsIffWellFormed(queue, before, availIdx.value);
      }
      if completed != [] {
        interruptStatus := interruptStatus | 1;
        needsInterrupt := true;
      }
    }

    ghost predicate Notifiable(ram: array<byte>)
      reads this, ram
    {
      ready && queue.num > 0 && AvailIdx(queue, ram[..]).Some?
    }

    /** The driver keeps to its side: the queue is well laid out and its waiting chains are clear of it. */
    ghost predicate WellDriven(ram: array<byte>)
      reads this, ram
    {
      Notifiable(ram) && Driven(queue, State(ram), AvailIdx(queue, ram[..]).value)
    }

    /** None of the waiting requests has a header that can be read. */
    ghost predicate OnlyMalformed(ram: array<byte>)
      reads this, ram
    {
      Notifiable(ram) ==>
        AllMalformed(queue, ram[..],
                     Heads(queue, ram[..], lastAvailIdx, Pending(lastAvailIdx, AvailIdx(queue, ram[..]).value)))
    }

    ghost function Served(ram: array<byte>): BlockQueue.Served
      requires Notifiable(ram)
      reads this, ram
    {
      Serve(queue, State(ram), AvailIdx(queue, ram[..]).value)
    }
  }
}
