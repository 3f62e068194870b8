/**
 The split virtqueue of the block device (sections 2.7.6 and 2.7.8 of the VIRTIO
 specification, version 1.2): requests are taken from the available ring and
 handed back on the used ring, both under 16-bit indices that wrap.
 */
module BlockQueue {
  import opened Wrappers
  import opened Words
  import opened Virtqueue
  import opened BlockIo
  import opened Requests
  import opened QueueOrder

  /** What a queue notification can change: guest memory, the file and the consumed index. */
  datatype Device = Device(mem: Memory, disk: Disk, last: u16)

  // ------------------------------------------------------------- the rings

  function ReadIndex(mem: Memory, addr: nat): (r: Option<u16>) {
    if addr + 2 <= |mem| then
      DecodeBound(mem[addr..addr + 2], 0);
      assert Pow256(1) == 256 && Pow256(2) == 0x1_0000;
      Some(Decode(mem[addr..addr + 2]))
    else None
  }

  /** The chain head in the available ring at a consumed index. */
  function HeadAt(q: Queue, mem: Memory, index: nat): Option<u16>
    requires q.num > 0
  {
    ReadIndex(mem, q.availRing + 4 + (index % q.num) * 2)
  }

  function AvailIdx(q: Queue, mem: Memory): Option<u16> {
    ReadIndex(mem, q.availRing + 2)
  }

  /** The used index; zero when it cannot be read. */
  function UsedIdx(q: Queue, mem: Memory): u16 {
    match ReadIndex(mem, q.usedRing + 2)
    case Some(v) => v
    case None => 0
  }

  function SlotAddr(q: Queue, slot: nat): nat {
    q.usedRing + 4 + slot * 8
  }

  function PutElem(mem: Memory, slot: nat, head: nat, usedLen: nat): (r: Memory)
    ensures |r| == |mem|
  {
    WriteGuest(WriteGuest(mem, slot, Encode(head, 4)), slot + 4, Encode(usedLen, 4))
  }

  /** Hands a chain back: its element, then the used index. */
  function Publish(q: Queue, mem: Memory, head: nat, usedLen: nat): (r: Memory)
    requires q.num > 0
    ensures |r| == |mem|
  {
    var usedIdx := UsedIdx(q, mem);
    WriteGuest(PutElem(mem, SlotAddr(q, usedIdx % q.num), head, usedLen),
               q.usedRing + 2, Encode((usedIdx + 1) % 0x1_0000, 2))
  }

  function ElemAt(q: Queue, mem: Memory, slot: nat): UsedElem
    requires SlotAddr(q, slot) + 8 <= |mem|
  {
    var a := SlotAddr(q, slot);
    UsedElem(Decode(mem[a..a + 4]), Decode(mem[a + 4..a + 8]))
  }

  // ------------------------------------------------------------ processing

  /** Requests between the consumed index and the available index, which may have wrapped. */
  function Pending(last: u16, avail: u16): nat {
    if last <= avail then avail - last else avail + 0x1_0000 - last
  }

  lemma PendingStep(last: u16, avail: u16)
    requires last != avail
    ensures Pending((last + 1) % 0x1_0000, avail) == Pending(last, avail) - 1
  {
  }

  /** The next request's head can be read and its chain comes to an end. */
  predicate Servable(q: Queue, d: Device)
    requires q.num > 0
  {
    HeadAt(q, d.mem, d.last).Some? && Ends(q, d.mem, HeadAt(q, d.mem, d.last).value)
  }

  function Next(q: Queue, d: Device): Outcome
    requires q.num > 0 && Servable(q, d)
  {
    Process(q, d.mem, d.disk, HeadAt(q, d.mem, d.last).value)
  }

  function ServeOne(q: Queue, d: Device): (r: Device)
    requires q.num > 0 && Servable(q, d)
    ensures |r.mem| == |d.mem| && r.last == (d.last + 1) % 0x1_0000
  {
    var o := Next(q, d);
    Device(Publish(q, o.mem, HeadAt(q, d.mem, d.last).value, o.usedLen), o.disk, (d.last + 1) % 0x1_0000)
  }

  /** What a notification leads to; `ends` says that no chain met on the way goes on forever. */
  datatype Served = Served(device: Device, elements: seq<UsedElem>, ios: seq<CompletedIo>, ends: bool)

  function Listed(io: Option<CompletedIo>): seq<CompletedIo> {
    if io.Some? then [io.value] else []
  }

  /** Serves pending requests one after the other; an unreadable head ends the loop. */
  function Serve(q: Queue, d: Device, avail: u16): Served
    requires q.num > 0
    decreases Pending(d.last, avail)
  {
    if d.last == avail || HeadAt(q, d.mem, d.last).None? then Served(d, [], [], true)
    else if !Servable(q, d) then Served(d, [], [], false)
    else
      var o := Next(q, d);
      PendingStep(d.last, avail);
      var rest := Serve(q, ServeOne(q, d), avail);
      Served(rest.device, [UsedElem(HeadAt(q, d.mem, d.last).value, o.usedLen)] + rest.elements,
             Listed(o.completed) + rest.ios, rest.ends)
  }

  lemma ServeNext(q: Queue, d: Device, avail: u16)
    requires q.num > 0 && d.last != avail && HeadAt(q, d.mem, d.last).Some? && Serve(q, d, avail).ends
    ensures Servable(q, d) && Serve(q, ServeOne(q, d), avail).ends
    ensures Serve(q, ServeOne(q, d), avail).device == Serve(q, d, avail).device
    ensures Serve(q, d, avail).ios == Listed(Next(q, d).completed) + Serve(q, ServeOne(q, d), avail).ios
  {
  }

  lemma ServeStops(q: Queue, d: Device, avail: u16)
    requires q.num > 0 && (d.last == avail || HeadAt(q, d.mem, d.last).None?)
    ensures Serve(q, d, avail) == Served(d, [], [], true)
  {
  }

  // ---------------------------------------------------------------- frames

  predicate InTable(q: Queue, p: nat) { q.descTable <= p < q.descTable + 16 * q.num }

  predicate InAvail(q: Queue, p: nat) { q.availRing <= p < q.availRing + 4 + 2 * q.num }

  predicate InUsed(q: Queue, p: nat) { q.usedRing <= p < q.usedRing + 4 + 8 * q.num }

  /** The three parts lie in guest memory, apart from each other; the queue size divides the index range. */
  ghost predicate Placed(q: Queue, size: nat) {
    && q.num > 0 && 0x1_0000 % q.num == 0
    && q.descTable + 16 * q.num <= size && q.availRing + 4 + 2 * q.num <= size && q.usedRing + 4 + 8 * q.num <= size
    && (forall p: nat :: InUsed(q, p) ==> !InTable(q, p) && !InAvail(q, p))
  }

  /** The same descriptor table and the same available ring. */
  ghost predicate SameInput(q: Queue, mem: Memory, mem': Memory) {
    |mem'| == |mem| && forall p: nat | p < |mem| && (InTable(q, p) || InAvail(q, p)) :: mem'[p] == mem[p]
  }

  lemma SameSlice(mem: Memory, mem': Memory, a: nat, b: nat)
    requires |mem'| == |mem| && a <= b <= |mem| && forall p | a <= p < b :: mem'[p] == mem[p]
    ensures mem'[a..b] == mem[a..b]
  {
  }

  lemma SameHead(q: Queue, mem: Memory, mem': Memory, index: nat)
    requires Placed(q, |mem|) && SameInput(q, mem, mem')
    ensures HeadAt(q, mem', index) == HeadAt(q, mem, index) && HeadAt(q, mem, index).Some?
  {
    var a := q.availRing + 4 + (index % q.num) * 2;
    forall p | a <= p < a + 2 ensures mem'[p] == mem[p] { assert InAvail(q, p); }
    SameSlice(mem, mem', a, a + 2);
  }

  lemma SameDescriptor(q: Queue, mem: Memory, mem': Memory, index: nat)
    requires Placed(q, |mem|) && SameInput(q, mem, mem')
    ensures ReadDescriptor(q, mem', index) == ReadDescriptor(q, mem, index)
  {
    if index < q.num {
      var a := q.descTable + index * 16;
      forall p | a <= p < a + 16 ensures mem'[p] == mem[p] { assert InTable(q, p); }
      SameSlice(mem, mem', a, a + 8);
      SameSlice(mem, mem', a + 8, a + 12);
      SameSlice(mem, mem', a + 12, a + 14);
      SameSlice(mem, mem', a + 14, a + 16);
    }
  }

  lemma {:induction false} SameWalk(q: Queue, mem: Memory, mem': Memory, d: Descriptor, fuel: nat,
                                    seen: seq<Descriptor>)
    requires Placed(q, |mem|) && SameInput(q, mem, mem')
    ensures Walk(q, mem', d, fuel, seen) == Walk(q, mem, d, fuel, seen)
    decreases fuel
  {
    SameDescriptor(q, mem, mem', d.next);
    if d.HasNext() && ReadDescriptor(q, mem, d.next).Some? && fuel > 0 {
      var next := ReadDescriptor(q, mem, d.next).value;
      SameWalk(q, mem, mem', next, fuel - 1, seen + [next]);
    }
  }

  /** A chain that ends and whose writable buffers stay clear of the queue's three parts. */
  ghost predicate Clear(q: Queue, mem: Memory, head: nat) {
    && Ends(q, mem, head)
    && forall p: nat | InTable(q, p) || InAvail(q, p) || InUsed(q, p) :: Spared(ChainOf(q, mem, head), p)
  }

  lemma SameClear(q: Queue, mem: Memory, mem': Memory, head: nat)
    requires Placed(q, |mem|) && SameInput(q, mem, mem') && Clear(q, mem, head)
    ensures Clear(q, mem', head) && ChainOf(q, mem', head) == ChainOf(q, mem, head)
  {
    SameDescriptor(q, mem, mem', head);
    if ReadDescriptor(q, mem, head).Some? {
      SameWalk(q, mem, mem', ReadDescriptor(q, mem, head).value, q.num, []);
    }
  }

  // --------------------------------------------------------------- publish

  /** A number written to guest memory is read back there, and other slices keep their bytes. */
  lemma WriteNumber(mem: Memory, addr: nat, width: nat, v: nat)
    requires addr + width <= |mem| && v < Pow256(width)
    ensures Decode(WriteGuest(mem, addr, Encode(v, width))[addr..addr + width]) == v
  {
    DecodeEncode(v, width);
    assert WriteGuest(mem, addr, Encode(v, width))[addr..addr + width] == Encode(v, width);
  }

  lemma WriteElsewhere(mem: Memory, addr: nat, data: seq<byte>, a: nat, b: nat)
    requires a <= b <= |mem| && (b <= addr || addr + |data| <= a)
    ensures WriteGuest(mem, addr, data)[a..b] == mem[a..b]
  {
    forall p | a <= p < b ensures WriteGuest(mem, addr, data)[p] == mem[p] {
      WriteGuestAt(mem, addr, data, p);
    }
  }

  lemma PublishAdvances(q: Queue, mem: Memory, head: nat, usedLen: nat)
    requires Placed(q, |mem|)
    ensures UsedIdx(q, Publish(q, mem, head, usedLen)) == (UsedIdx(q, mem) + 1) % 0x1_0000
  {
    var next := (UsedIdx(q, mem) + 1) % 0x1_0000;
    var slot := SlotAddr(q, UsedIdx(q, mem) % q.num);
    var mem2 := WriteGuest(WriteGuest(mem, slot, Encode(head, 4)), slot + 4, Encode(usedLen, 4));
    assert Pow256(1) == 256 && Pow256(2) == 0x1_0000;
    WriteNumber(mem2, q.usedRing + 2, 2, next);
  }

  lemma PublishElem(q: Queue, mem: Memory, head: nat, usedLen: nat)
    requires Placed(q, |mem|) && head < U32_LIMIT && usedLen < U32_LIMIT
    ensures ElemAt(q, Publish(q, mem, head, usedLen), UsedIdx(q, mem) % q.num) == UsedElem(head, usedLen)
  {
    WordLimits();
    var a := SlotAddr(q, UsedIdx(q, mem) % q.num);
    var mem1 := WriteGuest(mem, a, Encode(head, 4));
    var mem2 := WriteGuest(mem1, a + 4, Encode(usedLen, 4));
    var idx := Encode((UsedIdx(q, mem) + 1) % 0x1_0000, 2);
    WriteNumber(mem, a, 4, head);
    WriteElsewhere(mem1, a + 4, Encode(usedLen, 4), a, a + 4);
    WriteNumber(mem1, a + 4, 4, usedLen);
    WriteElsewhere(mem2, q.usedRing + 2, idx, a, a + 4);
    WriteElsewhere(mem2, q.usedRing + 2, idx, a + 4, a + 8);
  }

  /** Publishing leaves everything but its slot and the used index alone. */
  lemma PublishElsewhere(q: Queue, mem: Memory, head: nat, usedLen: nat, a: nat, b: nat)
    requires q.num > 0 && a <= b <= |mem|
    requires b <= q.usedRing + 2 || q.usedRing + 4 <= a
    requires var s := SlotAddr(q, UsedIdx(q, mem) % q.num); b <= s || s + 8 <= a
    ensures Publish(q, mem, head, usedLen)[a..b] == mem[a..b]
  {
    var s := SlotAddr(q, UsedIdx(q, mem) % q.num);
    var mem1 := WriteGuest(mem, s, Encode(head, 4));
    var mem2 := WriteGuest(mem1, s + 4, Encode(usedLen, 4));
    WriteElsewhere(mem, s, Encode(head, 4), a, b);
    WriteElsewhere(mem1, s + 4, Encode(usedLen, 4), a, b);
    WriteElsewhere(mem2, q.usedRing + 2, Encode((UsedIdx(q, mem) + 1) % 0x1_0000, 2), a, b);
  }

  lemma PublishOtherElem(q: Queue, mem: Memory, head: nat, usedLen: nat, slot: nat)
    requires Placed(q, |mem|) && slot < q.num && slot != UsedIdx(q, mem) % q.num
    ensures ElemAt(q, Publish(q, mem, head, usedLen), slot) == ElemAt(q, mem, slot)
  {
    var a, mem' := SlotAddr(q, slot), Publish(q, mem, head, usedLen);
    PublishElsewhere(q, mem, head, usedLen, a, a + 4);
    PublishElsewhere(q, mem, head, usedLen, a + 4, a + 8);
    SameElem(q, mem, mem', slot);
  }

  lemma SameElem(q: Queue, mem: Memory, mem': Memory, slot: nat)
    requires |mem'| == |mem| && SlotAddr(q, slot) + 8 <= |mem|
    requires var a := SlotAddr(q, slot); mem'[a..a + 4] == mem[a..a + 4] && mem'[a + 4..a + 8] == mem[a + 4..a + 8]
    ensures ElemAt(q, mem', slot) == ElemAt(q, mem, slot)
  {
  }

  lemma PublishKeepsInput(q: Queue, mem: Memory, head: nat, usedLen: nat)
    requires Placed(q, |mem|)
    ensures SameInput(q, mem, Publish(q, mem, head, usedLen))
  {
    var r := Publish(q, mem, head, usedLen);
    forall p: nat | p < |mem| && (InTable(q, p) || InAvail(q, p)) ensures r[p] == mem[p] {
      assert !InUsed(q, p);
      PublishElsewhere(q, mem, head, usedLen, p, p + 1);
      assert r[p] == r[p..p + 1][0];
    }
  }

  /** Processing one clear chain leaves the queue's three parts as they were. */
  lemma ProcessKeepsQueue(q: Queue, mem: Memory, disk: Disk, head: nat)
    requires Placed(q, |mem|) && Clear(q, mem, head)
    ensures var mem' := Process(q, mem, disk, head).mem;
            && SameInput(q, mem, mem') && UsedIdx(q, mem') == UsedIdx(q, mem)
            && forall s: nat | s < q.num :: ElemAt(q, mem', s) == ElemAt(q, mem, s)
  {
    var mem' := Process(q, mem, disk, head).mem;
    forall p: nat | p < |mem| && (InTable(q, p) || InAvail(q, p) || InUsed(q, p)) ensures mem'[p] == mem[p] {
      ProcessStaysInBuffers(q, mem, disk, head, p);
    }
    UsedPartSame(q, mem, mem');
  }

  lemma UsedPartSame(q: Queue, mem: Memory, mem': Memory)
    requires Placed(q, |mem|) && |mem'| == |mem|
    requires forall p: nat | p < |mem| && InUsed(q, p) :: mem'[p] == mem[p]
    ensures UsedIdx(q, mem') == UsedIdx(q, mem)
    ensures forall s: nat | s < q.num :: ElemAt(q, mem', s) == ElemAt(q, mem, s)
  {
    var u := q.usedRing;
    forall p | u <= p < u + 4 + 8 * q.num ensures mem'[p] == mem[p] { assert InUsed(q, p); }
    SameSlice(mem, mem', u + 2, u + 4);
    forall s: nat | s < q.num ensures ElemAt(q, mem', s) == ElemAt(q, mem, s) {
      SameSlice(mem, mem', SlotAddr(q, s), SlotAddr(q, s) + 4);
      SameSlice(mem, mem', SlotAddr(q, s) + 4, SlotAddr(q, s) + 8);
    }
  }

  // ------------------------------------------------------------------ FIFO

  /** The head of the request at a consumed index; zero when it cannot be read. */
  function HeadOr0(q: Queue, mem: Memory, index: nat): u16
    requires q.num > 0
  {
    match HeadAt(q, mem, index) case Some(head) => head case None => 0
  }

  /** The heads of `k` requests from a consumed index on. */
  ghost function Heads(q: Queue, mem: Memory, last: nat, k: nat): (heads: seq<u16>)
    requires q.num > 0
    ensures |heads| == k
  {
    seq<u16>(k, i requires 0 <= i < k => HeadOr0(q, mem, last + i))
  }

  ghost function UsedRing(q: Queue, mem: Memory): (used: seq<UsedElem>)
    requires Placed(q, |mem|)
    ensures |used| == q.num
  {
    seq(q.num, s requires 0 <= s < q.num => ElemAt(q, mem, s))
  }

  ghost function ViewOf(q: Queue, d: Device, avail: u16): View
    requires Placed(q, |d.mem|)
  {
    View(Heads(q, d.mem, d.last, Pending(d.last, avail)), UsedRing(q, d.mem), UsedIdx(q, d.mem))
  }

  /** Every waiting chain is clear of the queue's parts, and no more wait than the queue holds. */
  ghost predicate Driven(q: Queue, d: Device, avail: u16) {
    && Placed(q, |d.mem|) && Pending(d.last, avail) <= q.num
    && forall h | h in Heads(q, d.mem, d.last, Pending(d.last, avail)) :: Clear(q, d.mem, h)
  }

  /** After one step the remaining requests are waiting. */
  lemma HeadsStep(q: Queue, mem: Memory, mem': Memory, last: nat, k: nat)
    requires Placed(q, |mem|) && SameInput(q, mem, mem') && k > 0
    ensures Heads(q, mem', (last + 1) % 0x1_0000, k - 1) == Heads(q, mem, last, k)[1..]
  {
    var heads, heads' := Heads(q, mem, last, k), Heads(q, mem', (last + 1) % 0x1_0000, k - 1);
    forall i | 0 <= i < k - 1 ensures heads'[i] == heads[1..][i] {
      HeadStep(q, mem, mem', last, i);
      assert heads[1..][i] == heads[i + 1];
    }
  }

  lemma HeadStep(q: Queue, mem: Memory, mem': Memory, last: nat, i: nat)
    requires Placed(q, |mem|) && SameInput(q, mem, mem')
    ensures HeadOr0(q, mem', (last + 1) % 0x1_0000 + i) == HeadOr0(q, mem, last + (i + 1))
  {
    WrapKeepsSlot(last + 1, i, q.num);
    SameSlot(q, mem', (last + 1) % 0x1_0000 + i, last + (i + 1));
    SameHead(q, mem, mem', last + (i + 1));
  }

  lemma SameSlot(q: Queue, mem: Memory, i: nat, j: nat)
    requires q.num > 0 && i % q.num == j % q.num
    ensures HeadAt(q, mem, i) == HeadAt(q, mem, j)
  {
  }

  lemma PublishedRing(q: Queue, mem: Memory, head: nat, usedLen: nat)
    requires Placed(q, |mem|) && head < U32_LIMIT && usedLen < U32_LIMIT
    ensures UsedRing(q, Publish(q, mem, head, usedLen))
            == UsedRing(q, mem)[SlotOf(q.num, UsedIdx(q, mem), 0) := UsedElem(head, usedLen)]
  {
    PublishElem(q, mem, head, usedLen);
    var slot := SlotOf(q.num, UsedIdx(q, mem), 0);
    forall s: nat | s < q.num && s != slot
      ensures ElemAt(q, Publish(q, mem, head, usedLen), s) == ElemAt(q, mem, s)
    {
      PublishOtherElem(q, mem, head, usedLen, s);
    }
  }

  lemma SameInputTwice(q: Queue, mem: Memory, mem1: Memory, mem2: Memory)
    requires SameInput(q, mem, mem1) && SameInput(q, mem1, mem2)
    ensures SameInput(q, mem, mem2)
  {
  }

  /** One element was handed back in the next slot; the driver's input did not change. */
  ghost predicate HandsBack(q: Queue, mem: Memory, mem': Memory, elem: UsedElem) {
    && Placed(q, |mem|) && SameInput(q, mem, mem') && UsedIdx(q, mem') == (UsedIdx(q, mem) + 1) % 0x1_0000
    && UsedRing(q, mem') == UsedRing(q, mem)[SlotOf(q.num, UsedIdx(q, mem), 0) := elem]
  }

  /** The next request's own step: what it does to the bytes, in the driver's terms. */
  lemma RequestStep(q: Queue, mem: Memory, disk: Disk, head: u16, o: Outcome, mem': Memory)
    requires Placed(q, |mem|) && Clear(q, mem, head)
    requires o == Process(q, mem, disk, head) && mem' == Publish(q, o.mem, head, o.usedLen)
    ensures HandsBack(q, mem, mem', UsedElem(head, o.usedLen))
  {
    ProcessKeepsQueue(q, mem, disk, head);
    assert UsedRing(q, o.mem) == UsedRing(q, mem);
    PublishStep(q, mem, o.mem, mem', head, o.usedLen);
  }

  lemma PublishStep(q: Queue, mem: Memory, mem1: Memory, mem2: Memory, head: u16, usedLen: nat)
    requires Placed(q, |mem|) && usedLen < U32_LIMIT && mem2 == Publish(q, mem1, head, usedLen)
    requires SameInput(q, mem, mem1) && UsedIdx(q, mem1) == UsedIdx(q, mem) && UsedRing(q, mem1) == UsedRing(q, mem)
    ensures HandsBack(q, mem, mem2, UsedElem(head, usedLen))
  {
    PublishKeepsInput(q, mem1, head, usedLen);
    SameInputTwice(q, mem, mem1, mem2);
    PublishAdvances(q, mem1, head, usedLen);
    PublishedRing(q, mem1, head, usedLen);
  }

  lemma FirstIsServable(q: Queue, d: Device, avail: u16)
    requires Driven(q, d, avail) && d.last != avail
    ensures Servable(q, d)
    ensures HeadAt(q, d.mem, d.last) == Some(Heads(q, d.mem, d.last, Pending(d.last, avail))[0])
    ensures Clear(q, d.mem, HeadAt(q, d.mem, d.last).value)
  {
    var heads := Heads(q, d.mem, d.last, Pending(d.last, avail));
    SameHead(q, d.mem, d.mem, d.last);
    assert heads[0] in heads && heads[0] == HeadOr0(q, d.mem, d.last);
  }

  lemma ServeOneIs(q: Queue, d: Device, head: u16) returns (d': Device, o: Outcome)
    requires Placed(q, |d.mem|) && HeadAt(q, d.mem, d.last) == Some(head) && Clear(q, d.mem, head)
    ensures o == Process(q, d.mem, d.disk, head)
    ensures Servable(q, d) && d' == ServeOne(q, d) && o == Next(q, d)
    ensures d'.mem == Publish(q, o.mem, head, o.usedLen) && d'.last == (d.last + 1) % 0x1_0000
  {
    d', o := ServeOne(q, d), Process(q, d.mem, d.disk, head);
  }

  lemma ServeClear(q: Queue, d: Device, head: u16) returns (d': Device, first: UsedElem)
    requires Placed(q, |d.mem|) && HeadAt(q, d.mem, d.last) == Some(head) && Clear(q, d.mem, head)
    ensures Servable(q, d) && d' == ServeOne(q, d) && first == UsedElem(head, Next(q, d).usedLen)
    ensures d'.last == (d.last + 1) % 0x1_0000 && HandsBack(q, d.mem, d'.mem, first)
  {
    var o;
    d', o := ServeOneIs(q, d, head);
    RequestStep(q, d.mem, d.disk, head, o, d'.mem);
    first := UsedElem(head, o.usedLen);
  }

  lemma StepInView(q: Queue, d: Device, d': Device, avail: u16, first: UsedElem)
    requires Placed(q, |d.mem|) && d.last != avail
    requires d'.last == (d.last + 1) % 0x1_0000 && HandsBack(q, d.mem, d'.mem, first)
    requires first.id == Heads(q, d.mem, d.last, Pending(d.last, avail))[0]
    ensures HandsBackFirst(ViewOf(q, d, avail), ViewOf(q, d', avail), first)
  {
    PendingStep(d.last, avail);
    HeadsStep(q, d.mem, d'.mem, d.last, Pending(d.last, avail));
  }

  /** One step of a well-driven queue hands back the first waiting request. */
  lemma ServeOneStep(q: Queue, d: Device, avail: u16) returns (d': Device, first: UsedElem)
    requires Driven(q, d, avail) && d.last != avail
    ensures Servable(q, d) && d' == ServeOne(q, d)
    ensures first == UsedElem(HeadAt(q, d.mem, d.last).value, Next(q, d).usedLen)
    ensures SameInput(q, d.mem, d'.mem) && d'.last == (d.last + 1) % 0x1_0000
    ensures HandsBackFirst(ViewOf(q, d, avail), ViewOf(q, d', avail), first)
  {
    FirstIsServable(q, d, avail);
    d', first := ServeClear(q, d, HeadAt(q, d.mem, d.last).value);
    StepInView(q, d, d', avail, first);
  }

  lemma NextIsDriven(q: Queue, d: Device, d': Device, avail: u16)
    requires Driven(q, d, avail) && d.last != avail
    requires SameInput(q, d.mem, d'.mem) && d'.last == (d.last + 1) % 0x1_0000
    ensures Driven(q, d', avail) && Pending(d'.last, avail) == Pending(d.last, avail) - 1
  {
    PendingStep(d.last, avail);
    HeadsStep(q, d.mem, d'.mem, d.last, Pending(d.last, avail));
    forall h | h in Heads(q, d'.mem, d'.last, Pending(d'.last, avail)) ensures Clear(q, d'.mem, h) {
      assert h in Heads(q, d.mem, d.last, Pending(d.last, avail));
      SameClear(q, d.mem, d'.mem, h);
    }
  }

  /** Everything waiting was served, in order, and the driver's input is untouched. */
  ghost predicate ServedInOrder(q: Queue, d: Device, avail: u16, s: Served) {
    && Placed(q, |d.mem|) && s.ends && s.device.last == avail && SameInput(q, d.mem, s.device.mem)
    && HandsBackAll(ViewOf(q, d, avail), ViewOf(q, s.device, avail), s.elements)
  }

  lemma ServeUnfolds(q: Queue, d: Device, avail: u16)
    requires q.num > 0 && d.last != avail && Servable(q, d)
    ensures var s, rest := Serve(q, d, avail), Serve(q, ServeOne(q, d), avail);
            && s.device == rest.device && s.ends == rest.ends
            && s.elements == [UsedElem(HeadAt(q, d.mem, d.last).value, Next(q, d).usedLen)] + rest.elements
  {
  }

  lemma NothingWaits(q: Queue, d: Device)
    requires Placed(q, |d.mem|)
    ensures ServedInOrder(q, d, d.last, Served(d, [], [], true))
  {
  }

  /** The first step of serving, and what is left to serve after it. */
  lemma ServeFirst(q: Queue, d: Device, avail: u16) returns (d1: Device, first: UsedElem)
    requires Driven(q, d, avail) && d.last != avail
    ensures SameInput(q, d.mem, d1.mem) && Driven(q, d1, avail)
    ensures Pending(d1.last, avail) == Pending(d.last, avail) - 1
    ensures HandsBackFirst(ViewOf(q, d, avail), ViewOf(q, d1, avail), first)
    ensures var s, rest := Serve(q, d, avail), Serve(q, d1, avail);
            s.device == rest.device && s.ends == rest.ends && s.elements == [first] + rest.elements
  {
    d1, first := ServeOneStep(q, d, avail);
    NextIsDriven(q, d, d1, avail);
    ServeUnfolds(q, d, avail);
  }

  lemma FirstThenServed(q: Queue, d: Device, d1: Device, avail: u16, first: UsedElem, rest: Served, s: Served)
    requires Placed(q, |d.mem|) && Pending(d.last, avail) <= q.num && SameInput(q, d.mem, d1.mem)
    requires HandsBackFirst(ViewOf(q, d, avail), ViewOf(q, d1, avail), first)
    requires ServedInOrder(q, d1, avail, rest)
    requires s.device == rest.device && s.ends == rest.ends && s.elements == [first] + rest.elements
    ensures ServedInOrder(q, d, avail, s)
  {
    SameInputTwice(q, d.mem, d1.mem, s.device.mem);
    FirstThenAll(ViewOf(q, d, avail), ViewOf(q, d1, avail), ViewOf(q, s.device, avail), first, rest.elements);
  }

  /**
   First in, first out across the wrap of both indices. Serving a well-driven
   queue comes to an end; it consumes exactly the pending entries and hands back
   exactly one element for each, in their order and with their heads, in the
   next slots of the used ring; the indices advance by that number modulo 2^16,
   and no other element of the used ring changes.
   */
  lemma {:induction false} QueueIsFifo(q: Queue, d: Device, avail: u16)
    requires Driven(q, d, avail)
    ensures ServedInOrder(q, d, avail, Serve(q, d, avail))
    decreases Pending(d.last, avail)
  {
    if d.last == avail {
      NothingWaits(q, d);
    } else {
      var d1, first := ServeFirst(q, d, avail);
      QueueIsFifo(q, d1, avail);
      FirstThenServed(q, d, d1, avail, first, Serve(q, d1, avail), Serve(q, d, avail));
    }
  }

  ghost predicate Malformed(q: Queue, mem: Memory, head: nat) {
    var header := ReadDescriptor(q, mem, head);
    header.None? || ReadHeader(mem, header.value).None?
  }

  lemma MalformedIffNotCompleted(q: Queue, mem: Memory, disk: Disk, head: nat)
    requires Ends(q, mem, head)
    ensures Process(q, mem, disk, head).completed.None? <==> Malformed(q, mem, head)
    ensures Malformed(q, mem, head) ==> Process(q, mem, disk, head) == Outcome(mem, disk, 0, None)
  {
  }

  /** Whether a request is malformed shows in the descriptor table alone. */
  lemma SameMalformed(q: Queue, mem: Memory, mem': Memory, head: nat)
    requires Placed(q, |mem|) && SameInput(q, mem, mem')
    ensures Malformed(q, mem', head) <==> Malformed(q, mem, head)
  {
    SameDescriptor(q, mem, mem', head);
  }

  ghost predicate AllMalformed(q: Queue, mem: Memory, heads: seq<u16>) {
    forall h | h in heads :: Malformed(q, mem, h)
  }

  lemma AllMalformedSplits(q: Queue, mem: Memory, mem': Memory, heads: seq<u16>)
    requires heads != [] && Placed(q, |mem|) && SameInput(q, mem, mem')
    ensures AllMalformed(q, mem, heads) <==> Malformed(q, mem, heads[0]) && AllMalformed(q, mem', heads[1..])
  {
    forall h | h in heads ensures Malformed(q, mem', h) <==> Malformed(q, mem, h) {
      SameMalformed(q, mem, mem', h);
    }
    assert heads == [heads[0]] + heads[1..];
  }

  /** The first request's share in what is reported as completed. */
  lemma ServeFirstIos(q: Queue, d: Device, avail: u16) returns (d1: Device)
    requires Driven(q, d, avail) && d.last != avail
    ensures SameInput(q, d.mem, d1.mem) && Driven(q, d1, avail)
    ensures Pending(d1.last, avail) == Pending(d.last, avail) - 1
    ensures var heads := Heads(q, d.mem, d.last, Pending(d.last, avail));
            && heads[1..] == Heads(q, d1.mem, d1.last, Pending(d1.last, avail))
            && (Serve(q, d, avail).ios == [] <==> Malformed(q, d.mem, heads[0]) && Serve(q, d1, avail).ios == [])
  {
    var first;
    d1, first := ServeOneStep(q, d, avail);
    NextIsDriven(q, d, d1, avail);
    FirstIsServable(q, d, avail);
    ServeUnfoldsIos(q, d, avail);
    MalformedIffNotCompleted(q, d.mem, d.disk, HeadAt(q, d.mem, d.last).value);
    HeadsStep(q, d.mem, d1.mem, d.last, Pending(d.last, avail));
  }

  lemma ServeUnfoldsIos(q: Queue, d: Device, avail: u16)
    requires q.num > 0 && d.last != avail && Servable(q, d)
    ensures Serve(q, d, avail).ios == Listed(Next(q, d).completed) + Serve(q, ServeOne(q, d), avail).ios
  {
  }

  /**
   When a notification signals completion: exactly when at least one of the
   waiting requests is well-formed. Malformed ones are handed back without it.
   */
  lemma {:induction false} SignalsIffWellFormed(q: Queue, d: Device, avail: u16)
    requires Driven(q, d, avail)
    ensures Serve(q, d, avail).ios == [] <==>
            AllMalformed(q, d.mem, Heads(q, d.mem, d.last, Pending(d.last, avail)))
    decreases Pending(d.last, avail)
  {
    if d.last != avail {
      var d1 := ServeFirstIos(q, d, avail);
      AllMalformedSplits(q, d.mem, d1.mem, Heads(q, d.mem, d.last, Pending(d.last, avail)));
      SignalsIffWellFormed(q, d1, avail);
    }
  }

  /** A queue of one slot in 34 bytes of zeros, but for an available index of 1. */
  ghost const ONE_WAITS: Memory := seq<byte>(34, i => if i == 18 then 1 else 0)
  ghost const ONE_SLOT: Queue := Queue(1, 0, 16, 22)

  lemma OneWaits()
    ensures Placed(ONE_SLOT, |ONE_WAITS|) && AvailIdx(ONE_SLOT, ONE_WAITS) == Some(1)
    ensures HeadAt(ONE_SLOT, ONE_WAITS, 0) == Some(0)
    ensures ReadDescriptor(ONE_SLOT, ONE_WAITS, 0) == Some(Descriptor(0, 0, 0, 0))
  {
    var mem := ONE_WAITS;
    assert mem[18..20] == [1, 0] && mem[20..22] == [0, 0];
    DecodeLowByte(mem[18..20]);
    DecodeZeros(mem[20..22], 0);
    DecodeZeros(mem[0..8], 0);
    DecodeZeros(mem[8..12], 0);
    DecodeZeros(mem[12..14], 0);
    DecodeZeros(mem[14..16], 0);
  }

  /** The documented signal fails here: one well-driven request is handed back and nothing is signalled. */
  lemma UnsignalledCompletion(disk: Disk)
    ensures var d := Device(ONE_WAITS, disk, 0);
            && Driven(ONE_SLOT, d, 1) && Pending(d.last, 1) == 1
            && Serve(ONE_SLOT, d, 1).ios == [] && |Serve(ONE_SLOT, d, 1).elements| == 1
  {
    var q, mem, d := ONE_SLOT, ONE_WAITS, Device(ONE_WAITS, disk, 0);
    OneWaits();
    var heads := Heads(q, mem, 0, 1);
    assert heads == [0];
    assert ChainOf(q, mem, 0) == [];
    SignalsIffWellFormed(q, d, 1);
    QueueIsFifo(q, d, 1);
  }
}
