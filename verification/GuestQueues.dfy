/**
 A notification as the guest driver sees it: the driver has written chain heads
 and an index into the available ring, and finds the chains, in the same order,
 in the used ring (sections 2.7.6 and 2.7.8 of the VIRTIO specification, version
 1.2). Everything is said in bytes at their places in guest memory.
 */
module GuestQueues {
  import opened Wrappers
  import opened Words
  import opened Virtqueue
  import opened BlockIo
  import opened Requests
  import opened QueueOrder
  import opened BlockQueue
  import opened GuestRequests

  lemma {:induction false} EncodeDecode(bytes: seq<byte>)
    ensures Encode(Decode(bytes), |bytes|) == bytes
  {
    if bytes != [] {
      var rest := bytes[1..];
      assert bytes == [bytes[0]] + rest;
      DecodeFirst(bytes[0], rest, bytes);
      EncodeDecode(rest);
    }
  }

  // ----------------------------------------------------- the available ring

  /** The driver posted these heads from index `last` on, and its index stands after them. */
  ghost predicate HeadsPosted(q: Queue, mem: Memory, last: u16, heads: seq<u16>) {
    && q.num > 0 && |heads| <= q.num && |heads| < 0x1_0000
    && (forall i: nat | i < |heads| :: HeadPosted(q, mem, last, i, heads[i]))
    && Spells(mem, q.availRing + 2, Encode((last + |heads|) % 0x1_0000, 2))
  }

  ghost predicate HeadPosted(q: Queue, mem: Memory, last: u16, i: nat, head: u16)
    requires q.num > 0
  {
    Spells(mem, q.availRing + 4 + 2 * ((last + i) % q.num), Encode(head, 2))
  }

  lemma IndexReads(mem: Memory, addr: nat, v: u16)
    requires Spells(mem, addr, Encode(v, 2))
    ensures ReadIndex(mem, addr) == Some(v)
  {
    Widths();
    DecodeEncode(v, 2);
  }

  lemma HeadReads(q: Queue, mem: Memory, last: u16, heads: seq<u16>, i: nat)
    requires HeadsPosted(q, mem, last, heads) && i < |heads|
    ensures HeadAt(q, mem, last + i) == Some(heads[i])
  {
    assert HeadPosted(q, mem, last, i, heads[i]);
    IndexReads(mem, q.availRing + 4 + 2 * ((last + i) % q.num), heads[i]);
  }

  lemma PendingAre(last: u16, n: nat)
    requires n < 0x1_0000
    ensures Pending(last, (last + n) % 0x1_0000) == n
  {
  }

  /** The waiting requests are those that were posted. */
  lemma HeadsRead(q: Queue, mem: Memory, last: u16, heads: seq<u16>)
    requires HeadsPosted(q, mem, last, heads)
    ensures AvailIdx(q, mem) == Some((last + |heads|) % 0x1_0000)
    ensures Pending(last, (last + |heads|) % 0x1_0000) == |heads|
    ensures Heads(q, mem, last, |heads|) == heads
  {
    IndexReads(mem, q.availRing + 2, (last + |heads|) % 0x1_0000);
    PendingAre(last, |heads|);
    forall i: nat | i < |heads| ensures Heads(q, mem, last, |heads|)[i] == heads[i] {
      HeadReads(q, mem, last, heads, i);
      assert HeadOr0(q, mem, last + i) == heads[i];
    }
  }

  // ---------------------------------------------------------- the used ring

  /** The used ring's index, as bytes. */
  ghost predicate UsedIndexIs(q: Queue, mem: Memory, used: u16) {
    Spells(mem, q.usedRing + 2, Encode(used, 2))
  }

  /** The element of the used ring at an index: the head of a chain and a length. */
  ghost predicate UsedElementIs(q: Queue, mem: Memory, index: nat, head: nat, len: nat)
    requires q.num > 0
  {
    Spells(mem, q.usedRing + 4 + 8 * (index % q.num), Encode(head, 4) + Encode(len, 4))
  }

  lemma SpellsDecoded(mem: Memory, addr: nat, width: nat)
    requires addr + width <= |mem|
    ensures Spells(mem, addr, Encode(Decode(mem[addr..addr + width]), width))
  {
    EncodeDecode(mem[addr..addr + width]);
  }

  lemma UsedIndexSpells(q: Queue, mem: Memory)
    requires q.usedRing + 4 <= |mem|
    ensures UsedIndexIs(q, mem, UsedIdx(q, mem))
  {
    SpellsDecoded(mem, q.usedRing + 2, 2);
  }

  lemma UsedIndexReads(q: Queue, mem: Memory, used: u16)
    requires UsedIndexIs(q, mem, used)
    ensures UsedIdx(q, mem) == used
  {
    IndexReads(mem, q.usedRing + 2, used);
  }

  lemma ElementSpells(q: Queue, mem: Memory, index: nat, e: UsedElem)
    requires Placed(q, |mem|) && ElemAt(q, mem, index % q.num) == e
    ensures UsedElementIs(q, mem, index, e.id, e.len)
  {
    var a := q.usedRing + 4 + 8 * (index % q.num);
    assert a == SlotAddr(q, index % q.num);
    SpellsDecoded(mem, a, 4);
    SpellsDecoded(mem, a + 4, 4);
    SpellsJoin(mem, a, Encode(e.id, 4), Encode(e.len, 4));
  }

  lemma SpellsJoin(mem: Memory, addr: nat, x: seq<byte>, y: seq<byte>)
    requires Spells(mem, addr, x) && Spells(mem, addr + |x|, y)
    ensures Spells(mem, addr, x + y)
  {
    assert mem[addr..addr + |x + y|] == mem[addr..addr + |x|] + mem[addr + |x|..addr + |x| + |y|];
  }

  /** A used index that guest memory cuts off counts as 0: of the next one, 1, only a first byte inside is stored. */
  lemma UsedIndexUnreadable(q: Queue, mem: Memory, head: nat, usedLen: nat)
    requires q.num > 0 && q.usedRing + 4 > |mem|
    ensures forall p | 0 <= p < |mem| :: Publish(q, mem, head, usedLen)[p] == if p == q.usedRing + 2 then 1 else mem[p]
  {
    assert UsedIdx(q, mem) == 0 && SlotAddr(q, 0 % q.num) >= |mem|;
    assert Encode(1, 2) == [1] + Encode(0, 1);
  }

  // ------------------------------------------------------------------ turns

  /** What one request leaves behind, and what it reports. */
  datatype Turn = Turn(mem: Memory, disk: Disk, len: nat, completed: Option<CompletedIo>)

  /** The request at `head` was carried out; besides, only the used ring changed. */
  ghost predicate TurnDone(q: Queue, mem: Memory, disk: Disk, head: nat, t: Turn) {
    && Ends(q, mem, head)
    && var o := Process(q, mem, disk, head);
       && t.disk == o.disk && t.len == o.usedLen && t.completed == o.completed
       && |t.mem| == |o.mem| && forall p | 0 <= p < |t.mem| && !InUsed(q, p) :: t.mem[p] == o.mem[p]
  }

  /** The requests at these heads were carried out one after the other. */
  ghost predicate CarriedOut(q: Queue, mem: Memory, disk: Disk, heads: seq<u16>, turns: seq<Turn>, mem': Memory, disk': Disk)
    decreases heads
  {
    && |turns| == |heads|
    && if heads == [] then mem' == mem && disk' == disk
       else
         && TurnDone(q, mem, disk, heads[0], turns[0])
         && CarriedOut(q, turns[0].mem, turns[0].disk, heads[1..], turns[1..], mem', disk')
  }

  /** What the requests reported, in order. */
  function Reports(turns: seq<Turn>): seq<CompletedIo> {
    if turns == [] then [] else Listed(turns[0].completed) + Reports(turns[1..])
  }

  lemma PublishOnlyUsed(q: Queue, mem: Memory, head: nat, usedLen: nat, p: nat)
    requires q.num > 0 && p < |mem| && !InUsed(q, p)
    ensures Publish(q, mem, head, usedLen)[p] == mem[p]
  {
    var r := Publish(q, mem, head, usedLen);
    PublishElsewhere(q, mem, head, usedLen, p, p + 1);
    assert r[p] == r[p..p + 1][0];
  }

  lemma ServeOneIsTurn(q: Queue, d: Device) returns (t: Turn)
    requires Placed(q, |d.mem|) && Servable(q, d)
    ensures t == Turn(ServeOne(q, d).mem, ServeOne(q, d).disk, Next(q, d).usedLen, Next(q, d).completed)
    ensures TurnDone(q, d.mem, d.disk, HeadAt(q, d.mem, d.last).value, t)
  {
    var o, d' := Next(q, d), ServeOne(q, d);
    t := Turn(d'.mem, d'.disk, o.usedLen, o.completed);
    forall p | 0 <= p < |t.mem| && !InUsed(q, p) ensures t.mem[p] == o.mem[p] {
      PublishOnlyUsed(q, o.mem, HeadAt(q, d.mem, d.last).value, o.usedLen, p);
    }
  }

  lemma FirstTurn(q: Queue, d: Device, avail: u16) returns (d1: Device, t: Turn)
    requires Driven(q, d, avail) && d.last != avail
    ensures Driven(q, d1, avail) && Pending(d1.last, avail) == Pending(d.last, avail) - 1
    ensures t.mem == d1.mem && t.disk == d1.disk
    ensures var heads := Heads(q, d.mem, d.last, Pending(d.last, avail));
            && TurnDone(q, d.mem, d.disk, heads[0], t)
            && heads[1..] == Heads(q, d1.mem, d1.last, Pending(d1.last, avail))
    ensures var s, rest := Serve(q, d, avail), Serve(q, d1, avail);
            && s.device == rest.device && s.ios == Listed(t.completed) + rest.ios
            && |s.elements| == |rest.elements| + 1 && s.elements[0].len == t.len && s.elements[1..] == rest.elements
  {
    var first;
    d1, first := ServeOneStep(q, d, avail);
    NextIsDriven(q, d, d1, avail);
    FirstIsServable(q, d, avail);
    ServeUnfolds(q, d, avail);
    ServeUnfoldsIos(q, d, avail);
    HeadsStep(q, d.mem, d1.mem, d.last, Pending(d.last, avail));
    t := ServeOneIsTurn(q, d);
  }

  /** Serving carries out the waiting requests, each with the length it is handed back with. */
  lemma {:induction false} ServeTakesTurns(q: Queue, d: Device, avail: u16) returns (turns: seq<Turn>)
    requires Driven(q, d, avail)
    ensures var s := Serve(q, d, avail);
            && CarriedOut(q, d.mem, d.disk, Heads(q, d.mem, d.last, Pending(d.last, avail)), turns,
                          s.device.mem, s.device.disk)
            && s.ios == Reports(turns) && LengthsAre(s.elements, turns)
    decreases Pending(d.last, avail)
  {
    if d.last == avail {
      turns := [];
    } else {
      var d1, t := FirstTurn(q, d, avail);
      var rest := ServeTakesTurns(q, d1, avail);
      turns := [t] + rest;
      assert turns[1..] == rest;
      LengthsJoin(Serve(q, d, avail).elements, t, rest);
    }
  }

  ghost predicate LengthsAre(elements: seq<UsedElem>, turns: seq<Turn>) {
    |elements| == |turns| && forall i | 0 <= i < |turns| :: elements[i].len == turns[i].len
  }

  lemma LengthsJoin(elements: seq<UsedElem>, t: Turn, turns: seq<Turn>)
    requires elements != [] && elements[0].len == t.len && LengthsAre(elements[1..], turns)
    ensures LengthsAre(elements, [t] + turns)
  {
    forall i | 1 <= i < |elements| ensures elements[i] == elements[1..][i - 1] {
    }
  }

  // ---------------------------------------------------------------- theorem

  /** A driver that keeps to its side: the queue's parts are laid out, and its chains end and stay clear of them. */
  ghost predicate WellPosted(q: Queue, mem: Memory, last: u16, heads: seq<u16>, used: u16) {
    && Placed(q, |mem|) && HeadsPosted(q, mem, last, heads) && UsedIndexIs(q, mem, used)
    && forall h | h in heads :: Clear(q, mem, h)
  }

  /** The chains stand in the used ring from index `used` on, in the order of the heads, and the index after them. */
  ghost predicate HandedBack(q: Queue, mem: Memory, mem': Memory, used: u16, heads: seq<u16>, turns: seq<Turn>)
    requires q.num > 0
  {
    && |turns| == |heads| && |mem'| == |mem|
    && (forall i: nat | i < |heads| :: UsedElementIs(q, mem', used + i, heads[i], turns[i].len))
    && UsedIndexIs(q, mem', (used + |heads|) % 0x1_0000)
    && (forall p | 0 <= p < |mem| && (InTable(q, p) || InAvail(q, p)) :: mem'[p] == mem[p])
    && forall s: nat | s < q.num && !Hit(q.num, used, |heads|, s) :: SameElement(q, mem, mem', s)
  }

  /** The eight bytes of this slot of the used ring are what they were. */
  ghost predicate SameElement(q: Queue, mem: Memory, mem': Memory, slot: nat) {
    var a := q.usedRing + 4 + 8 * slot;
    a + 8 <= |mem| == |mem'| && mem'[a..a + 8] == mem[a..a + 8]
  }

  lemma SameElemSameBytes(q: Queue, mem: Memory, mem': Memory, slot: nat)
    requires Placed(q, |mem|) && |mem'| == |mem| && slot < q.num && ElemAt(q, mem', slot) == ElemAt(q, mem, slot)
    ensures SameElement(q, mem, mem', slot)
  {
    var a, e := q.usedRing + 4 + 8 * slot, ElemAt(q, mem, slot);
    assert slot % q.num == slot;
    ElementSpells(q, mem, slot, e);
    ElementSpells(q, mem', slot, e);
    assert mem[a..a + 8] == Encode(e.id, 4) + Encode(e.len, 4) == mem'[a..a + 8];
  }

  lemma ServedIsHandedBack(q: Queue, d: Device, used: u16, heads: seq<u16>, avail: u16, s: Served, turns: seq<Turn>)
    requires Placed(q, |d.mem|) && UsedIdx(q, d.mem) == used && ServedInOrder(q, d, avail, s)
    requires heads == Heads(q, d.mem, d.last, Pending(d.last, avail)) && LengthsAre(s.elements, turns)
    ensures HandedBack(q, d.mem, s.device.mem, used, heads, turns)
  {
    var mem, mem' := d.mem, s.device.mem;
    forall i: nat | i < |heads| ensures UsedElementIs(q, mem', used + i, heads[i], turns[i].len) {
      assert UsedRing(q, mem')[SlotOf(q.num, used, i)] == s.elements[i];
      ElementSpells(q, mem', used + i, s.elements[i]);
    }
    UsedIndexSpells(q, mem');
    forall k: nat | k < q.num && !Hit(q.num, used, |heads|, k) ensures SameElement(q, mem, mem', k) {
      assert UsedRing(q, mem')[k] == UsedRing(q, mem)[k];
      SameElemSameBytes(q, mem, mem', k);
    }
  }

  /**
   First in, first out, byte by byte: the heads that the driver posted are served
   in their order; each stands in the next element of the used ring, as four
   bytes, followed by the length that its own request reported; the used index
   has advanced by their number, and everything else of the queue is as it was.
   */
  lemma GuestQueueIsFifo(q: Queue, mem: Memory, disk: Disk, last: u16, heads: seq<u16>, used: u16)
      returns (s: Served, turns: seq<Turn>)
    requires WellPosted(q, mem, last, heads, used)
    ensures AvailIdx(q, mem).Some? && s == Serve(q, Device(mem, disk, last), AvailIdx(q, mem).value)
    ensures s.ends && s.device.last == (last + |heads|) % 0x1_0000
    ensures HandedBack(q, mem, s.device.mem, used, heads, turns)
    ensures CarriedOut(q, mem, disk, heads, turns, s.device.mem, s.device.disk) && s.ios == Reports(turns)
  {
    var d, avail := Device(mem, disk, last), (last + |heads|) % 0x1_0000;
    HeadsRead(q, mem, last, heads);
    UsedIndexReads(q, mem, used);
    s := Serve(q, d, avail);
    QueueIsFifo(q, d, avail);
    turns := ServeTakesTurns(q, d, avail);
    ServedIsHandedBack(q, d, used, heads, avail, s, turns);
  }

  /** What a driver that posted these heads finds after the device served what was pending. */
  ghost predicate DriverSees(q: Queue, mem: Memory, disk: Disk, heads: seq<u16>, used: u16, mem': Memory, disk': Disk,
                             completed: seq<CompletedIo>)
    requires q.num > 0
  {
    exists turns :: Seen(q, mem, disk, heads, used, mem', disk', completed, turns)
  }

  ghost predicate Seen(q: Queue, mem: Memory, disk: Disk, heads: seq<u16>, used: u16, mem': Memory, disk': Disk,
                       completed: seq<CompletedIo>, turns: seq<Turn>)
    requires q.num > 0
  {
    && HandedBack(q, mem, mem', used, heads, turns) && CarriedOut(q, mem, disk, heads, turns, mem', disk')
    && completed == Reports(turns)
  }

  /** Whatever heads a well-behaved driver has posted, this is how it finds them served. */
  ghost predicate DriversSee(q: Queue, d: Device, d': Device, completed: seq<CompletedIo>) {
    forall heads, used | WellPosted(q, d.mem, d.last, heads, used) ::
      && DriverSees(q, d.mem, d.disk, heads, used, d'.mem, d'.disk, completed)
      && d'.last == (d.last + |heads|) % 0x1_0000
  }

  lemma DriverSeesServed(q: Queue, d: Device, avail: u16, heads: seq<u16>, used: u16)
    requires WellPosted(q, d.mem, d.last, heads, used) && AvailIdx(q, d.mem) == Some(avail)
    ensures var s := Serve(q, d, avail);
            && DriverSees(q, d.mem, d.disk, heads, used, s.device.mem, s.device.disk, s.ios)
            && s.device.last == (d.last + |heads|) % 0x1_0000
  {
    var s, turns := GuestQueueIsFifo(q, d.mem, d.disk, d.last, heads, used);
    assert d == Device(d.mem, d.disk, d.last);
    assert Seen(q, d.mem, d.disk, heads, used, s.device.mem, s.device.disk, s.ios, turns);
  }

  lemma DriversSeeServed(q: Queue, d: Device, avail: u16)
    requires q.num > 0 && AvailIdx(q, d.mem) == Some(avail)
    ensures DriversSee(q, d, Serve(q, d, avail).device, Serve(q, d, avail).ios)
  {
    forall heads, used | WellPosted(q, d.mem, d.last, heads, used)
      ensures var s := Serve(q, d, avail);
              && DriverSees(q, d.mem, d.disk, heads, used, s.device.mem, s.device.disk, s.ios)
              && s.device.last == (d.last + |heads|) % 0x1_0000
    {
      DriverSeesServed(q, d, avail, heads, used);
    }
  }

  /** Whoever posted heads also wrote an index. */
  lemma NobodyPosted(q: Queue, d: Device, d': Device, completed: seq<CompletedIo>)
    ensures q.num == 0 || AvailIdx(q, d.mem).None? ==> DriversSee(q, d, d', completed)
  {
    forall heads, used | WellPosted(q, d.mem, d.last, heads, used) ensures q.num > 0 && AvailIdx(q, d.mem).Some? {
      HeadsRead(q, d.mem, d.last, heads);
    }
  }
}
