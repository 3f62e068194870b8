/**
 Guest memory and the descriptor chains of a split virtqueue (section 2.7 of the
 VIRTIO specification, version 1.2). The walk along a chain has no step limit in
 the device; these lemmas show that it ends within `num` steps or never.
 */
module Virtqueue {
  import opened Wrappers
  import opened Words

  type Memory = seq<byte>

  datatype Queue = Queue(num: nat, descTable: nat, availRing: nat, usedRing: nat)

  datatype Descriptor = Descriptor(addr: nat, len: nat, flags: nat, next: nat) {
    predicate HasNext() { flags % 2 == 1 }

    predicate IsWritable() { (flags / 2) % 2 == 1 }
  }

  // ----------------------------------------------------------- guest memory

  function Smaller(x: nat, y: nat): nat { if x < y then x else y }

  /** Writes what fits when the start lies in guest memory, nothing otherwise. */
  function WriteGuest(mem: Memory, addr: nat, data: seq<byte>): (r: Memory)
    ensures |r| == |mem|
  {
    seq(|mem|, p requires 0 <= p < |mem| => if addr <= p < addr + |data| then data[p - addr] else mem[p])
  }

  /** Reads into a zeroed buffer of `len` bytes; fails when the start lies outside guest memory. */
  function ReadGuest(mem: Memory, addr: nat, len: nat): (r: Option<seq<byte>>)
    ensures r.Some? ==> |r.value| == len
  {
    if addr >= |mem| then None
    else if addr + len <= |mem| then Some(mem[addr..addr + len])
    else Some(mem[addr..] + seq(addr + len - |mem|, _ => 0))
  }

  /** A write leaves every byte outside `[addr, addr + |data|)` alone. */
  lemma WriteGuestAt(mem: Memory, addr: nat, data: seq<byte>, p: nat)
    requires p < |mem|
    ensures WriteGuest(mem, addr, data)[p] == if addr <= p < addr + |data| then data[p - addr] else mem[p]
  {
  }

  // ------------------------------------------------------------ descriptors

  function ReadDescriptor(q: Queue, mem: Memory, index: nat): Option<Descriptor> {
    var addr := q.descTable + index * 16;
    if index >= q.num || addr + 16 > |mem| then None
    else Some(Descriptor(Decode(mem[addr..addr + 8]), Decode(mem[addr + 8..addr + 12]),
                         Decode(mem[addr + 12..addr + 14]), Decode(mem[addr + 14..addr + 16])))
  }

  /** Walks from `d` at most `fuel` steps, adding to `seen`; None when the chain goes on. */
  function Walk(q: Queue, mem: Memory, d: Descriptor, fuel: nat, seen: seq<Descriptor>): Option<seq<Descriptor>>
    decreases fuel
  {
    if !d.HasNext() then Some(seen)
    else
      match ReadDescriptor(q, mem, d.next)
      case None => Some(seen)
      case Some(next) => if fuel == 0 then None else Walk(q, mem, next, fuel - 1, seen + [next])
  }

  /** One step of a walk that ends. */
  lemma WalkStep(q: Queue, mem: Memory, d: Descriptor, fuel: nat, seen: seq<Descriptor>)
    requires Walk(q, mem, d, fuel, seen).Some? && d.HasNext()
    ensures match ReadDescriptor(q, mem, d.next)
            case None => Walk(q, mem, d, fuel, seen) == Some(seen)
            case Some(next) => fuel > 0 && Walk(q, mem, d, fuel, seen) == Walk(q, mem, next, fuel - 1, seen + [next])
  {
  }

  /** The descriptors after `d`; None when `fuel` steps do not reach the end. */
  function Chain(q: Queue, mem: Memory, d: Descriptor, fuel: nat): Option<seq<Descriptor>> {
    Walk(q, mem, d, fuel, [])
  }

  /** The walk from `d` takes at least `k` steps. */
  predicate Runs(q: Queue, mem: Memory, d: Descriptor, k: nat)
    decreases k
  {
    k == 0 || (d.HasNext() && ReadDescriptor(q, mem, d.next).Some?
               && Runs(q, mem, ReadDescriptor(q, mem, d.next).value, k - 1))
  }

  lemma {:induction false} WalkEndsIffNotRuns(q: Queue, mem: Memory, d: Descriptor, fuel: nat, seen: seq<Descriptor>)
    ensures Walk(q, mem, d, fuel, seen).None? <==> Runs(q, mem, d, fuel + 1)
    decreases fuel
  {
    if d.HasNext() && ReadDescriptor(q, mem, d.next).Some? && fuel > 0 {
      var next := ReadDescriptor(q, mem, d.next).value;
      WalkEndsIffNotRuns(q, mem, next, fuel - 1, seen + [next]);
    }
  }

  /** The descriptor reached after `k` steps, and the index it was read at. */
  function IndexAt(q: Queue, mem: Memory, d: Descriptor, k: nat): (i: nat)
    requires k > 0 && Runs(q, mem, d, k)
    ensures i < q.num && ReadDescriptor(q, mem, i).Some?
    decreases k
  {
    if k == 1 then d.next else IndexAt(q, mem, ReadDescriptor(q, mem, d.next).value, k - 1)
  }

  lemma {:induction false} RunsPrefix(q: Queue, mem: Memory, d: Descriptor, j: nat, k: nat)
    requires j <= k && Runs(q, mem, d, k)
    ensures Runs(q, mem, d, j)
    decreases j
  {
    if j > 0 {
      RunsPrefix(q, mem, ReadDescriptor(q, mem, d.next).value, j - 1, k - 1);
    }
  }

  /** What happens after `j` steps is what happens from the descriptor reached there. */
  lemma {:induction false} RunsFrom(q: Queue, mem: Memory, d: Descriptor, j: nat, m: nat)
    requires j > 0 && Runs(q, mem, d, j)
    ensures Runs(q, mem, d, j + m) <==>
            Runs(q, mem, ReadDescriptor(q, mem, IndexAt(q, mem, d, j)).value, m)
    decreases j
  {
    if j > 1 {
      RunsFrom(q, mem, ReadDescriptor(q, mem, d.next).value, j - 1, m);
    }
  }

  lemma {:induction false} IndexFrom(q: Queue, mem: Memory, d: Descriptor, j: nat, m: nat)
    requires j > 0 && m > 0 && Runs(q, mem, d, j + m) && Runs(q, mem, d, j)
    requires Runs(q, mem, ReadDescriptor(q, mem, IndexAt(q, mem, d, j)).value, m)
    ensures IndexAt(q, mem, d, j + m) == IndexAt(q, mem, ReadDescriptor(q, mem, IndexAt(q, mem, d, j)).value, m)
    decreases j
  {
    if j > 1 {
      IndexFrom(q, mem, ReadDescriptor(q, mem, d.next).value, j - 1, m);
    }
  }

  /** A walk that comes back to where it was goes on forever. */
  lemma {:induction false} LoopRunsForever(q: Queue, mem: Memory, d: Descriptor, i: nat, len: nat, m: nat)
    requires len > 0 && Runs(q, mem, d, len) && ReadDescriptor(q, mem, i) == Some(d)
    requires IndexAt(q, mem, d, len) == i
    ensures Runs(q, mem, d, m)
    decreases m
  {
    if m <= len {
      RunsPrefix(q, mem, d, m, len);
    } else {
      LoopRunsForever(q, mem, d, i, len, m - len);
      RunsFrom(q, mem, d, len, m - len);
    }
  }

  /** More numbers below `n` than `n` cannot all differ. */
  lemma {:induction false} Pigeonhole(xs: seq<nat>, n: nat) returns (i: nat, j: nat)
    requires |xs| > n > 0 && forall k | 0 <= k < |xs| :: xs[k] < n
    ensures i < j < |xs| && xs[i] == xs[j]
    decreases n
  {
    var last := |xs| - 1;
    if k :| 0 <= k < last && xs[k] == xs[last] {
      i, j := k, last;
    } else {
      // the number n - 1 is replaced by the last one, which occurs nowhere else
      assert xs[0] != xs[last];
      var ys := seq(last, k requires 0 <= k < last => if xs[k] == n - 1 then xs[last] else xs[k]);
      i, j := Pigeonhole(ys, n - 1);
    }
  }

  /**
   The walk along a chain ends within `num` steps, or it never ends: what any
   number of steps finds unfinished after `num` of them is a loop.
   */
  lemma ChainEndsWithinQueue(q: Queue, mem: Memory, d: Descriptor, fuel: nat)
    ensures Chain(q, mem, d, fuel).Some? ==> Chain(q, mem, d, q.num).Some?
  {
    WalkEndsIffNotRuns(q, mem, d, q.num, []);
    WalkEndsIffNotRuns(q, mem, d, fuel, []);
    if Runs(q, mem, d, q.num + 1) {
      LongWalkNeverEnds(q, mem, d, fuel + 1);
    }
  }

  /** The indices of the first `k` steps. */
  ghost function Path(q: Queue, mem: Memory, d: Descriptor, k: nat): (path: seq<nat>)
    requires Runs(q, mem, d, k)
    ensures |path| == k && forall i | 0 <= i < k :: path[i] < q.num
    decreases k
  {
    if k == 0 then []
    else [d.next] + Path(q, mem, ReadDescriptor(q, mem, d.next).value, k - 1)
  }

  lemma {:induction false} PathIndex(q: Queue, mem: Memory, d: Descriptor, k: nat, i: nat)
    requires Runs(q, mem, d, k) && i < k
    ensures Runs(q, mem, d, i + 1) && Path(q, mem, d, k)[i] == IndexAt(q, mem, d, i + 1)
    decreases k
  {
    if i > 0 {
      PathIndex(q, mem, ReadDescriptor(q, mem, d.next).value, k - 1, i - 1);
    }
  }

  /** A walk of more than `num` steps passes some index twice. */
  lemma WalkRepeats(q: Queue, mem: Memory, d: Descriptor) returns (i: nat, j: nat)
    requires Runs(q, mem, d, q.num + 1)
    ensures 0 < i < j <= q.num + 1 && Runs(q, mem, d, i) && Runs(q, mem, d, j)
    ensures IndexAt(q, mem, d, i) == IndexAt(q, mem, d, j)
  {
    var path := Path(q, mem, d, q.num + 1);
    assert path[0] < q.num;
    var a, b := Pigeonhole(path, q.num);
    PathIndex(q, mem, d, q.num + 1, a);
    PathIndex(q, mem, d, q.num + 1, b);
    i, j := a + 1, b + 1;
  }

  lemma LongWalkNeverEnds(q: Queue, mem: Memory, d: Descriptor, m: nat)
    requires Runs(q, mem, d, q.num + 1)
    ensures Runs(q, mem, d, m)
  {
    var i, j := WalkRepeats(q, mem, d);
    var start := ReadDescriptor(q, mem, IndexAt(q, mem, d, i)).value;
    RunsFrom(q, mem, d, i, j - i);
    IndexFrom(q, mem, d, i, j - i);
    LoopRunsForever(q, mem, start, IndexAt(q, mem, d, i), j - i, m);
    RunsFrom(q, mem, d, i, m);
    RunsPrefix(q, mem, d, m, i + m);
  }
}
