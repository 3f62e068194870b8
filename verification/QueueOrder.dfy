/**
 What a driver sees of a split virtqueue, without its bytes: the heads it is
 waiting for, the used ring, and the used index.
 */
module QueueOrder {
  import Cyclic

  type u16 = x: nat | x < 0x1_0000

  datatype UsedElem = UsedElem(id: nat, len: nat)

  datatype View = View(heads: seq<u16>, used: seq<UsedElem>, usedIdx: u16)

  /** Wrapping an index at 2^16 does not change its slot. */
  lemma WrapKeepsSlot(x: nat, j: nat, n: nat)
    requires n > 0 && 0x1_0000 % n == 0
    ensures (x % 0x1_0000 + j) % n == (x + j) % n
  {
    var r, k, c := x % 0x1_0000, x / 0x1_0000, 0x1_0000 / n;
    assert 0x1_0000 == c * n;
    assert x == k * (c * n) + r;
    assert k * (c * n) == (k * c) * n;
    var s, m := (r + j) / n, (r + j) % n;
    assert r + j == s * n + m;
    assert (k * c + s) * n == (k * c) * n + s * n;
    Cyclic.DivModUnique(x + j, k * c + s, m, n);
  }

  /** The slot of the used ring, of `n` slots, at index `u + j`. */
  function SlotOf(n: nat, u: nat, j: nat): (s: nat)
    requires n > 0
    ensures s < n
  {
    (u + j) % n
  }

  predicate Hit(n: nat, u: nat, k: nat, s: nat)
    requires n > 0
  {
    exists j: nat | j < k :: s == SlotOf(n, u, j)
  }

  /** The first waiting request was handed back, and nothing else happened. */
  ghost predicate HandsBackFirst(v: View, v': View, elem: UsedElem) {
    && v.heads != [] && v.used != [] && elem.id == v.heads[0] && v'.heads == v.heads[1..]
    && v'.used == v.used[SlotOf(|v.used|, v.usedIdx, 0) := elem]
    && v'.usedIdx == (v.usedIdx + 1) % 0x1_0000
  }

  /** One element for each head, in the order of the heads. */
  ghost predicate IdsMatch(heads: seq<u16>, elements: seq<UsedElem>) {
    |elements| == |heads| && forall j | 0 <= j < |elements| :: elements[j].id == heads[j]
  }

  /** The elements stand in the slots from index `u` on, and no other element changed. */
  ghost predicate SlotsFilled(used: seq<UsedElem>, used': seq<UsedElem>, u: nat, elements: seq<UsedElem>) {
    && used != [] && |used'| == |used|
    && (forall j: nat | j < |elements| :: used'[SlotOf(|used|, u, j)] == elements[j])
    && (forall s: nat | s < |used| && !Hit(|used|, u, |elements|, s) :: used'[s] == used[s])
  }

  /** All waiting requests were handed back, and nothing else happened. */
  ghost predicate HandsBackAll(v: View, v': View, elements: seq<UsedElem>) {
    && v'.heads == [] && IdsMatch(v.heads, elements)
    && v'.usedIdx == (v.usedIdx + |elements|) % 0x1_0000
    && SlotsFilled(v.used, v'.used, v.usedIdx, elements)
  }

  lemma HitShifts(n: nat, u: nat, k: nat, s: nat)
    requires n > 0 && 0x1_0000 % n == 0
    ensures Hit(n, (u + 1) % 0x1_0000, k, s) ==> Hit(n, u, k + 1, s)
    ensures k < n ==> !Hit(n, (u + 1) % 0x1_0000, k, SlotOf(n, u, 0))
  {
    var v := (u + 1) % 0x1_0000;
    if Hit(n, v, k, s) {
      var j: nat :| j < k && s == SlotOf(n, v, j);
      WrapKeepsSlot(u + 1, j, n);
      assert s == SlotOf(n, u, j + 1);
    }
    if k < n && Hit(n, v, k, SlotOf(n, u, 0)) {
      var j: nat :| j < k && SlotOf(n, u, 0) == SlotOf(n, v, j);
      WrapKeepsSlot(u + 1, j, n);
      Cyclic.ModInjective(u, u + (j + 1), n);
    }
  }

  lemma FirstThenAll(v: View, v1: View, v2: View, first: UsedElem, rest: seq<UsedElem>)
    requires HandsBackFirst(v, v1, first) && HandsBackAll(v1, v2, rest)
    requires |v.heads| <= |v.used| && 0x1_0000 % |v.used| == 0
    ensures HandsBackAll(v, v2, [first] + rest)
  {
    var all := [first] + rest;
    IndexAfter(v.usedIdx, v1.usedIdx, v2.usedIdx, |rest|, |all|);
    IdsInOrder(v.heads, first, rest);
    FirstThenAllSlots(v.used, v1.used, v2.used, v.usedIdx, first, rest);
  }

  lemma IndexAfter(u: nat, u1: nat, u2: nat, k: nat, n: nat)
    requires u1 == (u + 1) % 0x1_0000 && u2 == (u1 + k) % 0x1_0000 && n == k + 1
    ensures u2 == (u + n) % 0x1_0000
  {
  }

  lemma IdsInOrder(heads: seq<u16>, first: UsedElem, rest: seq<UsedElem>)
    requires heads != [] && first.id == heads[0] && IdsMatch(heads[1..], rest)
    ensures IdsMatch(heads, [first] + rest)
  {
  }

  lemma FirstThenAllSlots(used: seq<UsedElem>, used1: seq<UsedElem>, used2: seq<UsedElem>, u: nat,
                          first: UsedElem, rest: seq<UsedElem>)
    requires used != [] && |rest| < |used| && 0x1_0000 % |used| == 0
    requires used1 == used[SlotOf(|used|, u, 0) := first]
    requires SlotsFilled(used1, used2, (u + 1) % 0x1_0000, rest)
    ensures SlotsFilled(used, used2, u, [first] + rest)
  {
    var n, all := |used|, [first] + rest;
    HitShifts(n, u, |rest|, 0);
    forall j: nat | j < |all| ensures used2[SlotOf(n, u, j)] == all[j] {
      if j > 0 {
        WrapKeepsSlot(u + 1, j - 1, n);
        assert SlotOf(n, (u + 1) % 0x1_0000, j - 1) == SlotOf(n, u, j);
      }
    }
    forall s: nat | s < n && !Hit(n, u, |all|, s) ensures used2[s] == used[s] {
      HitShifts(n, u, |rest|, s);
      assert s != SlotOf(n, u, 0);
    }
  }
}
